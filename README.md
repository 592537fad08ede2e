# avbridge core, modelled in Dafny

avbridge turns a WAV file into one raw 16-bit RGB image per audio channel and
back: each row of an image is the spectrum of one half-overlapping frame
(magnitude companded to 16 bits in green, phase in red and blue). This project
models the sequential, integer-heavy parts of that pipeline and proves what
they promise:

- **`common.dfy`** (`Common`) holds the pieces the other modules share:
  - the 8/16/32-bit unsigned types, with 32-bit wrap-around written out;
  - interleaving and deinterleaving of channel samples, with both round trips.
- **`wav_reader.dfy`** (`Wav`) models `WavReader` from `src/fileio.cpp`:
  - the canonical 44-byte RIFF/WAVE header, parsed little-endian from the file's bytes and serialised back;
  - the acceptance checks of `Open`;
  - the per-depth block readers: deinterleaving, the 24-bit two's-complement decode, and zeros past the end of the stream;
  - the `samplePos`/`Buffer` bookkeeping, as a class whose methods update its fields.
- **`scanline_cache.dfy`** (`ScanlineCache`) models `RawImgReader16`:
  - a 256-row window onto an image file of `imageHeight` rows, kept in an array and shifted in place;
  - the invariant that cached row i is file row `bufferPos + i` when that row exists and zeros otherwise;
  - the number of rows each move reads, and `GetScanline`'s answer.
- **`compander.dfy`** (`Compander`) models `src/compander.cpp`:
  - float-to-16-bit quantisation and its inverse, over exact reals;
  - the UV-law curve and its quadratic-root expansion;
  - the iterated square root, and mu-law with log/pow supplied as parameters;
  - the method registry, `Init`, and the expansion lookup table, proved equal to direct expansion.
- **`converter.dfy`** (`Converter`) models the converter helpers:
  - the image file header and the blank-header constructor;
  - the block count, the thread count, `WriteInBlocks` chunking and `isNumber7smooth`.
- **`file_names.dfy`** (`FileNames`) models the naming logic:
  - `RemoveFilenameExtension`;
  - the `<stem>_ch<k>.raw` channel file names;
  - `FindMatchingFilenamesBC` over an abstract set of existing file names;
  - the `_modified.wav` output name.
- **`forward_converter.dfy`** (`ForwardConverter`) models the index arithmetic of `ForwardConverter::Convert`:
  - blocks per pass and the channel image size;
  - block-to-thread assignment, and its agreement with the writer's thread-to-file mapping;
  - the half-frame history buffer, shifted in place.
- **`backward_converter.dfy`** (`BackwardConverter`) models the integer side of `BackwardConverter::Convert`:
  - the WAV header fix-up and the header checks;
  - interleaving of the reconstructed channels;
  - the output loop's sample accounting, which shows that the zero-pad loop after it is never entered.

Floats are modelled as `real` throughout. The C library's `log`, `pow` and
`sqrt` are fields of a `Maths` value; a lemma assumes nothing about them beyond
the law it states in its `requires`. File contents are byte sequences, or row
sequences for images. Opening a file that does not exist is `None` or
`Missing`.

## Model

| member | source | states |
|---|---|---|
| Common.AddU32 | src/converter.cpp:294-295 | the 32-bit unsigned sum: below 2^32, and equal to the plain sum when that fits |
| Common.MulWrap | src/converter.cpp:240 | the unsigned product modulo the width: below the modulus, and equal to the plain product when that fits |
| Common.Interleave | src/converter.cpp:516-525 | the interleaved sequence has len·numCh elements |
| Common.InterleaveAt | src/converter.cpp:523 | sample j of channel c lands at position j·numCh+c |
| Common.Deinterleave | src/fileio.cpp:88-95 | numCh channels of len samples each |
| Common.DeinterleaveAt | src/fileio.cpp:93 | channel c, sample j is element j·numCh+c of the interleaved data |
| Common.InterleaveDeinterleave | src/fileio.cpp:88-95 | deinterleaving then interleaving gives back the first len·numCh elements |
| Common.DeinterleaveInterleave | src/converter.cpp:516-525 | interleaving then deinterleaving gives back the channels |
| Wav.Bytes16 | src/fileio.hpp:20-30 | two little-endian bytes that read back as the value |
| Wav.Bytes32 | src/fileio.hpp:14-19 | four little-endian bytes that read back as the value |
| Wav.Bytes32OfLE32 | src/fileio.cpp:40-44 | re-encoding a 32-bit field read from the file gives its four bytes back |
| Wav.Bytes16OfLE16 | src/fileio.cpp:41 | re-encoding a 16-bit field read from the file gives its two bytes back |
| Wav.Serialize | src/fileio.hpp:36-41 | the header occupies exactly 44 bytes |
| Wav.ParseHeader | src/fileio.cpp:40-44 | the data begins 44 bytes in, plus the fmt chunk's extension bytes skipped by the seek |
| Wav.ParseHeaderBytes | src/fileio.cpp:40-44 | the header read is the file's first 36 bytes and the 8 bytes just before the data, read little-endian |
| Wav.ParseSerialize | src/fileio.cpp:40-44 | a header with a 16-byte fmt chunk is read back exactly, and the data starts at byte 44 whatever follows |
| Wav.FrameCount | src/fileio.cpp:76 | the number of whole frames: n·align ≤ size < (n+1)·align |
| Wav.OpenCheckAsWritten | src/fileio.cpp:23-78 | the checks as written: an open, or the division by zero, happens only for an existing file of at least 45 bytes (size taken mod 2^32) with a supported depth and the RIFF/WAVE/fmt/data ids; it divides by zero exactly when BlockAlign is 0; an open holds the parsed header and totalSamples = Subchunk2Size/BlockAlign |
| Wav.OpenCheck | src/fileio.cpp:23-78 | opens iff the file exists, has at least 45 bytes, the data chunk fits, the depth is 8/16/24/32, all four chunk ids match and BlockAlign is non-zero; on success it returns the parsed header, totalSamples = Subchunk2Size / BlockAlign and the channel-count warning |
| Wav.AsWrittenAgrees | src/fileio.cpp:45 | for files below 4 GiB, where the 32-bit sum cannot wrap and BlockAlign is non-zero, the checks as written and the corrected checks agree |
| Wav.OpenWellFormed | src/fileio.cpp:23-78 | a canonical header followed by its data is opened with that header and its frame count |
| Wav.OpenRefusesHeaderOnly | src/fileio.cpp:35-39 | a 44-byte header alone is refused as too small |
| Wav.WrappedDataSizeAccepted | src/fileio.cpp:45 | a 100-byte file claiming 0xFFFFFFF0 data bytes passes the check as written, with 0x3FFFFFFC frames, and is refused by the corrected check |
| Wav.ZeroBlockAlignDivides | src/fileio.cpp:76 | a header with BlockAlign 0 passes every check as written and then divides by zero; the corrected check refuses it |
| Wav.FormatOf | src/fileio.cpp:174-201 | a sample format exists iff the depth is 8, 16, 24 or 32, with depth/8 bytes per sample |
| Wav.DecodeS16 | src/fileio.cpp:99-117 | the signed 16-bit value of two little-endian bytes: in range, congruent to the bytes, negative iff the high bit is set |
| Wav.Decode24 | src/fileio.cpp:131-141 | the signed 24-bit value of three little-endian bytes: in [−8388608, 8388607], congruent to the bytes mod 2^24, negative iff bit 23 is set |
| Wav.Signed24Unique | src/fileio.cpp:131-141 | two 24-bit values congruent mod 2^24 are equal, so the decode is the two's-complement value |
| Wav.SampleAtIsValue | src/fileio.cpp:132 | the wide read at a sample's offset decodes only that sample's bytes |
| Wav.Fill | src/fileio.cpp:83-87 | a zeroed buffer into which only the bytes the stream holds are read |
| Wav.BlockAt | src/fileio.cpp:88-95 | block sample (c, j) is the sample at interleaved position j·numCh+c of the read buffer |
| Wav.BlockReadsStream | src/fileio.cpp:86-95 | a sample read before the end of the stream is the decoded bytes at its position |
| Wav.BlockZeroPastEnd | src/fileio.cpp:83-95 | a sample past lenRead or past the end of the stream is 0 |
| Wav.ZeroBlock | src/fileio.cpp:170-173 | the block returned for an unsupported depth: numCh channels of zeros |
| Wav.FramesToRead | src/fileio.cpp:86 | lenRead = min(len, totalSamples − samplePos), so samplePos never passes totalSamples |
| Wav.SplitChannels | src/fileio.cpp:88-95 | the nested copy loops produce the deinterleaving of the decoded samples |
| Wav.NextBlock | src/fileio.cpp:86-87 | reading the (i+1)-th block starts where i blocks of the stream end |
| Wav.Appended | src/fileio.cpp:219-222 | each channel's list gets that channel's block appended |
| Wav.BufferStep | src/fileio.cpp:216-223 | one more block read and appended keeps "the buffer holds blocks 0..i of the stream" |
| Wav.WavReader.Clear | src/fileio.cpp:13-21 | every status field is reset |
| Wav.WavReader.Open | src/fileio.cpp:23-78 | applies the corrected checks of `Wav.OpenCheck`, so it refuses the two inputs of the fileio Findings that the source accepts; otherwise succeeds exactly when the checks pass, sets the header, totalSamples, the message, and the stream at the data start |
| Wav.WavReader.ReadBlockOf | src/fileio.cpp:80-166 | advances samplePos by lenRead, consumes lenRead frames of the stream, and returns the decoded block |
| Wav.WavReader.ReadBlock | src/fileio.cpp:168-203 | dispatches on the depth; an unsupported depth returns zeros and reads nothing |
| Wav.WavReader.Buffer | src/fileio.cpp:205-229 | returns 0 when not valid; else buffers n ≤ blockCount blocks, n < blockCount only at the end, samplePos = min(total, start + n·len), sets endOfStream iff samplePos reached totalSamples, buffered block b of channel c is the b-th block of the stream, and the stream left over starts n blocks (or the whole stream) further on |
| Wav.WavReader.BufferBlocks | src/fileio.cpp:216-223 | the buffering loop stops only at blockCount or at the end of the stream |
| Wav.WavReader.Close | src/fileio.cpp:241-245 | the stream is dropped, the reader is not valid and not at end of stream, and the header, sample position, total and message are reset |
| ScanlineCache.ZeroRow | src/fileio.cpp:271 | a row of w zero pixels |
| ScanlineCache.Window | src/fileio.cpp:282-313 | the cache contents for a start row: L rows, each the file row or zeros |
| ScanlineCache.ShiftedAt | src/fileio.cpp:264-280 | row i of a shift by n is old row i+n when that exists, else zeros |
| ScanlineCache.ShiftedWindow | src/fileio.cpp:290-305 | shifting the window at oldPos by newPos−oldPos gives the window at newPos on every row both windows share |
| ScanlineCache.WindowStart | src/fileio.cpp:315-323 | the start row for line y: start ≤ y < start + L/2 + L/4 < start + L, and line y stays at least L/4 rows from a non-zero start |
| ScanlineCache.ReadCountIsExposed | src/fileio.cpp:290-312 | on a move the rows read are exactly the newly exposed rows of the image; on a reload min(imageHeight − s, L) |
| ScanlineCache.UncachedRowsAreExposed | src/fileio.cpp:290-305 | the overlap arithmetic counts the rows in the new window that the old one did not cover |
| ScanlineCache.RawImgReader16.constructor | src/fileio.cpp:247-249 | a closed reader |
| ScanlineCache.RawImgReader16.CopyBufferLine | src/fileio.cpp:258-263 | row dst takes old row src; no other row changes |
| ScanlineCache.RawImgReader16.ShiftBuffer | src/fileio.cpp:264-280 | the buffer becomes the old buffer shifted by numLines with zeros in the vacated rows, n = 0 leaving it unchanged |
| ScanlineCache.RawImgReader16.ShiftTowardsFront | src/fileio.cpp:266-272 | the ascending copy then zeroing of the last n rows is the shift by n |
| ScanlineCache.RawImgReader16.ShiftTowardsBack | src/fileio.cpp:273-279 | the descending copy then zeroing of the first n rows is the shift by −n |
| ScanlineCache.RawImgReader16.CopyRowsTowardsFront | src/fileio.cpp:268-269 | row k takes old row k+n for k < L−n; the rest are untouched |
| ScanlineCache.RawImgReader16.CopyRowsTowardsBack | src/fileio.cpp:275-276 | row k takes old row k−n for k ≥ n, reading each source before it is overwritten; the rest are untouched |
| ScanlineCache.RawImgReader16.ZeroRows | src/fileio.cpp:270-271 | rows in [from, to) become zero; the rest are untouched |
| ScanlineCache.RawImgReader16.ReadRows | src/fileio.cpp:294-295 | count rows of the file from fileRow are copied to bufRow on, only those that exist |
| ScanlineCache.RawImgReader16.SetBufferPos | src/fileio.cpp:282-313 | bufferPos := s and the cache again holds the window at s; rows read as in ReadCountIsExposed |
| ScanlineCache.RawImgReader16.MoveWindowBack | src/fileio.cpp:290-297 | the backward overlapping move re-establishes the window and reads only the exposed rows |
| ScanlineCache.RawImgReader16.MoveWindowForward | src/fileio.cpp:298-305 | the forward overlapping move re-establishes the window and reads only the exposed rows |
| ScanlineCache.RawImgReader16.ReloadWindow | src/fileio.cpp:306-312 | zeroing and re-reading gives the window at s with min(imageHeight − s, L) rows read |
| ScanlineCache.RawImgReader16.UpdateBufferPos | src/fileio.cpp:315-323 | bufferPos becomes WindowStart(y), so row y is cached; the cache is untouched when the start does not change |
| ScanlineCache.RawImgReader16.GetScanline | src/fileio.cpp:359-366 | file row y for 0 ≤ y < imageHeight, a zero row otherwise (y = imageHeight included) |
| ScanlineCache.RawImgReader16.Close | src/fileio.cpp:349-357 | the image is dropped, the buffer emptied, bufferLines, bufferPos, scanlineSize and headerSize reset to 0, and imageHeight kept |
| ScanlineCache.RawImgReader16.Open | src/fileio.cpp:325-347 | returns the header bytes read (the file's first headerSize bytes, or all a shorter file holds); opens iff the file exists and holds the header; then imageHeight = ((size − header)/6)/scanlineSize and the cache holds the window at 0 |
| ScanlineCache.ImageHeight | src/fileio.cpp:341 | the image holds exactly imageHeight whole rows of 6-byte pixels after the header, with less than one row left over |
| Compander.TruncToZero | src/compander.cpp:15 | float-to-integer conversion truncates toward zero |
| Compander.Quantize | src/compander.cpp:3-17 | ≤ 0 gives 0, ≥ 1 gives 65535, in between the truncation of 65535·x |
| Compander.QuantizeMonotone | src/compander.cpp:3-17 | a larger sample never gets a smaller code |
| Compander.Dequantize | src/compander.cpp:18-24 | in [0, 1]; 0 iff the code is 0, 1 iff it is 65535 |
| Compander.QuantizeDequantize | src/compander.cpp:3-24 | quantising a dequantised code gives the code back |
| Compander.DequantizeQuantize | src/compander.cpp:3-24 | dequantising a quantised sample in [0, 1] is at most one step below it |
| Compander.F32toUI16 | src/compander.cpp:3-17 | same length; with checkRange every element is Quantize of the input, without it the truncation of 65535·v |
| Compander.UI16toF32 | src/compander.cpp:18-24 | same length; every element is code/65535 |
| Compander.UVCoefficients | src/compander.cpp:35-37 | gamma, beta and alpha solve their defining equations |
| Compander.MSqrtCount | src/compander.cpp:44-46 | the number of square roots is max(1, int(param[0])) |
| Compander.CompressMu | src/compander.cpp:27-32 | y·log(1+mu) = log(1+mu·x) |
| Compander.ExpandMu | src/compander.cpp:50-57 | mu·x = pow(1+mu, y) − 1 |
| Compander.UVCurveEnds | src/compander.cpp:38 | the rational curve maps 0 to 0 and 1 to 1 |
| Compander.UVLawEnds | src/compander.cpp:33-40 | UV-law compression maps 0 to 0 and 1 to 1 with the parameters' coefficients |
| Compander.UVCurveSolvesQuadratic | src/compander.cpp:65-67 | every compressed value y makes its input a root of a·x² + b(y)·x + c(y) |
| Compander.UVRootSolvesQuadratic | src/compander.cpp:69 | the expansion's root formula solves that quadratic |
| Compander.QuadraticPicks | src/compander.cpp:69 | the "−sqrt" root is the root x with 2a·x + b ≤ 0 |
| Compander.UVRootInverse | src/compander.cpp:65-69 | where the branch condition holds, the root formula inverts the curve |
| Compander.UVLawInverse | src/compander.cpp:33-70 | UV-law expansion inverts compression at x whenever the root picked is x's |
| Compander.IterSquareSqrt | src/compander.cpp:41-79 | squaring n times undoes n square roots |
| Compander.MSqrtInverse | src/compander.cpp:41-79 | MSqrt expansion undoes compression; with param ≤ 1 it is one root and one square, not the identity |
| Compander.MuLawInverse | src/compander.cpp:27-57 | given pow(a, log t / log a) = t, mu-law expansion inverts compression |
| Compander.MuLawCompress | src/compander.cpp:27-32 | every element is Quantize of the mu-law curve |
| Compander.UVLawCompress | src/compander.cpp:33-40 | every element is Quantize of the UV-law curve |
| Compander.MSqrtCompress | src/compander.cpp:41-48 | the loop of square roots gives Quantize of the iterated root |
| Compander.CurveExpand | src/compander.cpp:50-79 | one expanded value per code |
| Compander.MSqrtExpand | src/compander.cpp:71-79 | the squaring loop gives the MSqrt expansion of every code |
| Compander.ExpandWith | src/compander.cpp:163-164 | the method's expansion function applied to every code |
| Compander.CompressWith | src/compander.cpp:157-160 | the method's compression function: Quantize of its curve per element |
| Compander.ExpansionTable | src/compander.cpp:82-88 | the table has 65536 entries |
| Compander.TableLookup | src/compander.cpp:161-169 | the table entry of a code equals the direct expansion of that code |
| Compander.CreateExLookupTable | src/compander.cpp:82-88 | the table filled for codes 0..65535 is the expansion of each code |
| Compander.DefaultMethods | src/compander.cpp:101-128 | ids 1, 2, 3 are registered; mulaw (2) and uvlaw (3) are table-backed, sqrt (1) is not |
| Compander.DefaultNames | src/compander.cpp:111-127 | every registered name maps to a registered id |
| Compander.DefaultsExpandDefined | src/compander.cpp:107-124 | every default parameter pair gives a defined expansion |
| Compander.UVQuadANonZero | src/compander.cpp:61-65 | with 0 < gamma < 1 < u the quadratic's leading coefficient is non-zero |
| Compander.Compander16.constructor | src/compander.cpp:90-94 | the registry is the default one and no method is current |
| Compander.Compander16.GetMethodID | src/compander.cpp:130-136 | 0 exactly for an unknown name, and 0 is not a registered id; otherwise the registered id |
| Compander.Compander16.Init | src/compander.cpp:144-154 | the method becomes current with the given parameters; its table is rebuilt only if it is table-backed |
| Compander.Compander16.InitDefault | src/compander.cpp:138-142 | Init with the method's default parameter: only entry id changes, and only its lookup table, which becomes the table for the default parameter when the method uses one |
| Compander.Compander16.Compress | src/compander.cpp:157-160 | Quantize of the current curve, element by element |
| Compander.Compander16.Expand | src/compander.cpp:161-169 | the table lookup and the direct expansion both give the direct expansion of every code |
| Converter.MakeBlankImageFileHeader | src/converter.cpp:3-11 | magic 0x42069AB6, version 1, header size 80, everything else zero |
| Converter.TotalBlocks | src/converter.cpp:222 | the block count is the ceiling of totalSamples/(fftSize/2), taken of the 32-bit sum totalSamples + fftSize/2 − 1 |
| Converter.TotalBlocksCovers | src/converter.cpp:222 | totalBlocks·(fftSize/2) covers totalSamples with less than one half frame to spare |
| Converter.CeilingDivision | src/converter.cpp:222 | (t + h − 1)/h is the ceiling of t/h |
| Converter.BlockCountUnique | src/converter.cpp:222 | only one block count covers the samples that tightly |
| Converter.NumThreads | src/converter.cpp:161-167 | even; equal to the hardware count when that is even, otherwise double it |
| Converter.WriteInBlocks | src/converter.cpp:189-200 | the writes go to offsets 0, blockSize, 2·blockSize, …, each of min(blockSize, remaining) > 0 bytes, and together they are exactly the data |
| Converter.SmoothDivide | src/converter.cpp:134-137 | dividing out a factor 2, 3, 5 or 7 does not change 7-smoothness |
| Converter.SmoothWithoutSmallFactors | src/converter.cpp:138-140 | with no factor 2, 3, 5 or 7 left, the number is 7-smooth iff it is 1 |
| Converter.IsNumber7Smooth | src/converter.cpp:132-141 | true iff the number has no prime factor above 7 |
| FileNames.Decimal | src/converter.cpp:239 | `%d` of a non-negative number: one or more digits |
| FileNames.ParseDecimalOf | src/converter.cpp:239 | the digits read back as the number |
| FileNames.DecimalInjective | src/converter.cpp:239 | different numbers print differently |
| FileNames.LastIndexOf | src/converter.cpp:353 | `rfind`: the last occurrence, or none at all |
| FileNames.FirstIndexOf | src/converter.cpp:509 | `find`: the first occurrence, or none at all |
| FileNames.RemoveFilenameExtension | src/converter.cpp:142-155 | the prefix before the last '.' at index ≥ 1, or s without its last character when there is none |
| FileNames.StemUnique | src/converter.cpp:142-155 | that prefix is determined by the name |
| FileNames.StemOfExtension | src/converter.cpp:142-155 | removing a dot-free extension gives back the base name |
| FileNames.ChannelFileName | src/converter.cpp:239 | `<stem>_ch<k>.raw` starts with the stem |
| FileNames.ChannelFileNameInjective | src/converter.cpp:239 | different channel numbers give different names |
| FileNames.ChannelTagPosition | src/converter.cpp:353 | the last "_ch" of a channel name is the one after the stem, and so is the first when the stem has none |
| FileNames.RunUnique | src/converter.cpp:342-349 | the longest run of existing names from channel 1 is unique |
| FileNames.RunHolds | src/converter.cpp:342-349 | every name in the run exists |
| FileNames.CollectRun | src/converter.cpp:342-349 | the probing loop collects that run |
| FileNames.FindMatchingFilenamesBC | src/converter.cpp:339-367 | the run for the name; when empty, the run for the name cut at its last "_ch", or nothing if "_ch" does not occur |
| FileNames.OutputFileName | src/converter.cpp:509-510 | the first name cut at its first "_ch", then "_modified.wav" |
| FileNames.OutputFileNameOfChannel | src/converter.cpp:509-510 | for a channel file of a stem without "_ch", the output is `<stem>_modified.wav` |
| ForwardConverter.BlockCount | src/converter.cpp:223 | between 64 and 4096, an eighth of totalBlocks in between |
| ForwardConverter.ChannelFileSize | src/converter.cpp:240 | the channel file size is totalBlocks·(fftSize/2+1)·6 + 80, modulo 2^32 as the source's unsigned arithmetic gives it |
| ForwardConverter.ChannelFileHoldsBlocks | src/converter.cpp:240 | the channel file is the header plus totalBlocks rows of fftSize/2+1 pixels, so reading it back with that width gives totalBlocks rows |
| ForwardConverter.ChannelHeader | src/converter.cpp:256-262 | a recognised header carrying the settings and the input's WAV header |
| ForwardConverter.ThreadsPerChannel | src/converter.cpp:225 | tpc·numCh ≤ threads < (tpc+1)·numCh |
| ForwardConverter.BlockThread | src/converter.cpp:294-295 | the thread index is (j·tpc mod 2^32)/blockCount + i·tpc, modulo 2^32 |
| ForwardConverter.BlockThreadValue | src/converter.cpp:294-295 | without wrap-around the 32-bit expression is (j·tpc)/blockCount + i·tpc |
| ForwardConverter.BlockThreadInGroup | src/converter.cpp:294-295 | block j of channel i goes to a thread in [i·tpc, (i+1)·tpc) |
| ForwardConverter.BlockThreadMonotone | src/converter.cpp:294-295 | later blocks never go to an earlier thread |
| ForwardConverter.WriterFindsChannel | src/converter.cpp:280-296 | the writer's t/tpc maps that thread back to channel i |
| ForwardConverter.GroupsFit | src/converter.cpp:224-225 | every channel's thread group exists |
| ForwardConverter.Pushed | src/converter.cpp:292-293 | the history keeps its length |
| ForwardConverter.PushedTwice | src/converter.cpp:292-293 | after two pushes the history is exactly the two blocks |
| ForwardConverter.HistoryIsLastTwo | src/converter.cpp:288-297 | after any pushes, each frame handed to a thread is the last two half-frame blocks |
| ForwardConverter.PushBlock | src/converter.cpp:292-293 | the in-place shift and copy leave old[half..2·half] followed by the new block |
| BackwardConverter.FixupHeader | src/converter.cpp:480-485 | 32-bit, 16-byte fmt chunk, channels, rate, ids and format unchanged, and the RIFF ChunkSize recomputed as 36 plus the new data size (mod 2^32) |
| BackwardConverter.FixupHeaderAsWritten | src/converter.cpp:480-485 | the fix-up as written: BlockAlign, ByteRate and Subchunk2Size times the integer 32/BitsPerSample with 16- and 32-bit wrap, 32-bit, 16-byte fmt chunk, the RIFF chunk and the other fields unchanged |
| BackwardConverter.StaleChunkSize | src/converter.cpp:480-485 | for 16-bit stereo with 150 frames both fix-ups give a 1200-byte data chunk, but the RIFF ChunkSize stays 636 as written and becomes 1236 corrected |
| BackwardConverter.FixupDescribesFloats | src/converter.cpp:480-485 | a consistent header becomes a consistent 32-bit header with 4·numCh-byte frames, a data size scaled by 32/bits, a RIFF size that counts the new data, and the same number of frames |
| BackwardConverter.FixupAgreesOnExactDepths | src/converter.cpp:480-483 | for 8-, 16- and 32-bit input the integer factor is exact and the fix-up as written is the corrected one apart from the RIFF chunk it leaves stale |
| BackwardConverter.TwentyFourBitFixup | src/converter.cpp:480-483 | 24-bit input: as written the header says 32-bit but keeps 6-byte frames and 600 bytes; corrected it has 8-byte frames and 800 bytes |
| BackwardConverter.CheckHeaders | src/converter.cpp:491-503 | HeaderMismatch iff some headers differ; ChannelCountMismatch iff they agree but the file count is not NumChannels; Accepted iff both hold |
| BackwardConverter.InterleaveBlock | src/converter.cpp:516-525 | the nested loops produce the interleaving of the channels |
| BackwardConverter.OutputFileSize | src/converter.cpp:511 | the output file size is totalSamples·numCh·4 + 44, modulo 2^32 as the source's unsigned arithmetic gives it |
| BackwardConverter.OutputFileSizeMatches | src/converter.cpp:511 | without wrap-around the output file is the 44-byte header plus four bytes per sample |
| BackwardConverter.OutputLoop | src/converter.cpp:504-534 | given the block count of the image, exactly totalSamples·numCh samples are written, each the right frame and channel of its reconstructed row, and samplesToWrite ends at 0, so the zero-pad loop is never entered |
| BackwardConverter.AppendChunk | src/converter.cpp:526-528 | appending a pass's min(samplesToWrite, fftSize) frames keeps every written sample in its place |
| BackwardConverter.Progress | src/converter.cpp:526-528 | after p passes min(totalSamples, p·fftSize) frames have been written |
| BackwardConverter.AllFramesWritten | src/converter.cpp:506-514 | when the loop over odd rows ends, the passes cover every sample |

## Left out

- FFT work is not modelled: the forward and backward `ProcessBlock`, thread `Init`/`Deinit`, windows and the overlap-add normalisation call a foreign FFT library and do float STFT arithmetic. The backward output loop takes the reconstructed rows as a parameter.
- Threads are not modelled: `ProcessAsync`, `WaitForCompletion`, the write thread and the output double-buffering. Only the index arithmetic that decides which thread gets which block, and which file a thread's rows go to, is modelled.
- File system calls are not modelled: `FileSize`, `FileExists`, `CreateCustomSizedFile*`, `fopen`/`fwrite`/`seekg`, and stream fail bits. Files are byte or row sequences passed in. An image file is assumed to hold exactly its header and `imageHeight` whole rows, and reads copy only rows that exist.
- `printf`/`puts` progress and error output is not modelled, and neither is the command-line driver.
- Floating point is exact `real`: rounding, NaN and infinities are not modelled. `log`, `pow` and `sqrt` are parameters constrained only by the laws a lemma assumes.
- The float normalisation of samples in `ReadBlock` is not modelled: the readers return the integer sample values, and the 32-bit float format returns its raw little-endian 32-bit words.
- The window functions of `src/windowing.cpp` are not modelled.
- ScanlineCache.RawImgReader16.Open: the path without a header pointer (a `seekg` past the header, which does not set end-of-file, so a file shorter than its header still opens) is not modelled. Every caller passes a header pointer.
- The header bytes `RawImgReader16.Open` returns are not decoded into an image file header: the fields are not laid out from the 80 bytes.
- Wav.WavReader.Open: applies the corrected checks of `Wav.OpenCheck`. It refuses the wrapped data size and the zero BlockAlign listed under Findings, which the source accepts. It also compares the true file length, while the source stores `tellg()` in a 32-bit `filesize`, so a file of 4 GiB or more is measured modulo 2^32 (a well-formed file of 2^32 + 10 bytes is refused as too small by the source and opened by the model). `Wav.OpenCheckAsWritten` models the source's checks, including that truncation.
- Headers are compared by `memcmp`. The model compares them as values with structural equality, not as byte layouts with padding.
- The body of the zero-pad loop after the backward output loop is not modelled. `BackwardConverter.OutputLoop` proves that the loop is never entered.
- The backward converter opens each image twice: once with a placeholder width to read the header, then with the real width. Only the second open is modelled.
- The accessors `GetBuffer`, `GetBufferedBlock` and `GetImageHeight` are plain field reads. The destructors only close streams.
- Compander.Compander16.Init: requires a registered id. The source only prints an error and then inserts a default-constructed method into the map, whose null function pointers are called later.
- Compander.UVLawInverse: holds only where the "−sqrt" root the expansion picks is the input's own root (2a·x + b ≤ 0). This is a precondition, not a proof over the whole of [0, 1].
- Converter.IsNumber7Smooth: requires n > 0. For 0 the source's `while(n % p == 0)` never terminates.
- Converter.WriteInBlocks: requires blockSize > 0 or no data. Otherwise the source loops forever.
- FileNames.RemoveFilenameExtension: requires a non-empty name. For "" the source's `s.size()-1` wraps and `substr` is called past the end.
- ForwardConverter.ThreadsPerChannel: requires numCh > 0. The source divides by zero for a zero-channel file. With one hardware thread the thread count is 2; with none it is 0, every thread group is empty, and no block has a thread.
- ForwardConverter.BlockThreadValue: the products j·tpc and i·tpc are stated without 32-bit wrap-around (`NoWrap`). `BlockThread` itself computes them modulo 2^32.
- ForwardConverter.ChannelFileHoldsBlocks: holds only while the file size fits in 32 bits. `ChannelFileSize` wraps above 4 GiB, as the source does.
- ForwardConverter.Pushed: for an odd block length the source copies sizeof(float)·fftSize/2 bytes, half a sample more than fftSize/2 samples, and so stores a last value partly read from past the block's end. The model stores 0 there instead: the over-read bytes are not modelled.
- ForwardConverter.PushBlock: the same half-sample over-read for odd fftSize is not modelled; the last value of the new half is 0.
- ForwardConverter.PushBlock: requires fftSize ≥ 2. For a smaller fftSize the source has already divided by zero in the block count.
- BackwardConverter.OutputLoop: requires totalSamples + fftSize/2 − 1 to fit in 32 bits, so that the ceiling division does not wrap, and totalBlocks < 2^32 − 1, so that the odd `i`, which starts at 1 and grows by 2, exceeds totalBlocks before `i += 2` can wrap.
- BackwardConverter.OutputLoop: for totalBlocks = 2^32 − 1 the source loops forever: every odd `i` satisfies `i <= totalBlocks`, and `i += 2` wraps from 2^32 − 1 to 1. That input is excluded, not modelled.
- BackwardConverter.FixupHeader: leaves AudioFormat as it is. For 8-, 16- and 24-bit PCM input the fixed-up header still says PCM (1) while the data is 32-bit float.
- BackwardConverter.OutputFileSizeMatches: holds only while the size fits in 32 bits. `OutputFileSize` wraps, as the source does.
- Converter.NumThreads: computes the forward converter's `numThreads` as a wrapped 32-bit unsigned value, while the source declares it a signed `int`. The two differ only for hardware thread counts of 2^30 or more, where the signed doubling overflows.
- The backward converter's `numThreads` is computed (`Converter.NumThreads`) but only thread 0 is used. Nothing about it is modelled beyond that.

## Findings

| source | as written | input that shows it | evidently intended | confidence | as-written member | corrected member |
|---|---|---|---|---|---|---|
| src/fileio.cpp:45 | `tellg() + Subchunk2Size` is a 32-bit sum, so a huge data size wraps and passes the "file smaller than header suggests" check | a 100-byte file with a canonical 16-bit stereo header whose Subchunk2Size is 0xFFFFFFF0: accepted with 0x3FFFFFFC frames | refuse a data chunk that does not fit in the file | not executed | Wav.WrappedDataSizeAccepted | Wav.OpenCheck |
| src/fileio.cpp:76 | BlockAlign is never checked, and a header with BlockAlign 0 passes every check and then divides by zero | a canonical header with BlockAlign 0 and 8 data bytes | refuse a header whose BlockAlign is 0 | not executed | Wav.ZeroBlockAlignDivides | Wav.OpenCheck |
| src/converter.cpp:480-483 | the fix-up multiplies by the integer 32/BitsPerSample, which is 1 for 24-bit input, so the 32-bit header keeps 3-byte samples and the old data size | 24-bit stereo, 100 frames: BlockAlign stays 6 and Subchunk2Size 600, while 800 bytes of 8-byte frames are written | scale the byte counts by 32/BitsPerSample as a fraction (4/3 for 24-bit) | not executed | BackwardConverter.TwentyFourBitFixup | BackwardConverter.FixupHeader |
| src/converter.cpp:480-485 | the fix-up scales Subchunk2Size but never updates the RIFF ChunkSize, so the output header's RIFF size still counts the old, smaller data chunk | 16-bit stereo, 150 frames: Subchunk2Size becomes 1200 while ChunkSize stays 636 | set ChunkSize to 36 plus the new Subchunk2Size | not executed | BackwardConverter.StaleChunkSize | BackwardConverter.FixupHeader |
