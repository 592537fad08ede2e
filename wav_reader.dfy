/** The WAV reader `WavReader`: the canonical RIFF WAVE header, the acceptance
    checks of `Open`, the integer decoding of 8-, 16-, 24- and 32-bit samples,
    deinterleaving, and the sample-position bookkeeping of `Buffer`. */
module Wav {
  import opened Common

  // ---------------------------------------------------------------------
  // Little-endian fields

  function LE16(b: seq<u8>, off: nat): u16
    requires off + 2 <= |b|
  {
    b[off] as int + 0x100 * (b[off + 1] as int)
  }

  function LE32(b: seq<u8>, off: nat): u32
    requires off + 4 <= |b|
  {
    b[off] as int + 0x100 * (b[off + 1] as int)
    + 0x1_0000 * (b[off + 2] as int) + 0x100_0000 * (b[off + 3] as int)
  }

  /** The two bytes a 16-bit field occupies on disk, low byte first. */
  function Bytes16(x: u16): (b: seq<u8>)
    ensures |b| == 2 && LE16(b, 0) == x
  {
    [x % 0x100, x / 0x100]
  }

  /** The four bytes a 32-bit field occupies on disk, low byte first. */
  function Bytes32(x: u32): (b: seq<u8>)
    ensures |b| == 4 && LE32(b, 0) == x
  {
    ByteSplit(x);
    [x % 0x100, x / 0x100 % 0x100, x / 0x1_0000 % 0x100, x / 0x100_0000]
  }

  lemma ByteSplit(x: u32)
    ensures x / 0x100_0000 < 0x100
    ensures x == x % 0x100 + 0x100 * (x / 0x100 % 0x100)
                 + 0x1_0000 * (x / 0x1_0000 % 0x100) + 0x100_0000 * (x / 0x100_0000)
  {
    var q1, q2 := x / 0x100, x / 0x1_0000;
    DivModUnique(q1, 0x100, q1 / 0x100, q1 % 0x100);
    DivModUnique(x, 0x1_0000, q1 / 0x100, x % 0x100 + 0x100 * (q1 % 0x100));
    DivModUnique(x, 0x100_0000, q2 / 0x100, x % 0x100 + 0x100 * (q1 % 0x100) + 0x1_0000 * (q2 % 0x100));
  }

  /** Reading a field back from its bytes: the bytes of a 32-bit field are
      exactly the four bytes it was read from. */
  lemma Bytes32OfLE32(b: seq<u8>, off: nat)
    requires off + 4 <= |b|
    ensures Bytes32(LE32(b, off)) == b[off..off + 4]
  {
    var x := LE32(b, off);
    var lo2 := b[off] as int + 0x100 * (b[off + 1] as int);
    var lo3 := lo2 + 0x1_0000 * (b[off + 2] as int);
    DivModUnique(x, 0x100, b[off + 1] + 0x100 * (b[off + 2] as int) + 0x1_0000 * (b[off + 3] as int), b[off]);
    DivModUnique(x / 0x100, 0x100, b[off + 2] + 0x100 * (b[off + 3] as int), b[off + 1]);
    DivModUnique(x, 0x1_0000, b[off + 2] + 0x100 * (b[off + 3] as int), lo2);
    DivModUnique(x / 0x1_0000, 0x100, b[off + 3], b[off + 2]);
    DivModUnique(x, 0x100_0000, b[off + 3], lo3);
  }

  lemma Bytes16OfLE16(b: seq<u8>, off: nat)
    requires off + 2 <= |b|
    ensures Bytes16(LE16(b, off)) == b[off..off + 2]
  {
    DivModUnique(LE16(b, off), 0x100, b[off + 1], b[off]);
  }

  // ---------------------------------------------------------------------
  // The canonical 44-byte header

  datatype HdrRiff = HdrRiff(ChunkID: u32, ChunkSize: u32, Format: u32)
  datatype HdrSub1 = HdrSub1(Subchunk1ID: u32, Subchunk1Size: u32,
                             AudioFormat: u16, NumChannels: u16,
                             SampleRate: u32, ByteRate: u32,
                             BlockAlign: u16, BitsPerSample: u16)
  datatype HdrSub2 = HdrSub2(Subchunk2ID: u32, Subchunk2Size: u32)
  datatype Header = Header(riff: HdrRiff, sub1: HdrSub1, sub2: HdrSub2)

  /** The header after `Status::Clear`, which zero-fills it. */
  const ZeroHeader: Header :=
    Header(HdrRiff(0, 0, 0), HdrSub1(0, 0, 0, 0, 0, 0, 0, 0), HdrSub2(0, 0))

  /** "RIFF", "WAVE", "fmt " and "data" read as little-endian words. */
  const RiffId: u32 := 0x4646_4952
  const WaveId: u32 := 0x4556_4157
  const FmtId: u32 := 0x2074_6D66
  const DataId: u32 := 0x6174_6164

  /** sizeof(wav::Header). */
  const HeaderBytes: nat := 44

  function ParseRiff(f: seq<u8>): HdrRiff
    requires 12 <= |f|
  {
    HdrRiff(LE32(f, 0), LE32(f, 4), LE32(f, 8))
  }

  function ParseSub1(f: seq<u8>): HdrSub1
    requires 36 <= |f|
  {
    HdrSub1(LE32(f, 12), LE32(f, 16), LE16(f, 20), LE16(f, 22),
            LE32(f, 24), LE32(f, 28), LE16(f, 32), LE16(f, 34))
  }

  /** Bytes of the `fmt ` chunk beyond the 16 the header struct holds; the
      reader skips them before reading the `data` chunk header. */
  function FmtExtension(sub1: HdrSub1): nat
  {
    if sub1.Subchunk1Size > 16 then sub1.Subchunk1Size - 16 else 0
  }

  /** Offset of the first sample byte: the three header parts plus the
      skipped `fmt ` extension. */
  function DataStart(f: seq<u8>): nat
    requires 36 <= |f|
  {
    HeaderBytes + FmtExtension(ParseSub1(f))
  }

  /** The whole header lies inside the file. */
  predicate HeaderInFile(f: seq<u8>)
  {
    36 <= |f| && DataStart(f) <= |f|
  }

  /** The header `Open` reads: the riff and `fmt ` parts from the first 36
      bytes, the `data` chunk header from the 8 bytes after the skipped
      extension.  Written back, it is exactly those bytes. */
  function ParseHeader(f: seq<u8>): (h: Header)
    requires HeaderInFile(f)
    ensures DataStart(f) == HeaderBytes + FmtExtension(h.sub1)
  {
    var s2 := DataStart(f) - 8;
    Header(ParseRiff(f), ParseSub1(f), HdrSub2(LE32(f, s2), LE32(f, s2 + 4)))
  }

  /** Written back, the header `Open` reads is exactly the bytes it was read
      from: the first 36 bytes and the 8 after the skipped extension. */
  lemma ParseHeaderBytes(f: seq<u8>)
    requires HeaderInFile(f)
    ensures Serialize(ParseHeader(f)) == f[..36] + f[DataStart(f) - 8..DataStart(f)]
  {
    HeaderBytesRead(f, DataStart(f) - 8);
  }

  /** Re-encoding every field read from the file gives back the bytes it was
      read from. */
  lemma HeaderBytesRead(f: seq<u8>, s2: nat)
    requires 36 <= s2 && s2 + 8 <= |f|
    ensures Serialize(Header(ParseRiff(f), ParseSub1(f), HdrSub2(LE32(f, s2), LE32(f, s2 + 4))))
            == f[..36] + f[s2..s2 + 8]
  {
    var riff := RiffBytesRead(f);
    var sub1 := Sub1BytesRead(f);
    Bytes32OfLE32(f, s2);
    Bytes32OfLE32(f, s2 + 4);
    var sub2 := Bytes32(LE32(f, s2)) + Bytes32(LE32(f, s2 + 4));
    assert sub2 == f[s2..s2 + 8];
    assert f[..36] == f[..12] + f[12..36];
  }

  /** The riff part re-encoded: the first 12 bytes. */
  lemma RiffBytesRead(f: seq<u8>) returns (b: seq<u8>)
    requires 36 <= |f|
    ensures b == Bytes32(LE32(f, 0)) + Bytes32(LE32(f, 4)) + Bytes32(LE32(f, 8))
    ensures b == f[..12]
  {
    Bytes32OfLE32(f, 0);
    Bytes32OfLE32(f, 4);
    Bytes32OfLE32(f, 8);
    b := Bytes32(LE32(f, 0)) + Bytes32(LE32(f, 4)) + Bytes32(LE32(f, 8));
    assert f[..12] == f[0..4] + f[4..8] + f[8..12];
  }

  /** The `fmt ` part re-encoded: bytes 12 to 36. */
  lemma Sub1BytesRead(f: seq<u8>) returns (b: seq<u8>)
    requires 36 <= |f|
    ensures b == Bytes32(LE32(f, 12)) + Bytes32(LE32(f, 16)) + Bytes16(LE16(f, 20))
                 + Bytes16(LE16(f, 22)) + Bytes32(LE32(f, 24)) + Bytes32(LE32(f, 28))
                 + Bytes16(LE16(f, 32)) + Bytes16(LE16(f, 34))
    ensures b == f[12..36]
  {
    Bytes32OfLE32(f, 12);
    Bytes32OfLE32(f, 16);
    Bytes16OfLE16(f, 20);
    Bytes16OfLE16(f, 22);
    Bytes32OfLE32(f, 24);
    Bytes32OfLE32(f, 28);
    Bytes16OfLE16(f, 32);
    Bytes16OfLE16(f, 34);
    b := Bytes32(LE32(f, 12)) + Bytes32(LE32(f, 16)) + Bytes16(LE16(f, 20))
         + Bytes16(LE16(f, 22)) + Bytes32(LE32(f, 24)) + Bytes32(LE32(f, 28))
         + Bytes16(LE16(f, 32)) + Bytes16(LE16(f, 34));
    assert f[12..36] == f[12..16] + f[16..20] + f[20..22] + f[22..24]
                        + f[24..28] + f[28..32] + f[32..34] + f[34..36];
  }

  /** The on-disk image of a header, as the backward converter writes it. */
  function Serialize(h: Header): (b: seq<u8>)
    ensures |b| == HeaderBytes
  {
    Bytes32(h.riff.ChunkID) + Bytes32(h.riff.ChunkSize) + Bytes32(h.riff.Format)
    + Bytes32(h.sub1.Subchunk1ID) + Bytes32(h.sub1.Subchunk1Size)
    + Bytes16(h.sub1.AudioFormat) + Bytes16(h.sub1.NumChannels)
    + Bytes32(h.sub1.SampleRate) + Bytes32(h.sub1.ByteRate)
    + Bytes16(h.sub1.BlockAlign) + Bytes16(h.sub1.BitsPerSample)
    + Bytes32(h.sub2.Subchunk2ID) + Bytes32(h.sub2.Subchunk2Size)
  }

  lemma LE32At(f: seq<u8>, off: nat, x: u32)
    requires off + 4 <= |f| && f[off..off + 4] == Bytes32(x)
    ensures LE32(f, off) == x
  {
    assert f[off] == Bytes32(x)[0] && f[off + 1] == Bytes32(x)[1];
    assert f[off + 2] == Bytes32(x)[2] && f[off + 3] == Bytes32(x)[3];
  }

  lemma LE16At(f: seq<u8>, off: nat, x: u16)
    requires off + 2 <= |f| && f[off..off + 2] == Bytes16(x)
    ensures LE16(f, off) == x
  {
    assert f[off] == Bytes16(x)[0] && f[off + 1] == Bytes16(x)[1];
  }

  /** A header written without a `fmt ` extension reads back unchanged,
      whatever follows it. */
  lemma ParseSerialize(h: Header, rest: seq<u8>)
    requires h.sub1.Subchunk1Size <= 16
    ensures HeaderInFile(Serialize(h) + rest)
    ensures DataStart(Serialize(h) + rest) == HeaderBytes
    ensures ParseHeader(Serialize(h) + rest) == h
  {
    var f := Serialize(h) + rest;
    LE32At(f, 0, h.riff.ChunkID);
    LE32At(f, 4, h.riff.ChunkSize);
    LE32At(f, 8, h.riff.Format);
    LE32At(f, 12, h.sub1.Subchunk1ID);
    LE32At(f, 16, h.sub1.Subchunk1Size);
    LE16At(f, 20, h.sub1.AudioFormat);
    LE16At(f, 22, h.sub1.NumChannels);
    LE32At(f, 24, h.sub1.SampleRate);
    LE32At(f, 28, h.sub1.ByteRate);
    LE16At(f, 32, h.sub1.BlockAlign);
    LE16At(f, 34, h.sub1.BitsPerSample);
    LE32At(f, 36, h.sub2.Subchunk2ID);
    LE32At(f, 40, h.sub2.Subchunk2Size);
  }

  // ---------------------------------------------------------------------
  // The acceptance checks of Open

  const MsgNotFound: string := "File not found / corrupted"
  const MsgTooSmall: string := "File too small to be a valid wav file"
  const MsgTruncated: string := "File smaller than header suggests"
  const MsgBitDepth: string := "Unsupported bit depth"
  const MsgChannels: string := "Only mono and stereo files supported"
  const MsgMagic: string := "Magic number invalid"
  /** Rejection of a zero `BlockAlign`, which the reader as written lacks. */
  const MsgBlockAlign: string := "Invalid block alignment"

  /** Files shorter than this are refused before the header is read. */
  const MinFileSize: nat := 45

  predicate SupportedDepth(bits: int)
  {
    bits == 8 || bits == 16 || bits == 24 || bits == 32
  }

  predicate MagicOk(h: Header)
  {
    h.riff.ChunkID == RiffId && h.riff.Format == WaveId
    && h.sub1.Subchunk1ID == FmtId && h.sub2.Subchunk2ID == DataId
  }

  /** The channel-count warning `Open` leaves in `errorMessage` on success. */
  function ChannelWarning(h: Header): string
  {
    if h.sub1.NumChannels == 1 || h.sub1.NumChannels == 2 then "" else MsgChannels
  }

  /** `totalSamples = Subchunk2Size / BlockAlign`: the number of whole
      frames in the data chunk. */
  function FrameCount(size: u32, align: u16): (n: u32)
    requires align > 0
    ensures n * align <= size < (n + 1) * align
  {
    var q := size / align;
    assert q * align + size % align == size;
    MulMono(1, align, q);
    q
  }

  /** What `Open` reports: the header it read and the number of sample frames,
      with the channel warning (or ""), or the message of the failed check. */
  datatype OpenResult =
    | Opened(hdr: Header, totalSamples: u32, message: string)
    | Failed(message: string)

  /** The checks of `Open`, in the order the reader makes them, with the data
      chunk compared against the file size without 32-bit wrap-around and a
      zero `BlockAlign` refused instead of divided by. */
  function OpenCheck(file: Option<seq<u8>>): (r: OpenResult)
    ensures r.Opened? <==>
      file.Some? && MinFileSize <= |file.value| && HeaderInFile(file.value)
      && DataStart(file.value) + ParseHeader(file.value).sub2.Subchunk2Size <= |file.value|
      && SupportedDepth(ParseHeader(file.value).sub1.BitsPerSample)
      && MagicOk(ParseHeader(file.value))
      && ParseHeader(file.value).sub1.BlockAlign > 0
    ensures r.Opened? ==>
      r.hdr == ParseHeader(file.value)
      && r.totalSamples == FrameCount(r.hdr.sub2.Subchunk2Size, r.hdr.sub1.BlockAlign)
      && r.message == ChannelWarning(r.hdr)
  {
    if file.None? then Failed(MsgNotFound)
    else
      var f := file.value;
      if |f| < MinFileSize then Failed(MsgTooSmall)
      // the `data` chunk header itself lies past the end of the file
      else if !HeaderInFile(f) then Failed(MsgTruncated)
      else
        var h := ParseHeader(f);
        if |f| < DataStart(f) + h.sub2.Subchunk2Size then Failed(MsgTruncated)
        else if !SupportedDepth(h.sub1.BitsPerSample) then Failed(MsgBitDepth)
        else if !MagicOk(h) then Failed(MsgMagic)
        else if h.sub1.BlockAlign == 0 then Failed(MsgBlockAlign)
        else Opened(h, FrameCount(h.sub2.Subchunk2Size, h.sub1.BlockAlign), ChannelWarning(h))
  }

  /** Outcome of the checks exactly as written: `Open` either returns or
      divides by a zero `BlockAlign`. */
  datatype AsWritten = Returned(result: OpenResult) | DivisionByZero

  /** The checks as written: the file size is truncated to 32 bits, the end
      of the data chunk is summed in 32-bit arithmetic, and `BlockAlign` is
      divided by unchecked.  Reading the header past the end of the file
      (the stream's fail state) is not modelled, hence the precondition. */
  function OpenCheckAsWritten(file: Option<seq<u8>>): (w: AsWritten)
    requires file.Some? && MinFileSize <= |file.value| ==> HeaderInFile(file.value)
    ensures w.DivisionByZero? || (w.Returned? && w.result.Opened?) ==>
      && file.Some? && MinFileSize <= |file.value| % U32Modulus
      && SupportedDepth(ParseHeader(file.value).sub1.BitsPerSample)
      && MagicOk(ParseHeader(file.value))
      && (w.DivisionByZero? <==> ParseHeader(file.value).sub1.BlockAlign == 0)
    ensures w.Returned? && w.result.Opened? ==>
      w.result.hdr == ParseHeader(file.value)
      && w.result.totalSamples == FrameCount(w.result.hdr.sub2.Subchunk2Size, w.result.hdr.sub1.BlockAlign)
  {
    if file.None? then Returned(Failed(MsgNotFound))
    else
      var f := file.value;
      var fileSize := |f| % U32Modulus;
      if fileSize < MinFileSize then Returned(Failed(MsgTooSmall))
      else
        var h := ParseHeader(f);
        if fileSize < AddU32(DataStart(f) % U32Modulus, h.sub2.Subchunk2Size) then
          Returned(Failed(MsgTruncated))
        else if !SupportedDepth(h.sub1.BitsPerSample) then Returned(Failed(MsgBitDepth))
        else if !MagicOk(h) then Returned(Failed(MsgMagic))
        else if h.sub1.BlockAlign == 0 then DivisionByZero
        else Returned(Opened(h, FrameCount(h.sub2.Subchunk2Size, h.sub1.BlockAlign), ChannelWarning(h)))
  }

  /** Below 4 GiB, with a data chunk whose end does not pass 2^32 and a
      non-zero block alignment, the checks as written decide as the
      corrected ones do. */
  lemma AsWrittenAgrees(file: Option<seq<u8>>)
    requires file.Some? ==> |file.value| < U32Modulus
    requires file.Some? && MinFileSize <= |file.value| ==>
      HeaderInFile(file.value)
      && DataStart(file.value) + ParseHeader(file.value).sub2.Subchunk2Size < U32Modulus
      && ParseHeader(file.value).sub1.BlockAlign > 0
    ensures OpenCheckAsWritten(file) == Returned(OpenCheck(file))
  {
    if file.Some? {
      var f := file.value;
      assert |f| % U32Modulus == |f|;
      if MinFileSize <= |f| {
        var h := ParseHeader(f);
        assert DataStart(f) % U32Modulus == DataStart(f);
        assert AddU32(DataStart(f), h.sub2.Subchunk2Size) == DataStart(f) + h.sub2.Subchunk2Size;
      }
    }
  }

  /** A header the reader accepts: no `fmt ` extension, a supported depth,
      the four chunk ids, a non-zero block alignment. */
  function CanonicalHeader(sizeOfData: u32, channels: u16, bits: u16, blockAlign: u16): (h: Header)
  {
    Header(HdrRiff(RiffId, 36 + sizeOfData % 0x1_0000, WaveId),
           HdrSub1(FmtId, 16, 1, channels, 44100, 44100 * blockAlign, blockAlign, bits),
           HdrSub2(DataId, sizeOfData))
  }

  /** A well-formed file — a header without `fmt ` extension followed by at
      least one byte and by all the data it announces — opens with exactly
      that header and Subchunk2Size / BlockAlign frames. */
  lemma OpenWellFormed(h: Header, data: seq<u8>)
    requires h.sub1.Subchunk1Size <= 16 && MagicOk(h)
    requires SupportedDepth(h.sub1.BitsPerSample) && h.sub1.BlockAlign > 0
    requires |data| >= 1 && |data| >= h.sub2.Subchunk2Size
    ensures OpenCheck(Some(Serialize(h) + data))
            == Opened(h, FrameCount(h.sub2.Subchunk2Size, h.sub1.BlockAlign), ChannelWarning(h))
  {
    ParseSerialize(h, data);
  }

  /** An empty but otherwise valid 44-byte file is refused as too small. */
  lemma OpenRefusesHeaderOnly(h: Header)
    ensures OpenCheck(Some(Serialize(h))) == Failed(MsgTooSmall)
  {
  }

  /** As written, a data chunk announcing 0xFFFFFFF0 bytes in a 100-byte file
      passes the size check: 44 + 0xFFFFFFF0 wraps to 28.  The corrected
      check refuses it. */
  lemma WrappedDataSizeAccepted()
    ensures var f := Serialize(CanonicalHeader(0xFFFF_FFF0, 2, 16, 4)) + seq(56, _ => 0);
            && |f| == 100
            && OpenCheckAsWritten(Some(f)).Returned?
            && OpenCheckAsWritten(Some(f)).result.Opened?
            && OpenCheckAsWritten(Some(f)).result.totalSamples == 0x3FFF_FFFC
            && OpenCheck(Some(f)) == Failed(MsgTruncated)
  {
    var h := CanonicalHeader(0xFFFF_FFF0, 2, 16, 4);
    var f := Serialize(h) + seq(56, _ => 0);
    ParseSerialize(h, seq(56, _ => 0));
    assert AddU32(44, 0xFFFF_FFF0) == 28;
  }

  /** As written, a header with `BlockAlign` 0 passes every check and then
      divides by zero; the corrected check refuses it. */
  lemma ZeroBlockAlignDivides()
    ensures var f := Serialize(CanonicalHeader(8, 2, 16, 0)) + seq(8, _ => 0);
            && OpenCheckAsWritten(Some(f)) == DivisionByZero
            && OpenCheck(Some(f)) == Failed(MsgBlockAlign)
  {
    var h := CanonicalHeader(8, 2, 16, 0);
    var f := Serialize(h) + seq(8, _ => 0);
    ParseSerialize(h, seq(8, _ => 0));
    assert |f| % U32Modulus == 52 && DataStart(f) % U32Modulus == 44;
    assert AddU32(44, 8) == 52;
  }

  // ---------------------------------------------------------------------
  // Samples

  /** The element types of `ReadBlock8`, `ReadBlock16`, `ReadBlock24` and
      `ReadBlock32f`: unsigned bytes, 16-bit and 24-bit two's complement, and
      32-bit float words (kept as their bit pattern). */
  datatype SampleFormat = U8 | S16 | S24 | F32

  /** Bytes one sample occupies in the interleaved stream. */
  function Width(fmt: SampleFormat): nat
  {
    match fmt
    case U8 => 1
    case S16 => 2
    case S24 => 3
    case F32 => 4
  }

  /** Bytes the decoder loads for one sample: `ReadBlock24` loads a whole
      32-bit word and masks off its top byte. */
  function Reach(fmt: SampleFormat): nat
  {
    if fmt == S24 then 4 else Width(fmt)
  }

  /** Spare bytes at the end of the read buffer (`len*numCh*3 + 4` for 24-bit). */
  function Slack(fmt: SampleFormat): nat
  {
    if fmt == S24 then 4 else 0
  }

  /** The reader `ReadBlock` dispatches to for a `BitsPerSample` value. */
  function FormatOf(bits: int): (fmt: Option<SampleFormat>)
    ensures fmt.Some? <==> SupportedDepth(bits)
    ensures fmt.Some? ==> 8 * Width(fmt.value) == bits
  {
    if bits == 8 then Some(U8)
    else if bits == 16 then Some(S16)
    else if bits == 24 then Some(S24)
    else if bits == 32 then Some(F32)
    else None
  }

  /** An `int16_t` read from two little-endian bytes. */
  function DecodeS16(lo: u8, hi: u8): (v: int)
    ensures -0x8000 <= v < 0x8000
    ensures v % 0x1_0000 == lo + 0x100 * hi
    ensures v < 0 <==> hi >= 0x80
  {
    var word := lo + 0x100 * hi;
    if word >= 0x8000 then word - 0x1_0000 else word
  }

  /** The 24-bit decode of `ReadBlock24`: load a little-endian 32-bit word,
      mask it to 24 bits, and when bit 23 is set negate the 24-bit two's
      complement (`~smp & 0xFFFFFF`, plus one).  The result is the signed
      value of the three low bytes; the fourth byte is ignored. */
  function Decode24(b0: u8, b1: u8, b2: u8, b3: u8): (v: int)
    ensures -0x80_0000 <= v < 0x80_0000
    ensures v % 0x100_0000 == b0 + 0x100 * b1 + 0x1_0000 * b2
    ensures v < 0 <==> b2 >= 0x80
  {
    var low := b0 + 0x100 * b1 + 0x1_0000 * b2;
    var word := low + 0x100_0000 * b3;
    DivModUnique(word, 0x100_0000, b3, low);
    var smp := word % 0x100_0000;
    if smp >= 0x80_0000 then
      DivModUnique(0xFFFF_FFFF - smp, 0x100_0000, 0xFF, 0xFF_FFFF - smp);
      var magnitude := (0xFFFF_FFFF - smp) % 0x100_0000 + 1;
      -magnitude
    else
      smp
  }

  /** The value of the bytes of one sample. */
  function SampleValue(fmt: SampleFormat, b: seq<u8>): int
    requires |b| == Width(fmt)
  {
    match fmt
    case U8 => b[0]
    case S16 => DecodeS16(b[0], b[1])
    case S24 => Decode24(b[0], b[1], b[2], 0)
    case F32 => LE32(b, 0)
  }

  /** Element k of the read buffer viewed as an array of the sample type. */
  function SampleAt(fmt: SampleFormat, buf: seq<u8>, k: nat): int
    requires Width(fmt) * k + Reach(fmt) <= |buf|
  {
    match fmt
    case U8 => buf[k]
    case S16 => DecodeS16(buf[2 * k], buf[2 * k + 1])
    case S24 => Decode24(buf[3 * k], buf[3 * k + 1], buf[3 * k + 2], buf[3 * k + 3])
    case F32 => LE32(buf, 4 * k)
  }

  /** A value of 24-bit range is determined by its residue modulo 2^24. */
  lemma Signed24Unique(v: int, u: int)
    requires -0x80_0000 <= v < 0x80_0000 && -0x80_0000 <= u < 0x80_0000
    requires v % 0x100_0000 == u % 0x100_0000
    ensures v == u
  {
    if v < 0 { DivModUnique(v, 0x100_0000, -1, v + 0x100_0000); }
    else { DivModUnique(v, 0x100_0000, 0, v); }
    if u < 0 { DivModUnique(u, 0x100_0000, -1, u + 0x100_0000); }
    else { DivModUnique(u, 0x100_0000, 0, u); }
  }

  /** Element k depends only on the Width bytes of sample k. */
  lemma SampleAtIsValue(fmt: SampleFormat, buf: seq<u8>, k: nat)
    requires Width(fmt) * k + Reach(fmt) <= |buf|
    ensures SampleAt(fmt, buf, k) == SampleValue(fmt, buf[Width(fmt) * k..Width(fmt) * k + Width(fmt)])
  {
    var b := buf[Width(fmt) * k..Width(fmt) * k + Width(fmt)];
    match fmt
    case U8 =>
    case S16 =>
    case S24 =>
      Signed24Unique(SampleAt(fmt, buf, k), Decode24(b[0], b[1], b[2], 0));
    case F32 =>
      assert b == buf[4 * k..4 * k + 4];
  }

  lemma SampleFits(fmt: SampleFormat, k: nat, n: nat)
    requires k < n
    ensures Width(fmt) * k + Reach(fmt) <= Width(fmt) * n + Slack(fmt)
  {
  }

  lemma WantFits(lenRead: nat, len: nat, numCh: nat, w: nat)
    requires lenRead <= len
    ensures lenRead * numCh * w <= len * numCh * w
  {
    MulMono(lenRead, len, numCh);
    MulMono(lenRead * numCh, len * numCh, w);
  }

  /** The read buffer after `inputFile.read`: the first `want` bytes of the
      stream, or all that remain, followed by zeros up to `size`. */
  function Fill(s: seq<u8>, want: nat, size: nat): (buf: seq<u8>)
    requires want <= size
    ensures |buf| == size
    ensures forall i :: 0 <= i < size ==> buf[i] == (if i < Min(want, |s|) then s[i] else 0)
  {
    s[..Min(want, |s|)] + seq(size - Min(want, |s|), _ => 0)
  }

  /** Bytes inside the part that was read are the stream's own. */
  lemma FillSlice(s: seq<u8>, want: nat, size: nat, a: nat, b: nat)
    requires want <= size && a <= b <= want && b <= |s|
    ensures Fill(s, want, size)[a..b] == s[a..b]
  {
    var buf := Fill(s, want, size);
    assert forall i :: a <= i < b ==> buf[i] == s[i];
  }

  /** The read buffer of a `ReadBlock*` call reading `lenRead` of `len`
      frames: `len*numCh` samples (plus the spare bytes), of which the first
      `lenRead*numCh` are read from the stream. */
  function ReadBuffer(fmt: SampleFormat, s: seq<u8>, numCh: nat, len: nat, lenRead: nat): (buf: seq<u8>)
    requires lenRead <= len
    ensures |buf| == Width(fmt) * (len * numCh) + Slack(fmt)
  {
    WantFits(lenRead, len, numCh, Width(fmt));
    Fill(s, lenRead * numCh * Width(fmt), len * numCh * Width(fmt) + Slack(fmt))
  }

  /** The read buffer viewed as `n` samples. */
  function Samples(fmt: SampleFormat, buf: seq<u8>, n: nat): (v: seq<int>)
    requires |buf| == Width(fmt) * n + Slack(fmt)
    ensures |v| == n
  {
    seq(n, k requires 0 <= k < n => SampleFits(fmt, k, n); SampleAt(fmt, buf, k))
  }

  /** The block a `ReadBlock*` call returns when it reads `lenRead` of `len`
      frames of `numCh` channels from stream `s`: channel c, sample j is
      element j*numCh+c of the zero-padded read buffer. */
  function BlockOf(fmt: SampleFormat, s: seq<u8>, numCh: nat, len: nat, lenRead: nat): (r: seq<seq<int>>)
    requires lenRead <= len
    ensures |r| == numCh
    ensures forall c :: 0 <= c < numCh ==> |r[c]| == len
  {
    Deinterleave(Samples(fmt, ReadBuffer(fmt, s, numCh, len, lenRead), len * numCh), numCh, len)
  }

  lemma BlockAt(fmt: SampleFormat, s: seq<u8>, numCh: nat, len: nat, lenRead: nat, c: nat, j: nat)
    requires lenRead <= len && c < numCh && j < len
    ensures 0 <= j * numCh + c < len * numCh
    ensures Width(fmt) * (j * numCh + c) + Reach(fmt) <= |ReadBuffer(fmt, s, numCh, len, lenRead)|
    ensures BlockOf(fmt, s, numCh, len, lenRead)[c][j]
            == SampleAt(fmt, ReadBuffer(fmt, s, numCh, len, lenRead), j * numCh + c)
  {
    var buf := ReadBuffer(fmt, s, numCh, len, lenRead);
    DeinterleaveAt(Samples(fmt, buf, len * numCh), numCh, len, c, j);
    SampleFits(fmt, j * numCh + c, len * numCh);
  }

  /** A sample that was read whole comes from the stream: channel c, sample
      j is the value of bytes Width*(j*numCh+c) onwards. */
  lemma BlockReadsStream(fmt: SampleFormat, s: seq<u8>, numCh: nat, len: nat, lenRead: nat, c: nat, j: nat)
    requires lenRead <= len && c < numCh && j < lenRead
    requires Width(fmt) * (j * numCh + c) + Width(fmt) <= |s|
    ensures BlockOf(fmt, s, numCh, len, lenRead)[c][j]
            == SampleValue(fmt, s[Width(fmt) * (j * numCh + c)..Width(fmt) * (j * numCh + c) + Width(fmt)])
  {
    var w, k := Width(fmt), j * numCh + c;
    var buf := ReadBuffer(fmt, s, numCh, len, lenRead);
    BlockAt(fmt, s, numCh, len, lenRead, c, j);
    SlotBound(j, c, lenRead, numCh);
    MulMono(k + 1, lenRead * numCh, w);
    WantFits(lenRead, len, numCh, w);
    FillSlice(s, lenRead * numCh * w, len * numCh * w + Slack(fmt), w * k, w * k + w);
    assert buf[w * k..w * k + w] == s[w * k..w * k + w];
    SampleAtIsValue(fmt, buf, k);
    assert SampleAt(fmt, buf, k) == SampleValue(fmt, s[w * k..w * k + w]);
  }

  /** Samples past the frames read, or past the end of the stream, are 0. */
  lemma BlockZeroPastEnd(fmt: SampleFormat, s: seq<u8>, numCh: nat, len: nat, lenRead: nat, c: nat, j: nat)
    requires lenRead <= len && c < numCh && j < len
    requires j >= lenRead || Width(fmt) * (j * numCh + c) >= |s|
    ensures BlockOf(fmt, s, numCh, len, lenRead)[c][j] == 0
  {
    var w, k := Width(fmt), j * numCh + c;
    var buf := ReadBuffer(fmt, s, numCh, len, lenRead);
    BlockAt(fmt, s, numCh, len, lenRead, c, j);
    if j >= lenRead {
      MulMono(lenRead, j, numCh);
      MulMono(lenRead * numCh, k, w);
    }
    assert w * k >= Min(lenRead * numCh * w, |s|);
    SampleAtIsValue(fmt, buf, k);
    var bytes := buf[w * k..w * k + w];
    assert forall i :: 0 <= i < w ==> bytes[i] == 0;
    match fmt
    case U8 =>
    case S16 =>
    case S24 =>
    case F32 =>
  }

  /** The block `ReadBlock` returns for a depth it has no reader for. */
  function ZeroBlock(numCh: nat, len: nat): (r: seq<seq<int>>)
    ensures |r| == numCh
    ensures forall c :: 0 <= c < numCh ==> r[c] == seq(len, _ => 0)
  {
    seq(numCh, _ => seq(len, _ => 0))
  }

  /** Frames one `ReadBlock*` call reads: a whole block, or what is left. */
  function FramesToRead(len: nat, pos: nat, total: nat): (n: nat)
    requires pos <= total
    ensures n <= len && pos + n <= total
    ensures n < len ==> pos + n == total
  {
    Min(len, total - pos)
  }

  /** Frames read into block b of a `Buffer` call that started at frame
      `pos0`: none once the stream is exhausted. */
  function FramesInBlock(pos0: nat, total: nat, len: nat, b: nat): (n: nat)
    ensures n <= len
  {
    if pos0 + b * len < total then FramesToRead(len, pos0 + b * len, total) else 0
  }

  /** Block b of a `Buffer` call that started at frame `pos0` with stream
      `s0`: each full block before it consumed `len*numCh*Width` bytes. */
  function BufferedBlock(fmt: SampleFormat, s0: seq<u8>, numCh: nat, len: nat,
                         pos0: nat, total: nat, b: nat): (r: seq<seq<int>>)
    ensures |r| == numCh
  {
    var consumed := Min(b * (len * numCh * Width(fmt)), |s0|);
    BlockOf(fmt, s0[consumed..], numCh, len, FramesInBlock(pos0, total, len, b))
  }

  /** The nested loops of the `ReadBlock*` functions: channel i, sample j of
      the block is element j*numCh+i of the read buffer. */
  method SplitChannels(fmt: SampleFormat, readBuf: seq<u8>, numCh: nat, len: nat)
    returns (r: seq<seq<int>>)
    requires |readBuf| == Width(fmt) * (len * numCh) + Slack(fmt)
    ensures r == Deinterleave(Samples(fmt, readBuf, len * numCh), numCh, len)
  {
    ghost var samples := Samples(fmt, readBuf, len * numCh);
    r := [];
    var i := 0;
    while i < numCh
      invariant 0 <= i <= numCh && |r| == i
      invariant forall c :: 0 <= c < i ==> r[c] == Deinterleave(samples, numCh, len)[c]
    {
      var channel: seq<int> := [];
      var j := 0;
      while j < len
        invariant 0 <= j <= len && |channel| == j
        invariant forall jj :: 0 <= jj < j ==> channel[jj] == Deinterleave(samples, numCh, len)[i][jj]
      {
        DeinterleaveAt(samples, numCh, len, i, j);
        SampleFits(fmt, j * numCh + i, len * numCh);
        channel := channel + [SampleAt(fmt, readBuf, j * numCh + i)];
        j := j + 1;
      }
      r := r + [channel];
      i := i + 1;
    }
  }

  /** Reading block i whole moves the frame position and the stream on by
      exactly one block. */
  lemma NextBlock(s0: seq<u8>, pos0: nat, i: nat, len: nat, bytes: nat)
    ensures pos0 + (i + 1) * len == pos0 + i * len + len
    ensures var rest := s0[Min(i * bytes, |s0|)..];
            rest[Min(bytes, |rest|)..] == s0[Min((i + 1) * bytes, |s0|)..]
  {
    assert (i + 1) * len == i * len + len;
    assert (i + 1) * bytes == i * bytes + bytes;
    DropTwice(s0, i * bytes, bytes);
  }

  /** Dropping a bytes and then b bytes drops a + b bytes. */
  lemma DropTwice(s: seq<u8>, a: nat, b: nat)
    ensures var rest := s[Min(a, |s|)..];
            rest[Min(b, |rest|)..] == s[Min(a + b, |s|)..]
  {
    var rest := s[Min(a, |s|)..];
    assert |rest| == |s| - Min(a, |s|);
  }

  /** `Appended(lists, block)`: block c pushed onto the end of list c. */
  function Appended(lists: seq<seq<seq<int>>>, block: seq<seq<int>>): (r: seq<seq<seq<int>>>)
    requires |block| == |lists|
    ensures |r| == |lists|
    ensures forall c :: 0 <= c < |r| ==> r[c] == lists[c] + [block[c]]
  {
    seq(|lists|, c requires 0 <= c < |lists| => lists[c] + [block[c]])
  }

  /** The state of `Buffer` after i blocks: the frame position moved on by
      i blocks (or reached the end), every block started before the end, the
      stream moved on by i blocks' bytes while data remained, and channel c
      holds the i blocks read. */
  ghost predicate BufferedSoFar(fmt: SampleFormat, s0: seq<u8>, numCh: nat, len: nat,
                                pos0: nat, total: nat, i: nat,
                                buffer: seq<seq<seq<int>>>, stream: seq<u8>, pos: nat)
  {
    && pos == Min(total, pos0 + i * len)
    && (i > 0 ==> pos0 + (i - 1) * len < total)
    && (pos < total ==> stream == s0[Min(i * (len * numCh * Width(fmt)), |s0|)..])
    && |buffer| == numCh
    && (forall c :: 0 <= c < numCh ==> |buffer[c]| == i)
    && (forall c, b :: 0 <= c < numCh && 0 <= b < i ==>
          buffer[c][b] == BufferedBlock(fmt, s0, numCh, len, pos0, total, b)[c])
  }

  /** One `ReadBlock` call with frames left: it read `block` and moved the
      position and the stream on. */
  ghost predicate ReadStep(fmt: SampleFormat, numCh: nat, len: nat, total: nat,
                           stream: seq<u8>, pos: nat, block: seq<seq<int>>, stream': seq<u8>, pos': nat)
  {
    && pos < total
    && pos' == pos + FramesToRead(len, pos, total)
    && stream' == stream[Min(FramesToRead(len, pos, total) * numCh * Width(fmt), |stream|)..]
    && block == BlockOf(fmt, stream, numCh, len, FramesToRead(len, pos, total))
  }

  /** One pass of `Buffer`'s loop keeps `BufferedSoFar`. */
  lemma BufferStep(fmt: SampleFormat, s0: seq<u8>, numCh: nat, len: nat, pos0: nat, total: nat, i: nat,
                   buffer: seq<seq<seq<int>>>, stream: seq<u8>, pos: nat,
                   block: seq<seq<int>>, buffer': seq<seq<seq<int>>>, stream': seq<u8>, pos': nat)
    requires BufferedSoFar(fmt, s0, numCh, len, pos0, total, i, buffer, stream, pos)
    requires ReadStep(fmt, numCh, len, total, stream, pos, block, stream', pos')
    requires |block| == |buffer| && buffer' == Appended(buffer, block)
    ensures BufferedSoFar(fmt, s0, numCh, len, pos0, total, i + 1, buffer', stream', pos')
  {
    var bytes := len * numCh * Width(fmt);
    var lenRead := FramesToRead(len, pos, total);
    assert pos == pos0 + i * len;
    NextBlock(s0, pos0, i, len, bytes);
    assert FramesInBlock(pos0, total, len, i) == lenRead;
    assert block == BufferedBlock(fmt, s0, numCh, len, pos0, total, i);
    if pos' < total {
      assert lenRead == len;
      assert lenRead * numCh * Width(fmt) == bytes;
    }
    forall c, b | 0 <= c < numCh && 0 <= b < i + 1
      ensures buffer'[c][b] == BufferedBlock(fmt, s0, numCh, len, pos0, total, b)[c]
    {
      if b < i {
        assert buffer'[c][b] == buffer[c][b];
      } else {
        assert buffer'[c][b] == block[c];
      }
    }
  }

  /** When `Buffer`'s loop stops after i blocks, either all `blockCount`
      blocks were read or the data ran out. */
  lemma BufferDone(fmt: SampleFormat, s0: seq<u8>, numCh: nat, len: nat, pos0: nat, total: nat,
                   i: nat, count: nat, buffer: seq<seq<seq<int>>>, stream: seq<u8>, pos: nat)
    requires BufferedSoFar(fmt, s0, numCh, len, pos0, total, i, buffer, stream, pos)
    requires i <= count && (i < count ==> pos >= total)
    ensures pos == Min(total, pos0 + i * len)
    ensures i < count ==> pos == total
    ensures i > 0 ==> pos0 + (i - 1) * len < total
  {
  }

  // ---------------------------------------------------------------------
  // The reader

  class WavReader {
    /** The bytes of the open file from the current read position on. */
    var stream: seq<u8>
    var hdr: Header
    var valid: bool
    var endOfStream: bool
    var samplePos: u32
    var totalSamples: u32
    var errorMessage: string
    /** buffer[c][b]: block b of channel c, as `Buffer` collected it. */
    var buffer: seq<seq<seq<int>>>

    /** The reading position never passes the end of the data, and a reader
        that opened a file has a depth it can decode and a non-zero frame
        size. */
    predicate Valid()
      reads this
    {
      samplePos <= totalSamples
      && (valid ==> SupportedDepth(hdr.sub1.BitsPerSample) && hdr.sub1.BlockAlign > 0)
    }

    function NumChannels(): nat
      reads this
    {
      hdr.sub1.NumChannels
    }

    constructor()
      ensures Valid() && !valid && !endOfStream
      ensures hdr == ZeroHeader && samplePos == 0 && totalSamples == 0 && errorMessage == ""
      ensures stream == [] && buffer == []
    {
      stream := [];
      buffer := [];
      hdr := ZeroHeader;
      valid := false;
      endOfStream := false;
      samplePos := 0;
      totalSamples := 0;
      errorMessage := "";
    }

    /** `Status::Clear`: zero header, no file, no position, no message. */
    method Clear()
      modifies this`hdr, this`valid, this`endOfStream, this`samplePos,
               this`totalSamples, this`errorMessage
      ensures Valid() && !valid && !endOfStream
      ensures hdr == ZeroHeader && samplePos == 0 && totalSamples == 0 && errorMessage == ""
    {
      hdr := ZeroHeader;
      valid := false;
      endOfStream := false;
      samplePos := 0;
      totalSamples := 0;
      errorMessage := "";
    }

    /** Opens `file` (None when it cannot be opened) and makes the checks of
        `OpenCheck` one after the other, leaving the message of the first
        that fails, or the channel warning, in `errorMessage`. */
    method Open(file: Option<seq<u8>>) returns (ok: bool)
      modifies this
      ensures Valid()
      ensures ok == OpenCheck(file).Opened? && valid == ok
      ensures errorMessage == OpenCheck(file).message
      ensures samplePos == 0 && !endOfStream && buffer == old(buffer)
      ensures ok ==> hdr == OpenCheck(file).hdr && totalSamples == OpenCheck(file).totalSamples
      ensures ok ==> stream == file.value[DataStart(file.value)..]
      ensures !ok ==> totalSamples == 0
    {
      Clear();
      if file.None? {
        errorMessage := MsgNotFound;
        return false;
      }
      var f := file.value;
      if |f| < MinFileSize {
        errorMessage := MsgTooSmall;
        return false;
      }
      if !HeaderInFile(f) {
        errorMessage := MsgTruncated;
        return false;
      }
      hdr := ParseHeader(f);
      stream := f[DataStart(f)..];
      if |f| < DataStart(f) + hdr.sub2.Subchunk2Size {
        errorMessage := MsgTruncated;
        return false;
      }
      if !SupportedDepth(hdr.sub1.BitsPerSample) {
        errorMessage := MsgBitDepth;
        return false;
      }
      if !(hdr.sub1.NumChannels == 1 || hdr.sub1.NumChannels == 2) {
        errorMessage := MsgChannels;
      }
      if !MagicOk(hdr) {
        errorMessage := MsgMagic;
        return false;
      }
      if hdr.sub1.BlockAlign == 0 {
        errorMessage := MsgBlockAlign;
        return false;
      }
      valid := true;
      totalSamples := FrameCount(hdr.sub2.Subchunk2Size, hdr.sub1.BlockAlign);
      ok := true;
    }

    /** `ReadBlock8`/`16`/`24`/`32f`: read min(len, totalSamples - samplePos)
        frames into a zeroed buffer of `len` frames, split it into channels,
        and advance `samplePos` by the frames read. */
    method ReadBlockOf(fmt: SampleFormat, len: nat) returns (r: seq<seq<int>>)
      requires Valid()
      modifies this`stream, this`samplePos
      ensures Valid()
      ensures samplePos == old(samplePos) + FramesToRead(len, old(samplePos), totalSamples)
      ensures stream == old(stream)[Min(FramesToRead(len, old(samplePos), totalSamples)
                                        * NumChannels() * Width(fmt), |old(stream)|)..]
      ensures r == BlockOf(fmt, old(stream), NumChannels(), len,
                           FramesToRead(len, old(samplePos), totalSamples))
    {
      var numCh: nat := hdr.sub1.NumChannels;
      var lenRead := FramesToRead(len, samplePos, totalSamples);
      var readBuf := ReadBuffer(fmt, stream, numCh, len, lenRead);
      stream := stream[Min(lenRead * numCh * Width(fmt), |stream|)..];
      r := SplitChannels(fmt, readBuf, numCh, len);
      samplePos := samplePos + lenRead;
    }

    /** `ReadBlock`: dispatch on `BitsPerSample`; an unsupported depth yields
        zero blocks and reads nothing.  (The conversion of the integer
        samples to floats is not modelled.) */
    method ReadBlock(len: nat) returns (r: seq<seq<int>>)
      requires Valid()
      modifies this`stream, this`samplePos
      ensures Valid()
      ensures FormatOf(hdr.sub1.BitsPerSample).None? ==>
        r == ZeroBlock(NumChannels(), len)
        && stream == old(stream) && samplePos == old(samplePos)
      ensures FormatOf(hdr.sub1.BitsPerSample).Some? ==>
        var fmt := FormatOf(hdr.sub1.BitsPerSample).value;
        var lenRead := FramesToRead(len, old(samplePos), totalSamples);
        && samplePos == old(samplePos) + lenRead
        && stream == old(stream)[Min(lenRead * NumChannels() * Width(fmt), |old(stream)|)..]
        && r == BlockOf(fmt, old(stream), NumChannels(), len, lenRead)
    {
      var fmt := FormatOf(hdr.sub1.BitsPerSample);
      if fmt.None? {
        r := ZeroBlock(hdr.sub1.NumChannels, len);
      } else {
        r := ReadBlockOf(fmt.value, len);
      }
    }

    /** `Buffer`: nothing when no file is open; otherwise reads up to
        `blockCount` blocks of `blockSize` frames, stopping at the end of the
        data, appends each channel's block to that channel's list, raises
        `endOfStream` once all frames are read, and returns the number of
        blocks buffered. */
    method Buffer(blockSize: nat, blockCount: nat) returns (n: nat)
      requires Valid()
      requires valid ==> hdr.sub1.NumChannels >= 1
      modifies this`stream, this`samplePos, this`buffer, this`endOfStream
      ensures Valid()
      ensures !valid ==> n == 0 && unchanged(this)
      ensures valid ==> n <= blockCount
      ensures valid ==> samplePos == Min(totalSamples, old(samplePos) + n * blockSize)
      ensures valid && n < blockCount ==> samplePos == totalSamples
      ensures valid && n > 0 ==> old(samplePos) + (n - 1) * blockSize < totalSamples
      ensures valid ==> (endOfStream <==> old(endOfStream) || samplePos == totalSamples)
      ensures valid ==> |buffer| == NumChannels()
                        && forall c :: 0 <= c < NumChannels() ==> |buffer[c]| == n
      ensures valid ==> forall c, b :: 0 <= c < NumChannels() && 0 <= b < n ==>
        buffer[c][b] == BufferedBlock(FormatOf(hdr.sub1.BitsPerSample).value, old(stream),
                                      NumChannels(), blockSize, old(samplePos), totalSamples, b)[c]
      ensures valid && samplePos < totalSamples ==>
        stream == old(stream)[Min(n * (blockSize * NumChannels() * Width(FormatOf(hdr.sub1.BitsPerSample).value)),
                                  |old(stream)|)..]
    {
      if !valid {
        return 0;
      }
      ghost var s0, pos0 := stream, samplePos;
      var fmt := FormatOf(hdr.sub1.BitsPerSample).value;
      var i := BufferBlocks(fmt, blockSize, blockCount);
      BufferDone(fmt, s0, NumChannels(), blockSize, pos0, totalSamples, i, blockCount,
                 buffer, stream, samplePos);
      if samplePos >= totalSamples {
        endOfStream := true;
      }
      n := |buffer[0]|;
      assert n == i;
    }

    /** The loop of `Buffer`: reads blocks while fewer than `blockCount`
        were read and frames remain. */
    method BufferBlocks(fmt: SampleFormat, blockSize: nat, blockCount: nat) returns (i: nat)
      requires Valid() && valid && NumChannels() >= 1
      requires fmt == FormatOf(hdr.sub1.BitsPerSample).value
      modifies this`stream, this`samplePos, this`buffer
      ensures Valid() && i <= blockCount && (i < blockCount ==> samplePos >= totalSamples)
      ensures BufferedSoFar(fmt, old(stream), NumChannels(), blockSize, old(samplePos),
                            totalSamples, i, buffer, stream, samplePos)
    {
      var numCh: nat := hdr.sub1.NumChannels;
      ghost var s0, pos0 := stream, samplePos;
      buffer := seq(numCh, _ => []);
      i := 0;
      while i < blockCount && samplePos < totalSamples
        invariant Valid() && 0 <= i <= blockCount
        invariant BufferedSoFar(fmt, s0, numCh, blockSize, pos0, totalSamples, i,
                                buffer, stream, samplePos)
      {
        BufferOneBlock(fmt, s0, pos0, blockSize, i);
        i := i + 1;
      }
    }

    /** One pass of `Buffer`'s loop: read a block and push it onto the
        channels' lists. */
    method BufferOneBlock(fmt: SampleFormat, ghost s0: seq<u8>, ghost pos0: nat, blockSize: nat, i: nat)
      requires Valid() && valid && samplePos < totalSamples
      requires fmt == FormatOf(hdr.sub1.BitsPerSample).value
      requires BufferedSoFar(fmt, s0, NumChannels(), blockSize, pos0, totalSamples, i,
                             buffer, stream, samplePos)
      modifies this`stream, this`samplePos, this`buffer
      ensures Valid()
      ensures BufferedSoFar(fmt, s0, NumChannels(), blockSize, pos0, totalSamples, i + 1,
                            buffer, stream, samplePos)
    {
      ghost var stream1, pos1, buffer1 := stream, samplePos, buffer;
      var block := ReadBlock(blockSize);
      assert ReadStep(fmt, NumChannels(), blockSize, totalSamples, stream1, pos1, block, stream, samplePos);
      AppendBlock(block);
      BufferStep(fmt, s0, NumChannels(), blockSize, pos0, totalSamples, i,
                 buffer1, stream1, pos1, block, buffer, stream, samplePos);
    }

    /** The push_back loop of `Buffer`: channel c's block goes to the end
        of channel c's list. */
    method AppendBlock(block: seq<seq<int>>)
      requires |block| == |buffer|
      modifies this`buffer
      ensures buffer == Appended(old(buffer), block)
    {
      var j := 0;
      while j < |block|
        invariant 0 <= j <= |block| && |buffer| == |block|
        invariant forall c :: 0 <= c < j ==> buffer[c] == old(buffer[c]) + [block[c]]
        invariant forall c :: j <= c < |block| ==> buffer[c] == old(buffer[c])
      {
        buffer := buffer[j := buffer[j] + [block[j]]];
        j := j + 1;
      }
    }

    /** `Close`: forget the file and clear the status. */
    method Close()
      modifies this`stream, this`hdr, this`valid, this`endOfStream, this`samplePos,
               this`totalSamples, this`errorMessage
      ensures Valid() && !valid && !endOfStream && stream == [] && hdr == ZeroHeader
      ensures samplePos == 0 && totalSamples == 0 && errorMessage == ""
    {
      stream := [];
      Clear();
    }
  }
}
