/** The integer side of `BackwardConverter::Convert`: the WAV header of the
    output is derived from the one stored in the channel images, the
    images' headers are checked against each other, and the reconstructed
    frames are interleaved and written until exactly the input's number of
    sample frames has been written. */
module BackwardConverter {
  import opened Common
  import Wav
  import Converter

  // ---------------------------------------------------------------------
  // Header fix-up

  /** The fix-up as written: `depthFactor = 32 / BitsPerSample` in integer
      division, then ByteRate, BlockAlign and Subchunk2Size are multiplied by
      it in their own widths. A zero BitsPerSample divides by zero. */
  function FixupHeaderAsWritten(h: Wav.Header): (r: Wav.Header)
    requires h.sub1.BitsPerSample != 0
    ensures r.riff == h.riff && r.sub1.BitsPerSample == 32 && r.sub1.Subchunk1Size == 16
    ensures r.sub1.NumChannels == h.sub1.NumChannels && r.sub1.SampleRate == h.sub1.SampleRate
    ensures r.sub1.AudioFormat == h.sub1.AudioFormat && r.sub1.Subchunk1ID == h.sub1.Subchunk1ID
    ensures r.sub1.BlockAlign == (h.sub1.BlockAlign * (32 / h.sub1.BitsPerSample)) % U16Modulus
    ensures r.sub1.ByteRate == (h.sub1.ByteRate * (32 / h.sub1.BitsPerSample)) % U32Modulus
    ensures r.sub2 == h.sub2.(Subchunk2Size := (h.sub2.Subchunk2Size * (32 / h.sub1.BitsPerSample)) % U32Modulus)
  {
    var depthFactor := 32 / h.sub1.BitsPerSample;
    h.(sub1 := h.sub1.(ByteRate := MulWrap(h.sub1.ByteRate, depthFactor, U32Modulus),
                       BlockAlign := MulWrap(h.sub1.BlockAlign, depthFactor, U16Modulus),
                       Subchunk1Size := 16,
                       BitsPerSample := 32),
       sub2 := h.sub2.(Subchunk2Size := MulWrap(h.sub2.Subchunk2Size, depthFactor, U32Modulus)))
  }

  /** A byte count scaled from `bits`-bit samples to 32-bit samples. */
  function Rescale(x: nat, bits: nat, modulus: nat): (r: nat)
    requires bits > 0 && modulus > 0
    ensures r < modulus
  {
    (x * 32 / bits) % modulus
  }

  /** The fix-up with the byte counts scaled by 32/BitsPerSample as a
      fraction, so that 24-bit input is scaled by 4/3, and the RIFF chunk
      size recomputed from the new data size. */
  function FixupHeader(h: Wav.Header): (r: Wav.Header)
    requires h.sub1.BitsPerSample != 0
    ensures r.sub1.BitsPerSample == 32 && r.sub1.Subchunk1Size == 16
    ensures r.riff.ChunkID == h.riff.ChunkID && r.riff.Format == h.riff.Format
    ensures r.riff.ChunkSize == AddU32(RiffRest, r.sub2.Subchunk2Size)
    ensures r.sub2.Subchunk2ID == h.sub2.Subchunk2ID
    ensures r.sub1.NumChannels == h.sub1.NumChannels && r.sub1.SampleRate == h.sub1.SampleRate
    ensures r.sub1.AudioFormat == h.sub1.AudioFormat && r.sub1.Subchunk1ID == h.sub1.Subchunk1ID
  {
    var bits := h.sub1.BitsPerSample;
    var size := Rescale(h.sub2.Subchunk2Size, bits, U32Modulus);
    h.(riff := h.riff.(ChunkSize := AddU32(RiffRest, size)),
       sub1 := h.sub1.(ByteRate := Rescale(h.sub1.ByteRate, bits, U32Modulus),
                       BlockAlign := Rescale(h.sub1.BlockAlign, bits, U16Modulus),
                       Subchunk1Size := 16,
                       BitsPerSample := 32),
       sub2 := h.sub2.(Subchunk2Size := size))
  }

  /** The bytes of a canonical file after the RIFF chunk size field and
      before the data: "WAVE", the 24-byte `fmt ` chunk and the `data` chunk
      header. */
  const RiffRest: u32 := 36

  /** A header that describes its samples consistently: frames of one
      `bits/8`-byte sample per channel, at `SampleRate` frames a second. */
  predicate Consistent(h: Wav.Header)
  {
    && Wav.SupportedDepth(h.sub1.BitsPerSample)
    && h.sub1.BlockAlign == h.sub1.NumChannels * (h.sub1.BitsPerSample / 8)
    && h.sub1.ByteRate == h.sub1.SampleRate * h.sub1.BlockAlign
  }

  /** The fixed-up header describes 32-bit samples of the same frames: four
      bytes per channel per frame, the byte rate to match, a RIFF size that
      counts the new data, and (when the data chunk holds whole frames) as
      many frames as before. */
  lemma FixupDescribesFloats(h: Wav.Header)
    requires Consistent(h) && h.sub1.NumChannels > 0
    requires h.sub1.ByteRate * 4 < U32Modulus && h.sub1.BlockAlign * 4 < U16Modulus
    requires h.sub2.Subchunk2Size * 4 < U32Modulus
    ensures var r := FixupHeader(h);
            && Consistent(r)
            && r.sub1.BlockAlign == 4 * h.sub1.NumChannels
            && r.sub2.Subchunk2Size == h.sub2.Subchunk2Size * 32 / h.sub1.BitsPerSample
            && (r.sub2.Subchunk2Size + RiffRest < U32Modulus ==>
                  r.riff.ChunkSize == r.sub2.Subchunk2Size + RiffRest)
            && (h.sub2.Subchunk2Size % h.sub1.BlockAlign == 0 ==>
                  r.sub2.Subchunk2Size % r.sub1.BlockAlign == 0
                  && Wav.FrameCount(r.sub2.Subchunk2Size, r.sub1.BlockAlign)
                     == Wav.FrameCount(h.sub2.Subchunk2Size, h.sub1.BlockAlign))
  {
    var bits := h.sub1.BitsPerSample;
    var n := h.sub1.NumChannels;
    var ba := h.sub1.BlockAlign;
    var size := h.sub2.Subchunk2Size;
    var w := SampleBytes(bits);
    ScaleFrames(n, w, ba, bits, h.sub1.SampleRate, h.sub1.ByteRate, size);
    RescaleExact(size, bits, U32Modulus);
    RescaleExact(ba, bits, U16Modulus);
    RescaleExact(h.sub1.ByteRate, bits, U32Modulus);
    var r := FixupHeader(h);
    if size % ba == 0 {
      FramesKept(size, ba, 4 * n, r.sub2.Subchunk2Size);
    }
  }

  /** The bytes of one sample at a supported depth. */
  lemma SampleBytes(bits: nat) returns (w: nat)
    requires Wav.SupportedDepth(bits)
    ensures 1 <= w <= 4 && bits == 8 * w
  {
    w := bits / 8;
  }

  /** Scaling from w-byte to 4-byte samples turns n-channel frames into
      4n-byte frames, with the byte rate to match, and a whole number of
      frames into the same number of the larger frames. */
  lemma ScaleFrames(n: nat, w: nat, ba: nat, bits: nat, rate: nat, byteRate: nat, size: nat)
    requires 1 <= w <= 4 && n > 0 && ba == n * w && bits == 8 * w && byteRate == rate * ba
    ensures ba * 32 / bits == 4 * n
    ensures byteRate * 32 / bits == rate * (4 * n)
    ensures size % ba == 0 ==> size * 32 / bits == (size / ba) * (4 * n)
  {
    DivModUnique(ba * 32, bits, 4 * n, 0);
    DivModUnique(byteRate * 32, bits, rate * (4 * n), 0);
    if size % ba == 0 {
      var f := size / ba;
      assert size == f * ba;
      DivModUnique(size * 32, bits, f * (4 * n), 0);
    }
  }

  /** Whole frames of one size, regrouped into frames of another, keep
      their number. */
  lemma FramesKept(size: nat, align: nat, align': nat, size': nat)
    requires align > 0 && align' > 0 && size % align == 0
    requires size' == (size / align) * align'
    ensures size' % align' == 0 && size' / align' == size / align
  {
    DivModUnique(size', align', size / align, 0);
  }

  /** A byte count whose quadruple fits is rescaled without wrap-around. */
  lemma RescaleExact(x: nat, bits: nat, modulus: nat)
    requires bits >= 8 && x * 4 < modulus
    ensures Rescale(x, bits, modulus) == x * 32 / bits
  {
    var y := x * 32 / bits;
    MulMono(32, 4 * bits, x);
    DivMonotone(x * 32, (x * 4) * bits, bits);
    DivModUnique((x * 4) * bits, bits, x * 4, 0);
    assert y <= x * 4;
    DivModUnique(y, modulus, 0, y);
  }

  /** For 8-, 16- and 32-bit input the integer factor 32/BitsPerSample is
      exact and the fix-up as written is the intended one, apart from the
      RIFF chunk size, which it leaves as it was. */
  lemma FixupAgreesOnExactDepths(h: Wav.Header)
    requires h.sub1.BitsPerSample in {8, 16, 32}
    ensures FixupHeaderAsWritten(h) == FixupHeader(h).(riff := h.riff)
  {
    var bits := h.sub1.BitsPerSample;
    var f := 32 / bits;
    assert f * bits == 32;
    forall x: nat
      ensures x * 32 / bits == x * f
    {
      assert x * 32 == (x * f) * bits;
      DivModUnique(x * 32, bits, x * f, 0);
    }
  }

  /** 24-bit stereo with 100 frames: as written, the factor 32/24 is 1, so
      the header claims 32-bit samples in 6-byte frames and 600 data bytes,
      while the converter writes 8-byte frames, 800 bytes in all. Scaling
      by 4/3 gives 8-byte frames and 800 bytes. */
  lemma TwentyFourBitFixup()
    ensures var h := Wav.CanonicalHeader(600, 2, 24, 6);
            && Consistent(h)
            && FixupHeaderAsWritten(h).sub1.BitsPerSample == 32
            && FixupHeaderAsWritten(h).sub1.BlockAlign == 6
            && FixupHeaderAsWritten(h).sub2.Subchunk2Size == 600
            && FixupHeader(h).sub1.BlockAlign == 8
            && FixupHeader(h).sub2.Subchunk2Size == 800
  {
    var h := Wav.CanonicalHeader(600, 2, 24, 6);
    assert 32 / 24 == 1;
    assert 600 * 32 / 24 == 800;
    assert 6 * 32 / 24 == 8;
  }

  /** 16-bit stereo with 150 frames: as written, the data size doubles to
      1200 bytes but the RIFF chunk size stays 636, the value for 600 bytes;
      the corrected fix-up gives 1236. */
  lemma StaleChunkSize()
    ensures var h := Wav.CanonicalHeader(600, 2, 16, 4);
            && Consistent(h)
            && FixupHeaderAsWritten(h).sub2.Subchunk2Size == 1200
            && FixupHeaderAsWritten(h).riff.ChunkSize == 636
            && FixupHeader(h).sub2.Subchunk2Size == 1200
            && FixupHeader(h).riff.ChunkSize == 1236
  {
    var h := Wav.CanonicalHeader(600, 2, 16, 4);
    assert 600 * 32 / 16 == 1200;
  }

  // ---------------------------------------------------------------------
  // Checks

  datatype Outcome = Accepted | HeaderMismatch | ChannelCountMismatch

  /** All channel images carry the same header. */
  predicate AllSame(hdrs: seq<Converter.ImageFileHeader>)
  {
    forall i, j :: 0 <= i < |hdrs| && 0 <= j < |hdrs| ==> hdrs[i] == hdrs[j]
  }

  /** The two checks after the fix-up: adjacent headers are compared in
      order, then the number of images against the channel count of the
      first header. */
  method CheckHeaders(hdrs: seq<Converter.ImageFileHeader>) returns (r: Outcome)
    requires |hdrs| >= 1
    ensures r == HeaderMismatch <==> !AllSame(hdrs)
    ensures r == ChannelCountMismatch <==>
              AllSame(hdrs) && |hdrs| != hdrs[0].inputWavHeader.sub1.NumChannels
    ensures r == Accepted <==>
              AllSame(hdrs) && |hdrs| == hdrs[0].inputWavHeader.sub1.NumChannels
  {
    var i := 0;
    while i < |hdrs| - 1
      invariant 0 <= i <= |hdrs| - 1
      invariant forall k :: 0 <= k <= i ==> hdrs[k] == hdrs[0]
    {
      if hdrs[i] != hdrs[i + 1] {
        return HeaderMismatch;
      }
      i := i + 1;
    }
    if |hdrs| != hdrs[0].inputWavHeader.sub1.NumChannels {
      return ChannelCountMismatch;
    }
    return Accepted;
  }

  // ---------------------------------------------------------------------
  // Interleaving

  /** The nested loops filling `audInterleaved`: sample j of channel ch
      goes to position j*numCh+ch of a zeroed buffer. */
  method InterleaveBlock(chans: seq<seq<real>>, numCh: nat, len: nat) returns (a: array<real>)
    requires |chans| == numCh && forall c :: 0 <= c < numCh ==> |chans[c]| == len
    ensures fresh(a) && a.Length == len * numCh && a[..] == Interleave(chans, numCh, len)
  {
    ghost var full := Interleave(chans, numCh, len);
    a := new real[len * numCh](_ => 0.0);
    var ch := 0;
    while ch < numCh
      invariant 0 <= ch <= numCh && a.Length == len * numCh
      invariant forall k :: 0 <= k < a.Length && k % numCh < ch ==> a[k] == full[k]
    {
      var j := 0;
      while j < len
        invariant 0 <= j <= len
        invariant forall k :: 0 <= k < a.Length && Filled(k, numCh, ch, j) ==> a[k] == full[k]
      {
        InterleaveAt(chans, numCh, len, ch, j);
        var pos := j * numCh + ch;
        DivModUnique(pos, numCh, j, ch);
        a[pos] := chans[ch][j];
        forall k | 0 <= k < a.Length && Filled(k, numCh, ch, j + 1)
          ensures a[k] == full[k]
        {
          SlotOf(k, numCh, len);
        }
        j := j + 1;
      }
      forall k | 0 <= k < a.Length && k % numCh < ch + 1
        ensures a[k] == full[k]
      {
        SlotOf(k, numCh, len);
      }
      ch := ch + 1;
    }
    assert a[..] == full;
  }

  /** Position k has been filled once channel ch has reached sample j. */
  predicate Filled(k: nat, numCh: nat, ch: nat, j: nat)
    requires numCh > 0
  {
    k % numCh < ch || (k % numCh == ch && k / numCh < j)
  }

  // ---------------------------------------------------------------------
  // Output accounting

  /** The reconstructed rows cover every odd row up to `totalBlocks`: row
      i holds, per channel, the fftSize samples `ProcessBlock` returns. */
  predicate RowsCover(rows: seq<seq<seq<real>>>, numCh: nat, fftSize: nat, totalBlocks: nat)
  {
    && |rows| > totalBlocks
    && forall i :: 0 <= i < |rows| ==>
         |rows[i]| == numCh && forall c :: 0 <= c < numCh ==> |rows[i][c]| == fftSize
  }

  /** Frame f of channel c in the output: sample f mod fftSize of the frame
      that row 2*(f/fftSize)+1 reconstructs. */
  function Sample(rows: seq<seq<seq<real>>>, numCh: nat, fftSize: nat, c: nat, f: nat): real
    requires fftSize > 0 && c < numCh
    requires RowsCover(rows, numCh, fftSize, 2 * (f / fftSize) + 1)
  {
    rows[2 * (f / fftSize) + 1][c][f % fftSize]
  }

  /** `(totalSamples*numCh*sizeof(float) + sizeof(wav::Header))` passed
      on as a 32-bit size. */
  function OutputFileSize(totalSamples: u32, numCh: u32): (r: u32)
    ensures r == (totalSamples * numCh * 4 + Wav.HeaderBytes) % U32Modulus
  {
    ModOfScaled(totalSamples * numCh, 4, Wav.HeaderBytes, U32Modulus);
    (MulWrap(totalSamples, numCh, U32Modulus) * 4 + Wav.HeaderBytes) % U32Modulus
  }

  /** While it fits in 32 bits, the output file is exactly the WAV header
      followed by the interleaved 4-byte samples the loop writes. */
  lemma OutputFileSizeMatches(totalSamples: u32, numCh: u32)
    requires totalSamples * numCh * 4 + Wav.HeaderBytes < U32Modulus
    ensures OutputFileSize(totalSamples, numCh) == Wav.HeaderBytes + 4 * (totalSamples * numCh)
  {
    MulMono(totalSamples * numCh, totalSamples * numCh * 4, 1);
  }

  /** Sample x sits at position k of the output: it is frame k/numCh of
      channel k mod numCh. */
  predicate Placed(rows: seq<seq<seq<real>>>, numCh: nat, fftSize: nat, k: nat, x: real)
  {
    && numCh >= 1 && fftSize >= 1
    && RowsCover(rows, numCh, fftSize, 2 * ((k / numCh) / fftSize) + 1)
    && x == Sample(rows, numCh, fftSize, k % numCh, k / numCh)
  }

  /** Every sample written so far is in its place. */
  predicate WrittenSoFar(rows: seq<seq<seq<real>>>, numCh: nat, fftSize: nat, out: seq<real>)
  {
    forall k :: 0 <= k < |out| ==> Placed(rows, numCh, fftSize, k, out[k])
  }

  /** The output loop: rows 1, 3, 5, ... up to totalBlocks each give one
      frame per channel; the frames are interleaved and
      `min(samplesToWrite, fftSize)` of them written. Every sample frame is
      written, in order, and `samplesToWrite` ends at zero, so the zero-pad
      loop after it is never entered. */
  method OutputLoop(rows: seq<seq<seq<real>>>, numCh: u32, fftSize: u32, totalSamples: u32,
                    totalBlocks: u32)
    returns (out: seq<real>, samplesToWrite: u32)
    requires fftSize >= 2 && numCh >= 1
    requires totalSamples + fftSize / 2 - 1 < U32Modulus
    requires totalBlocks == Converter.TotalBlocks(totalSamples, fftSize) < 0xFFFF_FFFF
    requires RowsCover(rows, numCh, fftSize, totalBlocks)
    ensures samplesToWrite == 0
    ensures |out| == totalSamples * numCh
    ensures WrittenSoFar(rows, numCh, fftSize, out)
  {
    Converter.TotalBlocksCovers(totalSamples, fftSize);
    samplesToWrite := totalSamples;
    out := [];
    var i: nat := 1;
    ghost var p: nat := 0;
    ghost var written: nat := 0;
    while i <= totalBlocks
      invariant i == 2 * p + 1
      invariant 2 * p <= totalBlocks + 1
      invariant written + samplesToWrite == totalSamples
      invariant written == Min(totalSamples, p * fftSize)
      invariant |out| == written * numCh
      invariant WrittenSoFar(rows, numCh, fftSize, out)
      decreases totalBlocks + 1 - i
    {
      var audInterleaved := InterleaveBlock(rows[i], numCh, fftSize);
      var writeSize := Min(samplesToWrite, fftSize);
      AppendChunk(rows, numCh, fftSize, p, written, writeSize, out);
      Progress(totalSamples, samplesToWrite, fftSize, p);
      var n := writeSize * numCh;
      out := out + audInterleaved[..n];
      samplesToWrite := samplesToWrite - writeSize;
      written := written + writeSize;
      i := i + 2;
      p := p + 1;
    }
    AllFramesWritten(p, totalBlocks, fftSize, totalSamples);
  }

  /** Appending the first writeSize interleaved frames of row 2p+1 keeps
      every written sample in its place. */
  lemma AppendChunk(rows: seq<seq<seq<real>>>, numCh: nat, fftSize: nat, p: nat,
                    written: nat, writeSize: nat, out: seq<real>)
    requires numCh >= 1 && fftSize >= 1
    requires writeSize <= fftSize && (writeSize > 0 ==> written == p * fftSize)
    requires RowsCover(rows, numCh, fftSize, 2 * p + 1)
    requires |out| == written * numCh && WrittenSoFar(rows, numCh, fftSize, out)
    ensures writeSize * numCh <= fftSize * numCh
    ensures var out' := out + Interleave(rows[2 * p + 1], numCh, fftSize)[..writeSize * numCh];
            |out'| == (written + writeSize) * numCh && WrittenSoFar(rows, numCh, fftSize, out')
  {
    MulMono(writeSize, fftSize, numCh);
    var block := Interleave(rows[2 * p + 1], numCh, fftSize);
    var out' := out + block[..writeSize * numCh];
    forall k | 0 <= k < |out'|
      ensures Placed(rows, numCh, fftSize, k, out'[k])
    {
      if k >= |out| {
        ChunkSample(rows, numCh, fftSize, p, written, k - |out|);
      }
    }
  }

  /** Sample m of the row-(2p+1) block, written after `written` frames, is
      output frame written + m/numCh of channel m mod numCh. */
  lemma ChunkSample(rows: seq<seq<seq<real>>>, numCh: nat, fftSize: nat, p: nat,
                    written: nat, m: nat)
    requires numCh >= 1 && fftSize >= 1 && m < fftSize * numCh
    requires written == p * fftSize
    requires RowsCover(rows, numCh, fftSize, 2 * p + 1)
    ensures Placed(rows, numCh, fftSize, written * numCh + m,
                   Interleave(rows[2 * p + 1], numCh, fftSize)[m])
  {
    SlotOf(m, numCh, fftSize);
    var c, j := m % numCh, m / numCh;
    InterleaveAt(rows[2 * p + 1], numCh, fftSize, c, j);
    var k := written * numCh + m;
    assert k == (written + j) * numCh + c;
    DivModUnique(k, numCh, written + j, c);
    DivModUnique(written + j, fftSize, p, j);
  }

  /** One pass advances the count of written frames by min(left, fftSize),
      keeping it at min(totalSamples, passes * fftSize). */
  lemma Progress(totalSamples: nat, left: nat, fftSize: nat, p: nat)
    requires left <= totalSamples && totalSamples - left == Min(totalSamples, p * fftSize)
    ensures Min(left, fftSize) > 0 ==> totalSamples - left == p * fftSize
    ensures totalSamples - left + Min(left, fftSize) == Min(totalSamples, (p + 1) * fftSize)
  {
  }

  /** When the loop stops, p passes of fftSize frames cover the samples. */
  lemma AllFramesWritten(p: nat, totalBlocks: nat, fftSize: nat, totalSamples: nat)
    requires fftSize >= 2 && 2 * p + 1 > totalBlocks
    requires totalSamples <= totalBlocks * (fftSize / 2)
    ensures totalSamples <= p * fftSize
  {
    var half := fftSize / 2;
    MulMono(totalBlocks, 2 * p, half);
    MulMono(2 * half, fftSize, p);
  }
}
