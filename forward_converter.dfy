/** The integer side of `ForwardConverter::Convert`: how many blocks a WAV
    file yields, how many are buffered per pass, how big each channel image
    is, which thread gets which block, and the half-frame history each
    block is pushed through before it is handed to a thread. */
module ForwardConverter {
  import opened Common
  import Converter
  import Wav
  import ScanlineCache

  // ---------------------------------------------------------------------
  // Sizes

  /** `blockCount`: blocks buffered per pass, an eighth of the file kept
      between 64 and 4096. */
  function BlockCount(totalBlocks: u32): (c: u32)
    ensures 64 <= c <= 4096
    ensures 512 <= totalBlocks < 32768 ==> c * 8 <= totalBlocks < c * 8 + 8
    ensures totalBlocks < 512 ==> c == 64
    ensures totalBlocks >= 32768 ==> c == 4096
  {
    Min(4096, Max(64, totalBlocks / 8))
  }

  /** `fileSizeBytes`: the pixel count `totalBlocks*(fftSize/2+1)` is
      formed in 32 bits, scaled to bytes and offset by the header in 64
      bits, and the sum is stored back into 32 bits. */
  function ChannelFileSize(totalBlocks: u32, fftSize: u32): (r: u32)
    ensures r == (totalBlocks * (fftSize / 2 + 1) * Converter.PixelBytes
                  + Converter.ImageFileHeaderBytes) % U32Modulus
  {
    var pixels := MulWrap(totalBlocks, fftSize / 2 + 1, U32Modulus);
    ModOfScaled(totalBlocks * (fftSize / 2 + 1), Converter.PixelBytes,
                Converter.ImageFileHeaderBytes, U32Modulus);
    (pixels * Converter.PixelBytes + Converter.ImageFileHeaderBytes) % U32Modulus
  }

  /** While the size fits in 32 bits, a channel image holds one row of
      fftSize/2+1 pixels per block after its header: read back with that
      row width, it has exactly `totalBlocks` rows. */
  lemma ChannelFileHoldsBlocks(totalBlocks: u32, fftSize: u32)
    requires totalBlocks * (fftSize / 2 + 1) * Converter.PixelBytes
             + Converter.ImageFileHeaderBytes < U32Modulus
    ensures ChannelFileSize(totalBlocks, fftSize)
            == Converter.ImageFileHeaderBytes + totalBlocks * (fftSize / 2 + 1) * Converter.PixelBytes
    ensures ScanlineCache.ImageHeight(ChannelFileSize(totalBlocks, fftSize),
                                      Converter.ImageFileHeaderBytes, fftSize / 2 + 1) == totalBlocks
  {
    var w := fftSize / 2 + 1;
    var pixels := totalBlocks * w;
    MulMono(0, pixels, Converter.PixelBytes);
    MulMono(pixels, pixels * Converter.PixelBytes, 1);
    assert MulWrap(totalBlocks, w, U32Modulus) == pixels;
    var size := ChannelFileSize(totalBlocks, fftSize);
    assert size - Converter.ImageFileHeaderBytes == pixels * ScanlineCache.PixelBytes;
    DivModUnique(size - Converter.ImageFileHeaderBytes, ScanlineCache.PixelBytes, pixels, 0);
    DivModUnique(pixels, w, totalBlocks, 0);
  }

  /** The header written in front of each channel image: a blank header
      carrying the settings and the input's WAV header. */
  function ChannelHeader(settings: Converter.ConverterSettings, wavHeader: Wav.Header)
    : (h: Converter.ImageFileHeader)
    ensures Converter.Recognised(h)
    ensures h.convSettingsUsed == settings && h.inputWavHeader == wavHeader
  {
    Converter.MakeBlankImageFileHeader().(convSettingsUsed := settings, inputWavHeader := wavHeader)
  }

  // ---------------------------------------------------------------------
  // Threads

  /** `threadsPerCh`: the threads are split evenly between the channels. */
  function ThreadsPerChannel(threads: u32, numCh: u32): (tpc: u32)
    requires numCh > 0
    ensures tpc * numCh <= threads < (tpc + 1) * numCh
  {
    var q := threads / numCh;
    assert q * numCh + threads % numCh == threads;
    q
  }

  /** `blockThread`: block j of a pass over channel i goes to thread
      `(j*threadsPerCh)/blockCount + i*threadsPerCh`, in 32-bit unsigned
      arithmetic. */
  function BlockThread(i: u32, j: u32, tpc: u32, blockCount: u32): (t: u32)
    requires blockCount > 0
    ensures t == (MulWrap(j, tpc, U32Modulus) / blockCount + i * tpc) % U32Modulus
  {
    var q := MulWrap(j, tpc, U32Modulus) / blockCount;
    ModOfScaled(i * tpc, 1, q, U32Modulus);
    AddU32(q, MulWrap(i, tpc, U32Modulus))
  }

  /** The products of `BlockThread` fit in 32 bits. */
  predicate NoWrap(i: nat, tpc: nat, blockCount: nat)
  {
    blockCount * tpc < U32Modulus && (i + 1) * tpc < U32Modulus
  }

  /** Without wrap-around, `BlockThread` is the plain expression. */
  lemma BlockThreadValue(i: u32, j: u32, tpc: u32, blockCount: u32)
    requires 0 < blockCount && j < blockCount && NoWrap(i, tpc, blockCount)
    ensures BlockThread(i, j, tpc, blockCount) == (j * tpc) / blockCount + i * tpc
    ensures (j * tpc) / blockCount < tpc || tpc == 0
  {
    MulMono(j, blockCount, tpc);
    MulMono(i, i + 1, tpc);
    if tpc > 0 {
      QuotientBelow(j, tpc, blockCount);
    }
    assert (j * tpc) / blockCount + i * tpc < U32Modulus;
  }

  /** (j*t)/c < t for j < c. */
  lemma QuotientBelow(j: nat, t: nat, c: nat)
    requires j < c && t > 0
    ensures (j * t) / c < t
  {
    var q := (j * t) / c;
    assert q * c + (j * t) % c == j * t;
    MulMono(j + 1, c, t);
    if q >= t {
      MulMono(t, q, c);
      assert false;
    }
  }

  /** The blocks of channel i stay within the i-th group of
      `threadsPerCh` threads. */
  lemma BlockThreadInGroup(i: u32, j: u32, tpc: u32, blockCount: u32)
    requires 0 < blockCount && j < blockCount && 0 < tpc && NoWrap(i, tpc, blockCount)
    ensures i * tpc <= BlockThread(i, j, tpc, blockCount) < (i + 1) * tpc
  {
    BlockThreadValue(i, j, tpc, blockCount);
  }

  /** Later blocks of a pass never go to an earlier thread. */
  lemma BlockThreadMonotone(i: u32, j1: u32, j2: u32, tpc: u32, blockCount: u32)
    requires 0 < blockCount && j1 <= j2 < blockCount && NoWrap(i, tpc, blockCount)
    ensures BlockThread(i, j1, tpc, blockCount) <= BlockThread(i, j2, tpc, blockCount)
  {
    BlockThreadValue(i, j1, tpc, blockCount);
    BlockThreadValue(i, j2, tpc, blockCount);
    MulMono(j1, j2, tpc);
    DivMonotone(j1 * tpc, j2 * tpc, blockCount);
  }

  /** The writer sends thread t's rows to `outFile[t/threadsPerCh]`: the
      image of the channel whose blocks the thread was given. */
  lemma WriterFindsChannel(i: u32, j: u32, tpc: u32, blockCount: u32)
    requires 0 < blockCount && j < blockCount && 0 < tpc && NoWrap(i, tpc, blockCount)
    ensures BlockThread(i, j, tpc, blockCount) / tpc == i
  {
    BlockThreadValue(i, j, tpc, blockCount);
    DivModUnique(BlockThread(i, j, tpc, blockCount), tpc, i, (j * tpc) / blockCount);
  }

  /** Every channel's group of threads exists: with `numCh` channels the
      groups end at `numCh*threadsPerCh`, which is at most the number of
      threads. */
  lemma GroupsFit(threads: u32, numCh: u32, i: nat)
    requires 0 < numCh && i < numCh
    ensures (i + 1) * ThreadsPerChannel(threads, numCh) <= threads
  {
    var tpc := ThreadsPerChannel(threads, numCh);
    MulMono(i + 1, numCh, tpc);
  }

  // ---------------------------------------------------------------------
  // The half-frame history

  /** `inputBuf[i].shift(fftSize/2)` followed by the `memcpy` of the new
      block into the upper half: the newest half frame moves down and the new
      block follows it.  For an odd length the last sample is taken as zero;
      the byte count of the copy is then half a sample too long, so the
      source stores a value partly read from past the block's end there. */
  function Pushed(history: seq<real>, block: seq<real>): (r: seq<real>)
    requires |block| == |history| / 2
    ensures |r| == |history|
  {
    var half := |history| / 2;
    history[half..2 * half] + block + seq(|history| - 2 * half, _ => 0.0)
  }

  /** After two pushes the history holds exactly the two blocks, so every
      frame a thread transforms is two consecutive half frames. */
  lemma PushedTwice(history: seq<real>, b1: seq<real>, b2: seq<real>)
    requires |b1| == |b2| == |history| / 2
    ensures Pushed(Pushed(history, b1), b2)
            == b1 + b2 + seq(|history| - 2 * (|history| / 2), _ => 0.0)
  {
    var half := |history| / 2;
    var once := Pushed(history, b1);
    assert once[half..2 * half] == b1;
  }

  /** The frame handed on after a sequence of pushes. */
  function History(history: seq<real>, blocks: seq<seq<real>>): (r: seq<real>)
    requires forall k :: 0 <= k < |blocks| ==> |blocks[k]| == |history| / 2
    ensures |r| == |history|
  {
    if |blocks| == 0 then history
    else Pushed(History(history, blocks[..|blocks| - 1]), blocks[|blocks| - 1])
  }

  /** Once two blocks have been pushed, the frame depends only on the last
      two blocks, not on the initial zeros or anything earlier. */
  lemma {:induction false} HistoryIsLastTwo(history: seq<real>, blocks: seq<seq<real>>)
    requires |blocks| >= 2
    requires forall k :: 0 <= k < |blocks| ==> |blocks[k]| == |history| / 2
    ensures History(history, blocks)
            == blocks[|blocks| - 2] + blocks[|blocks| - 1]
               + seq(|history| - 2 * (|history| / 2), _ => 0.0)
  {
    var n := |blocks|;
    var before := History(history, blocks[..n - 2]);
    assert blocks[..n - 1][..n - 2] == blocks[..n - 2];
    assert History(history, blocks[..n - 1]) == Pushed(before, blocks[n - 2]);
    PushedTwice(before, blocks[n - 2], blocks[n - 1]);
  }

  /** Pushes one block into a channel's history buffer in place: the shift
      loop moves every sample down by half a frame (zero-filling the top),
      then the copy loop stores the block in the upper half.  (An fftSize
      below 2 has already divided by zero in the block count.) */
  method PushBlock(buf: array<real>, block: seq<real>)
    requires buf.Length >= 2 && |block| == buf.Length / 2
    modifies buf
    ensures buf[..] == Pushed(old(buf[..]), block)
  {
    ghost var prev := buf[..];
    var n := buf.Length;
    var half := n / 2;
    var i := 0;
    while i < n
      invariant 0 <= i <= n
      invariant forall k :: 0 <= k < i ==> buf[k] == (if k + half < n then prev[k + half] else 0.0)
      invariant forall k :: i <= k < n ==> buf[k] == prev[k]
    {
      buf[i] := if i + half < n then buf[i + half] else 0.0;
      i := i + 1;
    }
    i := 0;
    while i < half
      invariant 0 <= i <= half
      invariant forall k :: 0 <= k < half ==> buf[k] == prev[k + half]
      invariant forall k :: half <= k < half + i ==> buf[k] == block[k - half]
      invariant forall k :: half + i <= k < n ==> buf[k] == (if k + half < n then prev[k + half] else 0.0)
    {
      buf[half + i] := block[i];
      i := i + 1;
    }
    forall k | 0 <= k < n
      ensures buf[k] == Pushed(prev, block)[k]
    {
      if k < half {
        assert Pushed(prev, block)[k] == prev[half..2 * half][k];
      } else if k < 2 * half {
        assert Pushed(prev, block)[k] == block[k - half];
      } else {
        assert k + half >= n;
      }
    }
    assert buf[..] == Pushed(prev, block);
  }
}
