/** Definitions both converters share: the header in front of every
    channel image, the block arithmetic, the thread count, the chunked
    writer and the 7-smooth test. */
module Converter {
  import opened Common
  import Wav

  /** `ConverterSettings`; the two compander parameters are floats, held as
      reals. */
  datatype ConverterSettings = ConverterSettings(
    fftSize: u32, compandingMethod: u32, windowFunction: u32,
    companderParam0: real, companderParam1: real,
    horizontalTime: u8, forceOverwrite: u8, outputFloat32Audio: u8)

  /** `ImageFileHeader`, the header in front of each channel image. */
  datatype ImageFileHeader = ImageFileHeader(
    magicNumber: u32, headerVersion: u32, headerSize: u32,
    convSettingsUsed: ConverterSettings, inputWavHeader: Wav.Header)

  const ImageMagic: u32 := 0x4206_9AB6

  /** sizeof(ImageFileHeader): three words, 23 bytes of settings padded to
      24, and the 44-byte WAV header. */
  const ImageFileHeaderBytes: nat := 80

  /** sizeof(Pixel16): three 16-bit components. */
  const PixelBytes: nat := 6

  const ZeroSettings: ConverterSettings := ConverterSettings(0, 0, 0, 0.0, 0.0, 0, 0, 0)

  /** A header a reader can recognise as one of ours: magic number, version 1
      and its own size. */
  predicate Recognised(h: ImageFileHeader)
  {
    h.magicNumber == ImageMagic && h.headerVersion == 1 && h.headerSize == ImageFileHeaderBytes
  }

  /** `MakeBlankImageFileHeader`: all zero but the identification fields. */
  function MakeBlankImageFileHeader(): (h: ImageFileHeader)
    ensures Recognised(h)
    ensures h.convSettingsUsed == ZeroSettings && h.inputWavHeader == Wav.ZeroHeader
  {
    ImageFileHeader(ImageMagic, 1, ImageFileHeaderBytes as u32, ZeroSettings, Wav.ZeroHeader)
  }

  // ---------------------------------------------------------------------
  // Block arithmetic

  /** `(totalSamples + (fftSize/2 - 1)) / (fftSize/2)` in 32-bit unsigned
      arithmetic: the number of half-frame blocks, rounded up. An fftSize
      below 2 would divide by zero. */
  function TotalBlocks(totalSamples: u32, fftSize: u32): (r: u32)
    requires fftSize >= 2
    ensures r * (fftSize / 2) <= AddU32(totalSamples, fftSize / 2 - 1) < (r + 1) * (fftSize / 2)
  {
    var half := fftSize / 2;
    var sum := AddU32(totalSamples, half - 1);
    QuotientBounds(sum, half);
    sum / half
  }

  /** Unless the sum wraps, TotalBlocks is the number of half-frame blocks
      needed to cover the samples, the last one possibly partial. */
  lemma TotalBlocksCovers(totalSamples: u32, fftSize: u32)
    requires fftSize >= 2 && totalSamples + fftSize / 2 - 1 < U32Modulus
    ensures totalSamples <= TotalBlocks(totalSamples, fftSize) * (fftSize / 2) < totalSamples + fftSize / 2
  {
    assert AddU32(totalSamples, fftSize / 2 - 1) == totalSamples + fftSize / 2 - 1;
    CeilingDivision(totalSamples, fftSize / 2);
  }

  /** (t + h - 1) / h is the least number of h-sized blocks covering t. */
  lemma CeilingDivision(t: nat, h: nat)
    requires h > 0
    ensures t <= ((t + h - 1) / h) * h < t + h
  {
    var q, r := (t + h - 1) / h, (t + h - 1) % h;
    assert t + h - 1 == q * h + r;
  }

  /** Only one block count lies within one block of the sample count: the
      number of blocks the reader yields (each full but the last) is
      TotalBlocks. */
  lemma BlockCountUnique(t: nat, h: nat, n: nat, m: nat)
    requires h > 0
    requires t <= n * h < t + h && t <= m * h < t + h
    ensures n == m
  {
    if n < m {
      MulMono(n + 1, m, h);
    } else if m < n {
      MulMono(m + 1, n, h);
    }
  }

  /** The thread count both converters use: the logical processor count,
      doubled when odd (32-bit unsigned). */
  function NumThreads(hardwareConcurrency: u32): (n: u32)
    ensures n % 2 == 0
    ensures hardwareConcurrency % 2 == 0 ==> n == hardwareConcurrency
    ensures hardwareConcurrency < 0x8000_0000 ==> hardwareConcurrency <= n <= 2 * hardwareConcurrency
  {
    if hardwareConcurrency % 2 == 1 then (hardwareConcurrency * 2) % U32Modulus
    else hardwareConcurrency
  }

  // ---------------------------------------------------------------------
  // WriteInBlocks

  /** One `fwrite` call: the bytes written and where they come from. */
  datatype Write = Write(offset: nat, bytes: seq<u8>)

  /** Everything a list of writes puts into the file, in order. */
  function Flatten(ws: seq<Write>): (r: seq<u8>)
  {
    if |ws| == 0 then [] else Flatten(ws[..|ws| - 1]) + ws[|ws| - 1].bytes
  }

  /** `WriteInBlocks`: write `dataSize` bytes in chunks of at most
      `blockSize`. With blockSize 0 and data to write the source loops
      forever, so that case is excluded. */
  method WriteInBlocks(data: seq<u8>, blockSize: u32) returns (writes: seq<Write>)
    requires |data| < U32Modulus
    requires blockSize > 0 || |data| == 0
    ensures Flatten(writes) == data
    ensures forall k :: 0 <= k < |writes| ==>
              writes[k].offset == k * blockSize
              && |writes[k].bytes| == Min(blockSize, |data| - k * blockSize) > 0
              && writes[k].bytes == data[writes[k].offset..writes[k].offset + |writes[k].bytes|]
  {
    var bytesLeft: u32 := |data|;
    var bytesSaved: u32 := 0;
    writes := [];
    while bytesLeft > 0
      invariant bytesSaved + bytesLeft == |data|
      invariant Flatten(writes) == data[..bytesSaved]
      invariant bytesLeft > 0 ==> bytesSaved == |writes| * blockSize
      invariant forall k :: 0 <= k < |writes| ==>
                  writes[k].offset == k * blockSize
                  && |writes[k].bytes| == Min(blockSize, |data| - k * blockSize) > 0
                  && writes[k].bytes == data[writes[k].offset..writes[k].offset + |writes[k].bytes|]
      decreases bytesLeft
    {
      var bytesToSave: u32 := Min(blockSize, bytesLeft);
      var w := Write(bytesSaved, data[bytesSaved..bytesSaved + bytesToSave]);
      assert Flatten(writes + [w]) == Flatten(writes) + w.bytes;
      assert data[..bytesSaved] + w.bytes == data[..bytesSaved + bytesToSave];
      assert (|writes| + 1) * blockSize == |writes| * blockSize + blockSize;
      writes := writes + [w];
      bytesLeft := bytesLeft - bytesToSave;
      bytesSaved := bytesSaved + bytesToSave;
    }
  }

  // ---------------------------------------------------------------------
  // isNumber7smooth

  /** n is a product of 2s, 3s, 5s and 7s. */
  predicate Smooth7(n: nat)
    decreases n, 1
  {
    n == 1
    || (n > 1 && (SmoothVia(n, 2) || SmoothVia(n, 3) || SmoothVia(n, 5) || SmoothVia(n, 7)))
  }

  /** q divides n and leaves a 7-smooth quotient. */
  predicate SmoothVia(n: nat, q: nat)
    requires n > 1 && q >= 2
    decreases n, 0
  {
    n % q == 0 && Smooth7(n / q)
  }

  predicate SmallPrime(p: int)
  {
    p == 2 || p == 3 || p == 5 || p == 7
  }

  /** (q m) mod p depends on m only through m mod p. */
  lemma MulMod(q: nat, m: nat, p: nat)
    requires p > 0
    ensures (q * m) % p == (q * (m % p)) % p
  {
    var t, r := m / p, m % p;
    var u, v := (q * r) / p, (q * r) % p;
    assert q * r == u * p + v;
    assert q * m == q * (t * p + r);
    assert q * (t * p + r) == (q * t) * p + q * r;
    DivModUnique(q * m, p, q * t + u, v);
  }

  /** A small prime that divides q m, for another small prime q, divides m. */
  lemma SmallPrimeDividesFactor(p: int, q: int, m: int)
    requires SmallPrime(p) && SmallPrime(q) && p != q && m >= 0
    requires (q * m) % p == 0
    ensures m % p == 0
  {
    MulMod(q, m, p);
    var r := m % p;
    assert 0 <= r < p && (q * r) % p == 0;
    if p == 2 {
      assert r == 0 || r == 1;
    } else if p == 3 {
      assert r == 0 || r == 1 || r == 2;
    } else if p == 5 {
      assert r == 0 || r == 1 || r == 2 || r == 3 || r == 4;
    } else {
      assert r == 0 || r == 1 || r == 2 || r == 3 || r == 4 || r == 5 || r == 6;
    }
  }

  /** Two different small primes dividing n: each divides what the other
      leaves, and dividing by both in either order gives the same. */
  lemma SwapQuotients(n: nat, p: int, q: int)
    requires SmallPrime(p) && SmallPrime(q) && p != q && n > 0 && n % p == 0 && n % q == 0
    ensures (n / p) % q == 0 && (n / p) / q == (n / q) / p && (n / q) % p == 0
  {
    var m := n / q;
    assert n == q * m;
    SmallPrimeDividesFactor(p, q, m);
    var t := m / p;
    assert m == p * t;
    assert n == p * (q * t) == q * (p * t);
    DivModUnique(n, p, q * t, 0);
    DivModUnique(q * t, q, t, 0);
  }

  /** Dividing out a small prime factor keeps a number 7-smooth, and a
      7-smooth quotient means a 7-smooth number. */
  lemma {:induction false} SmoothDivide(n: nat, p: int)
    requires SmallPrime(p) && n > 0 && n % p == 0
    ensures Smooth7(n) <==> Smooth7(n / p)
    decreases n
  {
    assert n > 1 && n / p > 0;
    if Smooth7(n) {
      var q: int := if SmoothVia(n, 2) then 2 else if SmoothVia(n, 3) then 3
                    else if SmoothVia(n, 5) then 5 else 7;
      assert SmoothVia(n, q);
      if q != p {
        SwapQuotients(n, p, q);
        SmoothDivide(n / q, p);
        assert n / p >= q;
        assert SmoothVia(n / p, q);
      }
    }
    if Smooth7(n / p) {
      assert SmoothVia(n, p);
    }
  }

  /** Dividing n by p keeps it coprime to a small prime q it was coprime to. */
  lemma QuotientCoprime(n: nat, p: int, q: int)
    requires SmallPrime(p) && SmallPrime(q) && n % p == 0 && n % q != 0
    ensures (n / p) % q != 0
  {
    var m := n / p;
    assert n == p * m;
    if m % q == 0 {
      var t := m / q;
      DivModUnique(n, q, p * t, 0);
    }
  }

  /** `ForwardConverter::isNumber7smooth`: divide out 2, 3, 5 and 7 in turn
      and see whether 1 is left. With n = 0 the source never leaves its
      first loop, so that case is excluded. */
  method IsNumber7Smooth(n0: u32) returns (smooth: bool)
    requires n0 > 0
    ensures smooth <==> Smooth7(n0)
  {
    var primes := [2, 3, 5, 7];
    var n: u32 := n0;
    for i := 0 to 4
      invariant n > 0
      invariant Smooth7(n) <==> Smooth7(n0)
      invariant forall k :: 0 <= k < i ==> n % primes[k] != 0
    {
      assert SmallPrime(primes[i]);
      while n % primes[i] == 0
        invariant n > 0
        invariant Smooth7(n) <==> Smooth7(n0)
        invariant forall k :: 0 <= k < i ==> n % primes[k] != 0
        decreases n
      {
        SmoothDivide(n, primes[i]);
        forall k | 0 <= k < i
          ensures (n / primes[i]) % primes[k] != 0
        {
          QuotientCoprime(n, primes[i], primes[k]);
        }
        n := n / primes[i];
      }
    }
    assert n % primes[0] != 0 && n % primes[1] != 0 && n % primes[2] != 0 && n % primes[3] != 0;
    SmoothWithoutSmallFactors(n);
    smooth := !(n > 1);
  }

  /** A number none of 2, 3, 5, 7 divides is 7-smooth only if it is 1. */
  lemma SmoothWithoutSmallFactors(n: nat)
    requires n > 0 && n % 2 != 0 && n % 3 != 0 && n % 5 != 0 && n % 7 != 0
    ensures Smooth7(n) <==> n == 1
  {
  }
}
