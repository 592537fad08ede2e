/** Integer widths, small arithmetic facts and the interleaved sample layout
    shared by the WAV reader and the two converters. */
module Common {

  /** The C++ fixed-width unsigned types, as ranges of unbounded integers. */
  type u8 = x: int | 0 <= x < 0x100
  type u16 = x: int | 0 <= x < 0x1_0000
  type u32 = x: int | 0 <= x < 0x1_0000_0000

  datatype Option<T> = None | Some(value: T)

  const U32Modulus: int := 0x1_0000_0000
  const U16Modulus: int := 0x1_0000

  function Min(a: int, b: int): int { if a < b then a else b }
  function Max(a: int, b: int): int { if a < b then b else a }

  /** `(a + b)` evaluated in 32-bit unsigned arithmetic. */
  function AddU32(a: u32, b: u32): (r: u32)
    ensures r == a + b || r == a + b - U32Modulus
  {
    (a + b) % U32Modulus
  }

  /** `(a * b)` evaluated in 32-bit (or 16-bit) unsigned arithmetic. */
  function MulWrap(a: nat, b: nat, modulus: nat): (r: nat)
    requires modulus > 0
    ensures r < modulus
    ensures a * b < modulus ==> r == a * b
  {
    (a * b) % modulus
  }

  lemma MulMono(a: int, b: int, n: int)
    requires a <= b && n >= 0
    ensures a * n <= b * n
  {
    assert b * n - a * n == (b - a) * n;
  }

  /** Euclidean division is determined by quotient and remainder. */
  lemma DivModUnique(k: int, n: int, q: int, r: int)
    requires n > 0 && 0 <= r < n && k == q * n + r
    ensures k / n == q && k % n == r
  {
    var q', r' := k / n, k % n;
    assert k == q' * n + r';
    assert (q - q') * n == r' - r;
    if q' < q { MulMono(1, q - q', n); }
    else if q < q' { MulMono(1, q' - q, n); }
  }

  /** x / d is the number of whole d's in x. */
  lemma QuotientBounds(x: nat, d: nat)
    requires d > 0
    ensures (x / d) * d <= x < (x / d + 1) * d
  {
    assert x == (x / d) * d + x % d;
  }

  /** Reducing a term modulo m before scaling and offsetting it does not
      change the result modulo m. */
  lemma ModOfScaled(a: nat, k: nat, c: nat, m: nat)
    requires m > 0
    ensures ((a % m) * k + c) % m == (a * k + c) % m
  {
    var x := (a % m) * k + c;
    assert a * k == (a % m) * k + (a / m * k) * m by {
      assert a == (a / m) * m + a % m;
    }
    DivModUnique(a * k + c, m, x / m + a / m * k, x % m);
  }

  /** Division by a positive number is monotone. */
  lemma DivMonotone(a: nat, b: nat, c: nat)
    requires a <= b && c > 0
    ensures a / c <= b / c
  {
    var qa, qb := a / c, b / c;
    assert qa * c + a % c == a;
    assert qb * c + b % c == b;
    if qa > qb {
      MulMono(qb + 1, qa, c);
      assert false;
    }
  }

  /** Position `j * numCh + c` of frame j, channel c lies inside `len` frames. */
  lemma SlotBound(j: int, c: int, len: int, numCh: int)
    requires 0 <= j < len && 0 <= c < numCh
    ensures 0 <= j * numCh + c < len * numCh
  {
    MulMono(0, j, numCh);
    MulMono(j + 1, len, numCh);
  }

  lemma SlotOf(k: int, numCh: int, len: int)
    requires numCh > 0 && 0 <= k < len * numCh
    ensures 0 <= k / numCh < len && 0 <= k % numCh < numCh
    ensures (k / numCh) * numCh + k % numCh == k
  {
    if k / numCh >= len {
      MulMono(len, k / numCh, numCh);
    }
  }

  /** Channel c of an interleaved stream: sample j of channel c is element
      `j * numCh + c`. */
  function Deinterleave<T>(data: seq<T>, numCh: nat, len: nat): (r: seq<seq<T>>)
    requires |data| >= len * numCh
    ensures |r| == numCh
    ensures forall c :: 0 <= c < numCh ==> |r[c]| == len
  {
    seq(numCh, c requires 0 <= c < numCh =>
      seq(len, j requires 0 <= j < len =>
        SlotBound(j, c, len, numCh); data[j * numCh + c]))
  }

  /** Interleaves `numCh` channels of `len` samples each, frame by frame. */
  function Interleave<T>(chs: seq<seq<T>>, numCh: nat, len: nat): (r: seq<T>)
    requires |chs| == numCh
    requires forall c :: 0 <= c < numCh ==> |chs[c]| == len
    ensures |r| == len * numCh
  {
    if numCh == 0 then []
    else
      seq(len * numCh, k requires 0 <= k < len * numCh =>
        SlotOf(k, numCh, len); chs[k % numCh][k / numCh])
  }

  lemma DeinterleaveAt<T>(data: seq<T>, numCh: nat, len: nat, c: nat, j: nat)
    requires |data| >= len * numCh && c < numCh && j < len
    ensures 0 <= j * numCh + c < |data|
    ensures Deinterleave(data, numCh, len)[c][j] == data[j * numCh + c]
  {
    SlotBound(j, c, len, numCh);
  }

  lemma InterleaveAt<T>(chs: seq<seq<T>>, numCh: nat, len: nat, c: nat, j: nat)
    requires |chs| == numCh
    requires forall c :: 0 <= c < numCh ==> |chs[c]| == len
    requires c < numCh && j < len
    ensures 0 <= j * numCh + c < len * numCh
    ensures Interleave(chs, numCh, len)[j * numCh + c] == chs[c][j]
  {
    SlotBound(j, c, len, numCh);
    DivModUnique(j * numCh + c, numCh, j, c);
  }

  /** Splitting an interleaved stream into channels and interleaving them
      again gives the stream back. */
  lemma InterleaveDeinterleave<T>(data: seq<T>, numCh: nat, len: nat)
    requires |data| == len * numCh
    ensures Interleave(Deinterleave(data, numCh, len), numCh, len) == data
  {
    var d := Deinterleave(data, numCh, len);
    var r := Interleave(d, numCh, len);
    if numCh > 0 {
      forall k | 0 <= k < |data| ensures r[k] == data[k] {
        SlotOf(k, numCh, len);
        DeinterleaveAt(data, numCh, len, k % numCh, k / numCh);
      }
    } else {
      assert len * numCh == 0;
    }
  }

  /** Interleaving channels and splitting the result gives the channels back. */
  lemma DeinterleaveInterleave<T>(chs: seq<seq<T>>, numCh: nat, len: nat)
    requires |chs| == numCh
    requires forall c :: 0 <= c < numCh ==> |chs[c]| == len
    ensures Deinterleave(Interleave(chs, numCh, len), numCh, len) == chs
  {
    var data := Interleave(chs, numCh, len);
    var d := Deinterleave(data, numCh, len);
    forall c | 0 <= c < numCh ensures d[c] == chs[c] {
      forall j | 0 <= j < len ensures d[c][j] == chs[c][j] {
        DeinterleaveAt(data, numCh, len, c, j);
        InterleaveAt(chs, numCh, len, c, j);
      }
    }
  }
}
