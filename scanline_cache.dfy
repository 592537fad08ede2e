/** The scanline cache `RawImgReader16`: a window of `bufferLines` rows of an
    on-disk image of 16-bit RGB pixels, moved by shifting rows in place and
    reading only the rows that the move exposes. */
module ScanlineCache {
  import opened Common

  datatype Pixel16 = Pixel16(r: u16, g: u16, b: u16)
  type Row = seq<Pixel16>

  /** Rows the cache holds while a file is open. */
  const BufferLines: nat := 256
  /** sizeof(Pixel16): three 16-bit fields. */
  const PixelBytes: nat := 6

  function ZeroRow(w: nat): (z: Row)
    ensures |z| == w
    ensures forall k :: 0 <= k < w ==> z[k] == Pixel16(0, 0, 0)
  {
    seq(w, _ => Pixel16(0, 0, 0))
  }

  ghost predicate RowsOfWidth(rows: seq<Row>, w: nat)
  {
    forall y :: 0 <= y < |rows| ==> |rows[y]| == w
  }

  /** What a cache of `lines` rows placed at file row `pos` must hold: file
      row pos+i where that row exists, an all-zero row elsewhere. */
  function Window(image: seq<Row>, pos: nat, lines: nat, w: nat): (win: seq<Row>)
    ensures |win| == lines
  {
    seq(lines, i requires 0 <= i < lines =>
      if pos + i < |image| then image[pos + i] else ZeroRow(w))
  }

  /** Row i takes old row i+n; rows whose source falls outside become zero. */
  function Shifted(rows: seq<Row>, n: int, w: nat): (r: seq<Row>)
    ensures |r| == |rows|
  {
    seq(|rows|, i requires 0 <= i < |rows| =>
      if 0 <= i + n < |rows| then rows[i + n] else ZeroRow(w))
  }

  lemma ShiftedAt(rows: seq<Row>, n: int, w: nat, i: nat)
    requires i < |rows|
    ensures Shifted(rows, n, w)[i] == if 0 <= i + n < |rows| then rows[i + n] else ZeroRow(w)
  {
  }

  /** `ShiftedFromParts` for a shift by -n, stated as the backward copy and
      the zeroing of the first n rows leave the rows. */
  lemma ShiftedBackFromParts(prev: seq<Row>, mid: seq<Row>, fin: seq<Row>, n: int, w: nat)
    requires |prev| == |mid| == |fin| && 0 <= n <= |fin|
    requires forall k :: n <= k < |mid| ==> mid[k] == prev[k - n]
    requires forall k :: 0 <= k < n ==> fin[k] == ZeroRow(w)
    requires forall k :: n <= k < |fin| ==> fin[k] == mid[k]
    ensures fin == Shifted(prev, -n, w)
  {
    forall k | 0 <= k < |fin|
      ensures fin[k] == Shifted(prev, -n, w)[k]
    {
      ShiftedAt(prev, -n, w, k);
    }
  }

  /** A shift in two passes: first the rows that move (into `mid`), then
      the rows left behind are zeroed (into `fin`). */
  lemma ShiftedFromParts(prev: seq<Row>, mid: seq<Row>, fin: seq<Row>, n: int, w: nat)
    requires |prev| == |mid| == |fin|
    requires forall k :: 0 <= k < |mid| && 0 <= k + n < |mid| ==> mid[k] == prev[k + n]
    requires forall k :: 0 <= k < |fin| && !(0 <= k + n < |fin|) ==> fin[k] == ZeroRow(w)
    requires forall k :: 0 <= k < |fin| && 0 <= k + n < |fin| ==> fin[k] == mid[k]
    ensures fin == Shifted(prev, n, w)
  {
    forall k | 0 <= k < |fin|
      ensures fin[k] == Shifted(prev, n, w)[k]
    {
      ShiftedAt(prev, n, w, k);
    }
  }

  /** Shifting a window by the distance between two positions lines it up
      with the window at the new position, except in the rows the move
      exposes. */
  lemma ShiftedWindow(image: seq<Row>, oldPos: nat, newPos: nat, lines: nat, w: nat, i: nat)
    requires i < lines && 0 <= i + (newPos - oldPos) < lines
    ensures Shifted(Window(image, oldPos, lines, w), newPos - oldPos, w)[i]
            == Window(image, newPos, lines, w)[i]
  {
  }

  /** Where `UpdateBufferPos(y)` places the window: y rounded down to a
      multiple of lines/2, then moved back by lines/4 when that stays
      non-negative. */
  function WindowStart(y: nat, lines: nat): (s: nat)
    requires lines >= 2
    ensures s <= y < s + lines / 2 + lines / 4
    ensures lines / 2 + lines / 4 < lines
    ensures s > 0 ==> lines / 4 <= y - s
  {
    var base := y - y % (lines / 2);
    if base >= lines / 4 then base - lines / 4 else base
  }

  /** Number of rows of the window at `newPos` that exist in a file of
      `height` rows and lie outside the window at `oldPos`. */
  function UncachedRows(oldPos: nat, newPos: nat, height: nat, lines: nat): nat
  {
    if newPos < oldPos then Max(0, Min(Min(oldPos, newPos + lines), height) - newPos)
    else Max(0, Min(newPos + lines, height) - Max(newPos, oldPos + lines))
  }

  /** Rows `SetBufferPos` reads from the file when it moves the window from
      `oldPos` to `newPos`: the exposed rows of an overlapping move, the
      whole window otherwise, never past the end of the file. */
  function ReadCount(oldPos: nat, newPos: nat, height: nat, lines: nat): nat
  {
    var newSecond := Min(newPos + lines, height);
    var maxReadLines := height - newPos;
    if newPos < oldPos && newSecond > oldPos then
      Max(0, Min(Min(maxReadLines, oldPos - newPos), height - newPos))
    else if oldPos < newPos && oldPos + lines > newPos then
      Max(0, Min(Min(maxReadLines, newPos - oldPos), height - (oldPos + lines)))
    else
      Max(0, Min(Min(maxReadLines, lines), height - newPos))
  }

  /** A move reads exactly the rows it exposes, and staying put reloads the
      whole window. */
  lemma ReadCountIsExposed(oldPos: nat, newPos: nat, height: nat, lines: nat)
    requires newPos <= height && oldPos <= height
    ensures newPos == oldPos ==> ReadCount(oldPos, newPos, height, lines) == Min(height - newPos, lines)
    ensures newPos != oldPos ==>
      ReadCount(oldPos, newPos, height, lines) == ExposedCount(oldPos, newPos, height, lines, lines)
  {
    UncachedRowsAreExposed(oldPos, newPos, height, lines);
  }

  /** File row r belongs to the window at `newPos`, exists in a file of
      `height` rows, and was not in the window at `oldPos`. */
  predicate Exposed(oldPos: nat, newPos: nat, height: nat, lines: nat, r: nat)
  {
    newPos <= r < newPos + lines && r < height && !(oldPos <= r < oldPos + lines)
  }

  /** How many of the first k rows of the window at `newPos` are exposed. */
  function ExposedCount(oldPos: nat, newPos: nat, height: nat, lines: nat, k: nat): nat
  {
    if k == 0 then 0
    else ExposedCount(oldPos, newPos, height, lines, k - 1)
         + (if Exposed(oldPos, newPos, height, lines, newPos + k - 1) then 1 else 0)
  }

  lemma {:induction false} ExposedInterval(oldPos: nat, newPos: nat, height: nat, lines: nat, a: int, b: int, k: nat)
    requires k <= lines && newPos <= a
    requires forall r: nat :: newPos <= r < newPos + lines ==>
      (Exposed(oldPos, newPos, height, lines, r) <==> a <= r < b)
    ensures ExposedCount(oldPos, newPos, height, lines, k) == Max(0, Min(b, newPos + k) - a)
  {
    if k > 0 {
      ExposedInterval(oldPos, newPos, height, lines, a, b, k - 1);
    }
  }

  /** UncachedRows counts exactly the exposed rows of a move. */
  lemma UncachedRowsAreExposed(oldPos: nat, newPos: nat, height: nat, lines: nat)
    ensures ExposedCount(oldPos, newPos, height, lines, lines) == UncachedRows(oldPos, newPos, height, lines)
  {
    if newPos < oldPos {
      ExposedInterval(oldPos, newPos, height, lines, newPos, Min(Min(oldPos, newPos + lines), height), lines);
    } else {
      ExposedInterval(oldPos, newPos, height, lines,
        Max(newPos, oldPos + lines), Min(newPos + lines, height), lines);
    }
  }

  /** The file behind a reader: missing, or `size` bytes whose first bytes
      (the header, or all of a file shorter than it) are `prefix` and whose
      rows after the header are `rows`. */
  datatype RawFile = Missing | Present(size: nat, prefix: seq<u8>, rows: seq<Row>)

  /** The rows `Open` counts in a file: whole pixels after the header, in
      whole scanlines. */
  function ImageHeight(size: nat, headerSize: nat, scanlineSize: nat): (h: nat)
    requires scanlineSize > 0 && size >= headerSize
    ensures h * (scanlineSize * PixelBytes) <= size - headerSize < (h + 1) * (scanlineSize * PixelBytes)
  {
    var pixels := (size - headerSize) / PixelBytes;
    var h := pixels / scanlineSize;
    WholeRowsFit(size - headerSize, pixels, h, scanlineSize);
    h
  }

  /** h = (bytes / 6) / w is the number of whole rows of w pixels in bytes. */
  lemma WholeRowsFit(bytes: nat, pixels: nat, h: nat, w: nat)
    requires w > 0 && pixels == bytes / PixelBytes && h == pixels / w
    ensures h * (w * PixelBytes) <= bytes < (h + 1) * (w * PixelBytes)
  {
    assert h * w <= pixels < (h + 1) * w;
    assert pixels * PixelBytes <= bytes < (pixels + 1) * PixelBytes;
    MulMono(h * w, pixels, PixelBytes);
    MulMono(pixels + 1, (h + 1) * w, PixelBytes);
    assert h * (w * PixelBytes) == (h * w) * PixelBytes;
    assert (h + 1) * (w * PixelBytes) == ((h + 1) * w) * PixelBytes;
  }

  /** A present file of whole rows of width w after a header of hs bytes,
      whose prefix is its first min(size, hs) bytes. */
  ghost predicate WholeRows(file: RawFile, w: nat, hs: nat)
    requires w > 0
  {
    && (file.Present? ==> |file.prefix| == Min(file.size, hs))
    && (file.Present? && file.size >= hs ==>
          && |file.rows| == ImageHeight(file.size, hs, w)
          && RowsOfWidth(file.rows, w))
  }

  class RawImgReader16 {
    /** Rows of the open file after its header; the stream reads from here. */
    var image: seq<Row>
    var buffer: array<Row>
    var bufferLines: nat
    var bufferPos: nat
    var scanlineSize: nat
    var headerSize: nat
    var imageHeight: nat

    predicate IsOpen()
      reads this
    {
      bufferLines != 0
    }

    /** Sizes and bounds of an open reader. */
    ghost predicate Shape()
      reads this, buffer
    {
      && buffer.Length == bufferLines
      && bufferLines == BufferLines
      && scanlineSize > 0
      && imageHeight == |image|
      && bufferPos <= imageHeight
      && RowsOfWidth(image, scanlineSize)
    }

    /** The cache invariant: cached row i is file row bufferPos+i if that
        row exists, else all zeros. */
    ghost predicate Cached()
      reads this, buffer
    {
      buffer[..] == Window(image, bufferPos, bufferLines, scanlineSize)
    }

    ghost predicate Valid()
      reads this, buffer
    {
      && buffer.Length == bufferLines
      && (IsOpen() ==> Shape() && Cached())
    }

    constructor ()
      ensures Valid() && !IsOpen()
    {
      image := [];
      buffer := new Row[0];
      bufferLines := 0;
      bufferPos := 0;
      scanlineSize := 0;
      headerSize := 0;
      imageHeight := 0;
    }

    function GetImageHeight(): nat
      reads this
    {
      imageHeight
    }

    /** Copies cached row `src` over cached row `dst`. */
    method CopyBufferLine(dst: nat, src: nat)
      requires dst < buffer.Length && src < buffer.Length
      modifies buffer
      ensures buffer[dst] == old(buffer[src])
      ensures forall k :: 0 <= k < buffer.Length && k != dst ==> buffer[k] == old(buffer[k])
    {
      if dst == src {
        return;
      }
      buffer[dst] := buffer[src];
    }

    /** Moves every row by `numLines` places towards the front (forwards for
        a negative count) and zeroes the rows left behind. */
    method ShiftBuffer(numLines: int)
      requires buffer.Length == bufferLines
      requires -(bufferLines as int) < numLines < bufferLines
      modifies buffer
      ensures buffer[..] == Shifted(old(buffer[..]), numLines, scanlineSize)
    {
      if numLines > 0 {
        ShiftTowardsFront(numLines);
      } else if numLines < 0 {
        ShiftTowardsBack(-numLines);
      } else {
        assert buffer[..] == Shifted(buffer[..], 0, scanlineSize);
      }
    }

    /** `ShiftBuffer` by a positive count n. */
    method ShiftTowardsFront(n: int)
      requires buffer.Length == bufferLines
      requires 0 < n < bufferLines
      modifies buffer
      ensures buffer[..] == Shifted(old(buffer[..]), n, scanlineSize)
    {
      ghost var prev := buffer[..];
      var lines := bufferLines as int;
      CopyRowsTowardsFront(n);
      ghost var mid := buffer[..];
      ZeroRows(lines - n, lines);
      ShiftedFromParts(prev, mid, buffer[..], n, scanlineSize);
    }

    /** `ShiftBuffer` by a negative count -n. */
    method ShiftTowardsBack(n: int)
      requires buffer.Length == bufferLines
      requires 0 < n < bufferLines
      modifies buffer
      ensures buffer[..] == Shifted(old(buffer[..]), -n, scanlineSize)
    {
      ghost var prev := buffer[..];
      CopyRowsTowardsBack(n);
      ghost var mid := buffer[..];
      ZeroRows(0, n);
      ShiftedBackFromParts(prev, mid, buffer[..], n, scanlineSize);
    }

    /** The first loop of `ShiftBuffer` for a positive count: row k takes
        row k + n, front to back. */
    method CopyRowsTowardsFront(n: int)
      requires buffer.Length == bufferLines
      requires 0 < n < bufferLines
      modifies buffer
      ensures forall k {:trigger buffer[k]} :: 0 <= k < buffer.Length - n ==> buffer[k] == old(buffer[k + n])
      ensures forall k {:trigger buffer[k]} :: buffer.Length - n <= k < buffer.Length ==> buffer[k] == old(buffer[k])
    {
      var lines := bufferLines as int;
      var i := 0;
      while i < lines - n
        invariant 0 <= i <= lines - n
        invariant forall k :: 0 <= k < i ==> buffer[k] == old(buffer[k + n])
        invariant forall k :: i <= k < lines ==> buffer[k] == old(buffer[k])
      {
        CopyBufferLine(i, i + n);
        i := i + 1;
      }
    }

    /** The first loop of `ShiftBuffer` for a negative count -n: row k takes
        row k - n, back to front. */
    method CopyRowsTowardsBack(n: int)
      requires buffer.Length == bufferLines
      requires 0 < n < bufferLines
      modifies buffer
      ensures forall k {:trigger buffer[k]} :: n <= k < buffer.Length ==> buffer[k] == old(buffer[k - n])
      ensures forall k {:trigger buffer[k]} :: 0 <= k < n ==> buffer[k] == old(buffer[k])
    {
      var lines := bufferLines as int;
      var i := lines - 1;
      while i >= n
        invariant n - 1 <= i <= lines - 1
        invariant forall k :: i < k < lines ==> buffer[k] == old(buffer[k - n])
        invariant forall k :: 0 <= k <= i ==> buffer[k] == old(buffer[k])
      {
        CopyBufferLine(i, i - n);
        i := i - 1;
      }
    }

    /** The second loop of `ShiftBuffer`: zeroes the rows `from` to `to`. */
    method ZeroRows(from: int, to: int)
      requires 0 <= from <= to <= buffer.Length
      modifies buffer
      ensures forall k {:trigger buffer[k]} :: from <= k < to ==> buffer[k] == ZeroRow(scanlineSize)
      ensures forall k {:trigger buffer[k]} :: 0 <= k < buffer.Length && !(from <= k < to) ==> buffer[k] == old(buffer[k])
    {
      var i := from;
      while i < to
        invariant from <= i <= to
        invariant forall k :: from <= k < i ==> buffer[k] == ZeroRow(scanlineSize)
        invariant forall k :: 0 <= k < buffer.Length && !(from <= k < i) ==> buffer[k] == old(buffer[k])
      {
        buffer[i] := ZeroRow(scanlineSize);
        i := i + 1;
      }
    }

    /** `seekg` to file row `fileRow`, then `read` `count` rows into the cache
        from row `bufRow` on; the read stops at the end of the file. */
    method ReadRows(fileRow: nat, bufRow: nat, count: nat) returns (ghost copied: nat)
      requires bufRow + count <= buffer.Length
      modifies buffer
      ensures copied == Max(0, Min(count, |image| - fileRow))
      ensures forall i :: 0 <= i < buffer.Length ==>
        buffer[i] == if bufRow <= i < bufRow + count && fileRow + (i - bufRow) < |image|
                     then image[fileRow + (i - bufRow)] else old(buffer[i])
    {
      var k := 0;
      while k < count && fileRow + k < |image|
        invariant 0 <= k <= count
        invariant k == 0 || fileRow + k <= |image|
        invariant forall i :: 0 <= i < buffer.Length ==>
          buffer[i] == if bufRow <= i < bufRow + k then image[fileRow + (i - bufRow)] else old(buffer[i])
      {
        buffer[bufRow + k] := image[fileRow + k];
        k := k + 1;
      }
      copied := k;
    }

    /** Moves the window to start at file row `startLine`. An overlapping
        move shifts the rows still wanted and reads only the exposed ones; an
        equal or disjoint move zeroes the cache and reloads it. */
    method SetBufferPos(startLine: nat) returns (ghost copied: nat)
      requires Shape()
      requires startLine <= imageHeight
      requires startLine != bufferPos ==> Cached()
      modifies this`bufferPos, buffer
      ensures Valid() && Shape() && IsOpen()
      ensures bufferPos == startLine
      ensures copied == if startLine == old(bufferPos) then Min(imageHeight - startLine, bufferLines)
                        else ExposedCount(old(bufferPos), startLine, imageHeight, bufferLines, bufferLines)
    {
      var lines := bufferLines as int;
      var oldFirst, oldSecond := bufferPos as int, (bufferPos + bufferLines) as int;
      var newFirst := startLine as int;
      var newSecond := Min(startLine + lines, imageHeight);
      bufferPos := startLine;
      if newFirst < oldFirst && newSecond > oldFirst {
        copied := MoveWindowBack(oldFirst, newFirst);
      } else if oldFirst < newFirst && oldSecond > newFirst {
        copied := MoveWindowForward(oldFirst, newFirst);
      } else {
        copied := ReloadWindow(newFirst);
      }
      ReadCountIsExposed(oldFirst, startLine, imageHeight, bufferLines);
    }

    /** The first case of `SetBufferPos`: the new window starts before the
        old one and overlaps it; shift towards the back, read the rows in
        front. */
    method MoveWindowBack(oldPos: nat, newPos: nat) returns (ghost copied: nat)
      requires buffer.Length == bufferLines && imageHeight == |image| && oldPos <= imageHeight
      requires newPos < oldPos < Min(newPos + bufferLines, imageHeight)
      requires buffer[..] == Window(image, oldPos, bufferLines, scanlineSize)
      modifies buffer
      ensures buffer[..] == Window(image, newPos, bufferLines, scanlineSize)
      ensures copied == ReadCount(oldPos, newPos, imageHeight, bufferLines)
    {
      var lines := bufferLines as int;
      var linesToRead := Min(imageHeight - newPos, oldPos - newPos);
      ShiftBuffer(newPos - oldPos);
      copied := ReadRows(newPos, 0, linesToRead);
      forall i | 0 <= i < lines
        ensures buffer[i] == Window(image, newPos, bufferLines, scanlineSize)[i]
      {
        if i >= oldPos - newPos {
          ShiftedWindow(image, oldPos, newPos, bufferLines, scanlineSize, i);
        }
      }
      assert buffer[..] == Window(image, newPos, bufferLines, scanlineSize);
    }

    /** The second case of `SetBufferPos`: the new window starts inside the
        old one; shift towards the front, read the rows behind. */
    method MoveWindowForward(oldPos: nat, newPos: nat) returns (ghost copied: nat)
      requires buffer.Length == bufferLines && imageHeight == |image| && newPos <= imageHeight
      requires oldPos < newPos < oldPos + bufferLines
      requires buffer[..] == Window(image, oldPos, bufferLines, scanlineSize)
      modifies buffer
      ensures buffer[..] == Window(image, newPos, bufferLines, scanlineSize)
      ensures copied == ReadCount(oldPos, newPos, imageHeight, bufferLines)
    {
      var lines := bufferLines as int;
      var oldSecond := oldPos + lines;
      var linesToRead := Min(imageHeight - newPos, newPos - oldPos);
      ShiftBuffer(newPos - oldPos);
      copied := ReadRows(oldSecond, oldSecond - newPos, linesToRead);
      forall i | 0 <= i < lines
        ensures buffer[i] == Window(image, newPos, bufferLines, scanlineSize)[i]
      {
        if i < oldSecond - newPos {
          ShiftedWindow(image, oldPos, newPos, bufferLines, scanlineSize, i);
        }
      }
      assert buffer[..] == Window(image, newPos, bufferLines, scanlineSize);
    }

    /** The last case of `SetBufferPos`: zero the whole cache, then read
        the window from the file. */
    method ReloadWindow(newPos: nat) returns (ghost copied: nat)
      requires buffer.Length == bufferLines && imageHeight == |image| && newPos <= imageHeight
      modifies buffer
      ensures buffer[..] == Window(image, newPos, bufferLines, scanlineSize)
      ensures copied == Min(imageHeight - newPos, bufferLines)
    {
      var lines := bufferLines as int;
      ZeroRows(0, lines);
      copied := ReadRows(newPos, 0, Min(imageHeight - newPos, lines));
      assert buffer[..] == Window(image, newPos, bufferLines, scanlineSize);
    }

    /** Keeps row `line` in the middle half of the window, moving the window
        only when its start changes. */
    method UpdateBufferPos(line: nat)
      requires Valid() && IsOpen()
      requires line <= imageHeight
      modifies this`bufferPos, buffer
      ensures Valid() && IsOpen()
      ensures bufferPos == WindowStart(line, bufferLines)
      ensures bufferPos <= line < bufferPos + bufferLines
      ensures old(bufferPos) == bufferPos ==> unchanged(buffer)
    {
      var newPos := line - line % (bufferLines / 2);
      if newPos >= bufferLines / 4 {
        newPos := newPos - bufferLines / 4;
      }
      if bufferPos != newPos {
        ghost var _ := SetBufferPos(newPos);
      }
    }

    /** Returns file row y, or an all-zero row when y lies outside the image. */
    method GetScanline(y: int) returns (out: Row)
      requires Valid() && IsOpen()
      modifies this`bufferPos, buffer
      ensures Valid() && IsOpen()
      ensures out == if 0 <= y < imageHeight then image[y] else ZeroRow(scanlineSize)
    {
      out := ZeroRow(scanlineSize);
      if y < 0 || y > imageHeight {
        return;
      }
      UpdateBufferPos(y);
      out := buffer[y - bufferPos];
    }

    /** `Close`: drops the cache and resets the geometry; `imageHeight` is
        left as it was. */
    method Close()
      modifies this
      ensures Valid() && !IsOpen()
      ensures image == [] && buffer.Length == 0 && bufferLines == 0
      ensures bufferPos == 0 && scanlineSize == 0 && headerSize == 0
      ensures imageHeight == old(imageHeight)
    {
      image := [];
      buffer := new Row[0];
      bufferLines := 0;
      bufferPos := 0;
      scanlineSize := 0;
      headerSize := 0;
    }

    /** Opens a file of rows `scanlineSize` pixels wide after a header of
        `headerSize` bytes, reads the header bytes into `header`, and fills
        the cache from row 0.  A file shorter than its header yields the
        bytes it holds and fails. */
    method Open(file: RawFile, scanlineSize: nat, headerSize: nat) returns (ok: bool, header: seq<u8>)
      requires scanlineSize > 0
      requires WholeRows(file, scanlineSize, headerSize)
      modifies this
      ensures Valid()
      ensures ok <==> file.Present? && file.size >= headerSize
      ensures ok ==> && IsOpen() && image == file.rows && bufferPos == 0
                     && imageHeight == ImageHeight(file.size, headerSize, scanlineSize)
                     && this.scanlineSize == scanlineSize && this.headerSize == headerSize
      ensures !ok ==> !IsOpen()
      ensures header == if file.Present? then file.prefix else []
      ensures ok ==> |header| == headerSize
    {
      Close();
      if file.Missing? {
        return false, [];
      }
      header := file.prefix;
      if file.size < headerSize {
        return false, header;
      }
      image := file.rows;
      bufferLines := BufferLines;
      this.scanlineSize := scanlineSize;
      this.headerSize := headerSize;
      imageHeight := ImageHeight(file.size, headerSize, scanlineSize);
      buffer := new Row[BufferLines](_ => ZeroRow(scanlineSize));
      bufferPos := 0;
      ghost var _ := SetBufferPos(0);
      ok := true;
    }
  }
}
