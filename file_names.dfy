/** The file names the converters derive from one another: the forward
    converter strips the extension of the WAV file and writes one
    `<stem>_ch<k>.raw` image per channel; the backward converter finds
    those images again from a name and writes `<stem>_modified.wav`. */
module FileNames {
  import opened Common

  // ---------------------------------------------------------------------
  // Decimal numbers, as `%d` prints them

  predicate IsDigit(c: char)
  {
    '0' <= c <= '9'
  }

  function DigitChar(d: nat): (c: char)
    requires d < 10
    ensures IsDigit(c) && (c as int) - ('0' as int) == d
  {
    (('0' as int) + d) as char
  }

  /** `%d` of a non-negative number: its decimal digits, most significant
      first, with no leading zero. */
  function Decimal(n: nat): (s: string)
    ensures |s| >= 1 && forall i :: 0 <= i < |s| ==> IsDigit(s[i])
  {
    if n < 10 then [DigitChar(n)] else Decimal(n / 10) + [DigitChar(n % 10)]
  }

  /** The value of a string of decimal digits. */
  function ParseDecimal(s: string): nat
    requires forall i :: 0 <= i < |s| ==> IsDigit(s[i])
  {
    if |s| == 0 then 0
    else
      assert IsDigit(s[|s| - 1]);
      ParseDecimal(s[..|s| - 1]) * 10 + ((s[|s| - 1] as int) - ('0' as int))
  }

  /** Reading back what `%d` printed gives the number. */
  lemma {:induction false} ParseDecimalOf(n: nat)
    ensures ParseDecimal(Decimal(n)) == n
  {
    if n >= 10 {
      var s := Decimal(n);
      assert s[..|s| - 1] == Decimal(n / 10);
      ParseDecimalOf(n / 10);
    }
  }

  /** Different numbers print differently. */
  lemma DecimalInjective(a: nat, b: nat)
    requires Decimal(a) == Decimal(b)
    ensures a == b
  {
    ParseDecimalOf(a);
    ParseDecimalOf(b);
  }

  // ---------------------------------------------------------------------
  // Substring search, as std::string::find and std::string::rfind

  predicate OccursAt(s: string, pat: string, p: int)
  {
    0 <= p && p + |pat| <= |s| && s[p..p + |pat|] == pat
  }

  /** `s.rfind(pat)`: the last position where `pat` occurs, None for npos. */
  function LastIndexOf(s: string, pat: string): (r: Option<nat>)
    ensures r.Some? ==> OccursAt(s, pat, r.value)
    ensures r.Some? ==> forall q :: r.value < q ==> !OccursAt(s, pat, q)
    ensures r.None? ==> forall q :: !OccursAt(s, pat, q)
  {
    LastIndexBelow(s, pat, |s| + 1)
  }

  function LastIndexBelow(s: string, pat: string, end: nat): (r: Option<nat>)
    requires end <= |s| + 1
    ensures r.Some? ==> r.value < end && OccursAt(s, pat, r.value)
    ensures r.Some? ==> forall q :: r.value < q < end ==> !OccursAt(s, pat, q)
    ensures r.None? ==> forall q :: q < end ==> !OccursAt(s, pat, q)
  {
    if end == 0 then None
    else if OccursAt(s, pat, end - 1) then Some(end - 1)
    else LastIndexBelow(s, pat, end - 1)
  }

  /** `s.find(pat)`: the first position where `pat` occurs, None for npos. */
  function FirstIndexOf(s: string, pat: string): (r: Option<nat>)
    ensures r.Some? ==> OccursAt(s, pat, r.value)
    ensures r.Some? ==> forall q :: q < r.value ==> !OccursAt(s, pat, q)
    ensures r.None? ==> forall q :: !OccursAt(s, pat, q)
  {
    FirstIndexFrom(s, pat, 0)
  }

  function FirstIndexFrom(s: string, pat: string, start: nat): (r: Option<nat>)
    requires start <= |s| + 1
    ensures r.Some? ==> start <= r.value && OccursAt(s, pat, r.value)
    ensures r.Some? ==> forall q :: start <= q < r.value ==> !OccursAt(s, pat, q)
    ensures r.None? ==> forall q :: start <= q ==> !OccursAt(s, pat, q)
    decreases |s| + 1 - start
  {
    if start == |s| + 1 then None
    else if OccursAt(s, pat, start) then Some(start)
    else FirstIndexFrom(s, pat, start + 1)
  }

  // ---------------------------------------------------------------------
  // RemoveFilenameExtension

  /** Some character after the first one is a dot. */
  predicate HasLaterDot(s: string)
  {
    exists i :: 1 <= i < |s| && s[i] == '.'
  }

  /** r is what `RemoveFilenameExtension(s)` returns: the prefix before the
      last dot at index 1 or later, or, when there is no such dot, s with
      its last character dropped. */
  predicate IsStem(s: string, r: string)
  {
    |r| < |s| && r == s[..|r|]
    && if HasLaterDot(s) then
         1 <= |r| && s[|r|] == '.' && forall j :: |r| < j < |s| ==> s[j] != '.'
       else
         |r| == |s| - 1
  }

  /** `ForwardConverter::RemoveFilenameExtension`: scan down from the last
      character to index 1 for a dot. The empty name is excluded: the
      source's unsigned `s.size() - 1` wraps and the scan reads past the
      end. */
  method RemoveFilenameExtension(s: string) returns (r: string)
    requires |s| > 0
    ensures IsStem(s, r)
  {
    var lastDotPos := |s| - 1;
    var i := |s| - 1;
    while i > 0
      invariant 0 <= i <= |s| - 1
      invariant forall j :: i < j < |s| ==> s[j] != '.'
    {
      if s[i] == '.' {
        lastDotPos := i;
        break;
      }
      i := i - 1;
    }
    r := s[..lastDotPos];
  }

  /** A name has exactly one stem. */
  lemma StemUnique(s: string, r1: string, r2: string)
    requires IsStem(s, r1) && IsStem(s, r2)
    ensures r1 == r2
  {
  }

  /** The stem of `base.ext` is base when ext holds no dot. */
  lemma StemOfExtension(base: string, ext: string)
    requires |base| >= 1 && forall j :: 0 <= j < |ext| ==> ext[j] != '.'
    ensures IsStem(base + "." + ext, base)
  {
    var s := base + "." + ext;
    assert s[|base|] == '.';
    assert HasLaterDot(s);
    forall j | |base| < j < |s|
      ensures s[j] != '.'
    {
      assert s[j] == ext[j - |base| - 1];
    }
    assert s[..|base|] == base;
  }

  // ---------------------------------------------------------------------
  // Channel image names

  const ChannelTag: string := "_ch"
  const RawSuffix: string := ".raw"

  /** `sprintf("%s_ch%d.raw", stem, k)`. */
  function ChannelFileName(stem: string, k: nat): (name: string)
    ensures |name| == |stem| + 3 + |Decimal(k)| + 4
    ensures name[..|stem|] == stem
  {
    stem + ChannelTag + Decimal(k) + RawSuffix
  }

  /** Channel names of one stem differ for different channels. */
  lemma ChannelFileNameInjective(stem: string, a: nat, b: nat)
    requires ChannelFileName(stem, a) == ChannelFileName(stem, b)
    ensures a == b
  {
    var na, nb := ChannelFileName(stem, a), ChannelFileName(stem, b);
    assert na[|stem| + 3..|na| - 4] == Decimal(a);
    assert nb[|stem| + 3..|nb| - 4] == Decimal(b);
    DecimalInjective(a, b);
  }

  /** After the stem, a channel name holds no underscore but the one that
      starts the tag. */
  lemma UnderscoresOfChannelName(stem: string, k: nat)
    ensures ChannelFileName(stem, k)[|stem|] == '_'
    ensures forall q :: |stem| < q < |ChannelFileName(stem, k)| ==> ChannelFileName(stem, k)[q] != '_'
  {
    var name := ChannelFileName(stem, k);
    var d := Decimal(k);
    assert name[|stem|] == ChannelTag[0];
    forall q | |stem| < q < |name|
      ensures name[q] != '_'
    {
      if q < |stem| + 3 {
        assert name[q] == ChannelTag[q - |stem|];
      } else if q < |stem| + 3 + |d| {
        assert name[q] == d[q - |stem| - 3];
      } else {
        assert name[q] == RawSuffix[q - |stem| - 3 - |d|];
      }
    }
  }

  /** The tag occurs in a channel name at the end of the stem and nowhere
      later, so `rfind("_ch")` cuts the name back to its stem; if the stem
      holds no tag, `find("_ch")` cuts it there too. */
  lemma ChannelTagPosition(stem: string, k: nat)
    ensures LastIndexOf(ChannelFileName(stem, k), ChannelTag) == Some(|stem|)
    ensures (forall q :: !OccursAt(stem, ChannelTag, q)) ==>
              FirstIndexOf(ChannelFileName(stem, k), ChannelTag) == Some(|stem|)
  {
    var name := ChannelFileName(stem, k);
    UnderscoresOfChannelName(stem, k);
    assert name[|stem|..|stem| + 3] == ChannelTag;
    assert OccursAt(name, ChannelTag, |stem|);
    forall q | |stem| < q
      ensures !OccursAt(name, ChannelTag, q)
    {
      if q + 3 <= |name| {
        assert name[q..q + 3][0] == name[q];
      }
    }
    if (forall q :: !OccursAt(stem, ChannelTag, q)) {
      forall q | q < |stem|
        ensures !OccursAt(name, ChannelTag, q)
      {
        if 0 <= q && q + 3 <= |stem| {
          assert stem[q..q + 3] == name[q..q + 3];
          assert !OccursAt(stem, ChannelTag, q);
        } else if 0 <= q {
          assert ChannelTag[1] == 'c' && ChannelTag[2] == 'h';
          assert name[q..q + 3][|stem| - q] == name[|stem|];
          assert name[q..q + 3] != ChannelTag;
        }
      }
    }
  }

  // ---------------------------------------------------------------------
  // FindMatchingFilenamesBC

  /** r lists the images `<stem>_ch1.raw`, `<stem>_ch2.raw`, ... that exist,
      and stops at the first that does not. */
  predicate IsRun(existing: set<string>, stem: string, r: seq<string>)
  {
    (forall k :: 0 <= k < |r| ==> r[k] == ChannelFileName(stem, k + 1) && r[k] in existing)
    && ChannelFileName(stem, |r| + 1) !in existing
  }

  /** A stem has exactly one run of existing images. */
  lemma RunUnique(existing: set<string>, stem: string, r1: seq<string>, r2: seq<string>)
    requires IsRun(existing, stem, r1) && IsRun(existing, stem, r2)
    ensures r1 == r2
  {
    if |r1| < |r2| {
      RunHolds(existing, stem, r2, |r1|);
    } else if |r2| < |r1| {
      RunHolds(existing, stem, r1, |r2|);
    }
  }

  lemma RunHolds(existing: set<string>, stem: string, r: seq<string>, n: nat)
    requires IsRun(existing, stem, r) && n < |r|
    ensures ChannelFileName(stem, n + 1) in existing
  {
    assert r[n] == ChannelFileName(stem, n + 1);
  }

  /** One of the probing loops of `FindMatchingFilenamesBC`: try
      `<stem>_ch<i+1>.raw` for i = 0, 1, ... until a name does not exist.
      The set of existing names is finite, so the loop ends. */
  method CollectRun(existing: set<string>, stem: string) returns (r: seq<string>)
    ensures IsRun(existing, stem, r)
  {
    r := [];
    ghost var seen: set<string> := {};
    var i := 0;
    while ChannelFileName(stem, i + 1) in existing
      invariant i == |r|
      invariant forall k :: 0 <= k < |r| ==> r[k] == ChannelFileName(stem, k + 1) && r[k] in existing
      invariant seen == set k | 0 <= k < |r| :: r[k]
      invariant seen <= existing
      decreases existing - seen
    {
      var guess := ChannelFileName(stem, i + 1);
      if guess in seen {
        var k :| 0 <= k < |r| && r[k] == guess;
        ChannelFileNameInjective(stem, k + 1, i + 1);
      }
      ghost var before := r;
      r := r + [guess];
      seen := seen + {guess};
      assert forall k :: 0 <= k < |before| ==> r[k] == before[k];
      assert r[|before|] == guess;
      i := i + 1;
    }
  }

  /** `FindMatchingFilenamesBC(name)` over the set of names that exist: the
      run for name itself; if that is empty, the run for name cut at its
      last "_ch"; nothing when "_ch" does not occur. */
  method FindMatchingFilenamesBC(existing: set<string>, name: string) returns (r: seq<string>)
    ensures ChannelFileName(name, 1) in existing ==> IsRun(existing, name, r) && |r| > 0
    ensures ChannelFileName(name, 1) !in existing ==>
              match LastIndexOf(name, ChannelTag)
              case None => r == []
              case Some(p) => IsRun(existing, name[..p], r)
  {
    r := CollectRun(existing, name);
    assert |r| == 0 ==> ChannelFileName(name, |r| + 1) == ChannelFileName(name, 1);
    if |r| > 0 {
      assert r[0] == ChannelFileName(name, 0 + 1);
      return;
    }
    var p := LastIndexOf(name, ChannelTag);
    if p.None? {
      return [];
    }
    r := CollectRun(existing, name[..p.value]);
  }

  /** The name `BackwardConverter::Convert` writes to: the first channel's
      name cut at its first "_ch", then "_modified.wav". */
  function OutputFileName(first: string): (out: string)
    ensures FirstIndexOf(first, ChannelTag).Some? ==>
              out == first[..FirstIndexOf(first, ChannelTag).value] + "_modified.wav"
  {
    match FirstIndexOf(first, ChannelTag)
    case Some(p) => first[..p] + "_modified.wav"
    case None => first + "_modified.wav"
  }

  /** A stem without "_ch" gets `<stem>_modified.wav` back. */
  lemma OutputFileNameOfChannel(stem: string, k: nat)
    requires forall q :: !OccursAt(stem, ChannelTag, q)
    ensures OutputFileName(ChannelFileName(stem, k)) == stem + "_modified.wav"
  {
    ChannelTagPosition(stem, k);
  }
}
