/**
 * path_to_filename: short labels for a batch of file paths.
 *
 * Each path is split on '/', its empty segments are erased (with the source's
 * skip-after-erase behaviour), and its last segment is its candidate label. When
 * the candidates are pairwise distinct they are the result. Otherwise the leading
 * segments that every path shares are stripped, at most one fewer than the
 * shortest path has, and each path's remaining segments are joined with '_'.
 */
module PathLabels {
  import opened Results
  import opened Strings

  /** A path whose segment list ends up empty: the source then reads before the start of the list. */
  datatype PathError = NoSegments(index: nat)

  const PathSeparator: char := '/'
  const LabelSeparator: char := '_'

  function Empties(m: nat): (s: seq<string>)
    ensures |s| == m && forall k | 0 <= k < m :: s[k] == ""
  {
    seq(m, _ => "")
  }

  /** The non-empty segments of `s`, in order. */
  function NonEmptyOf(s: seq<string>): seq<string>
  {
    if s == [] then []
    else if s[0] == "" then NonEmptyOf(s[1..])
    else [s[0]] + NonEmptyOf(s[1..])
  }

  /**
   * What the erase loop leaves of `s`. Erasing the empty segment at index r moves
   * the next segment down to r, and the loop then moves on to r + 1: the segment
   * right after an erased one is never examined and so always stays.
   */
  function EraseEmpties(s: seq<string>): (r: seq<string>)
    ensures |r| == 0 <==> |s| == 0 || (|s| == 1 && s[0] == "")
  {
    if s == [] then []
    else if s[0] != "" then [s[0]] + EraseEmpties(s[1..])
    else if |s| == 1 then []
    else [s[1]] + EraseEmpties(s[2..])
  }

  /** The erase loop of lines 217-218, run on the segment vector in place. */
  method RemoveEmptySegments(segments: seq<string>) returns (res: seq<string>)
    ensures res == EraseEmpties(segments)
  {
    res := segments;
    var r := 0;
    while r < |res|
      invariant 0 <= r <= |res| + 1
      invariant r <= |res| ==> res[..r] + EraseEmpties(res[r..]) == EraseEmpties(segments)
      invariant r == |res| + 1 ==> res == EraseEmpties(segments)
      decreases |res| + 1 - r
    {
      if res[r] == "" {
        EraseStepAtEmpty(res, r, segments);
        res := res[..r] + res[r + 1..];
      } else {
        EraseStepAtNonEmpty(res, r, segments);
      }
      r := r + 1;
    }
  }

  /** One turn of the erase loop at an empty segment: erase it, skip its successor. */
  lemma EraseStepAtEmpty(res: seq<string>, r: nat, segments: seq<string>)
    requires r < |res| && res[r] == ""
    requires res[..r] + EraseEmpties(res[r..]) == EraseEmpties(segments)
    ensures var next := res[..r] + res[r + 1..];
      && (r + 1 <= |next| ==> next[..r + 1] + EraseEmpties(next[r + 1..]) == EraseEmpties(segments))
      && (r + 1 == |next| + 1 ==> next == EraseEmpties(segments))
  {
    var next := res[..r] + res[r + 1..];
    if r + 1 < |res| {
      assert res[r..][1..][1..] == res[r + 2..];
      assert next[..r + 1] == res[..r] + [res[r + 1]];
      assert next[r + 1..] == res[r + 2..];
    } else {
      assert next == res[..r];
    }
  }

  /** One turn of the erase loop at a non-empty segment: keep it. */
  lemma EraseStepAtNonEmpty(res: seq<string>, r: nat, segments: seq<string>)
    requires r < |res| && res[r] != ""
    requires res[..r] + EraseEmpties(res[r..]) == EraseEmpties(segments)
    ensures res[..r + 1] + EraseEmpties(res[r + 1..]) == EraseEmpties(segments)
  {
    assert res[..r + 1] == res[..r] + [res[r]];
    assert res[r..][1..] == res[r + 1..];
  }

  /** Every segment the erase loop leaves was a segment of its input. */
  lemma {:induction false} EraseEmptiesKeepsOnlyInput(s: seq<string>, k: nat)
    requires k < |EraseEmpties(s)|
    ensures EraseEmpties(s)[k] in s
  {
    if s[0] != "" {
      if k > 0 {
        EraseEmptiesKeepsOnlyInput(s[1..], k - 1);
      }
    } else if k > 0 {
      EraseEmptiesKeepsOnlyInput(s[2..], k - 1);
    }
  }

  /** The erase loop never drops a non-empty segment and keeps them in order. */
  lemma {:induction false} EraseEmptiesKeepsNonEmpty(s: seq<string>)
    ensures NonEmptyOf(EraseEmpties(s)) == NonEmptyOf(s)
  {
    if s != [] {
      if s[0] != "" {
        EraseEmptiesKeepsNonEmpty(s[1..]);
        assert ([s[0]] + EraseEmpties(s[1..]))[1..] == EraseEmpties(s[1..]);
      } else if |s| > 1 {
        EraseEmptiesKeepsNonEmpty(s[2..]);
        assert ([s[1]] + EraseEmpties(s[2..]))[1..] == EraseEmpties(s[2..]);
        assert s[1..][1..] == s[2..];
      }
    }
  }

  /** A run of m empty segments on its own keeps m / 2 of them. */
  lemma {:induction false} EraseEmptyRun(m: nat)
    ensures EraseEmpties(Empties(m)) == Empties(m / 2)
  {
    if m >= 2 {
      EraseEmptyRun(m - 2);
      assert Empties(m)[2..] == Empties(m - 2);
      assert Empties(m / 2) == [""] + Empties(m / 2 - 1);
    }
  }

  /**
   * A run of m empty segments followed by a non-empty one keeps m / 2 empties,
   * then that segment, and the erase loop starts afresh on the rest.
   */
  lemma {:induction false} EraseEmptyRunBefore(m: nat, x: string, rest: seq<string>)
    requires x != ""
    ensures EraseEmpties(Empties(m) + [x] + rest) == Empties(m / 2) + [x] + EraseEmpties(rest)
  {
    var s := Empties(m) + [x] + rest;
    if m == 0 {
      assert s == [x] + rest;
      assert s[1..] == rest;
    } else if m == 1 {
      assert s[1] == x;
      assert s[2..] == rest;
    } else {
      assert s[2..] == Empties(m - 2) + [x] + rest;
      EraseEmptyRunBefore(m - 2, x, rest);
      assert Empties(m / 2) == [""] + Empties(m / 2 - 1);
    }
  }

  /** After a non-empty segment the erase loop starts afresh. */
  lemma {:induction false} EraseEmptiesSplitsAfterNonEmpty(a: seq<string>, t: seq<string>)
    requires a == [] || a[|a| - 1] != ""
    ensures EraseEmpties(a + t) == EraseEmpties(a) + EraseEmpties(t)
    decreases |a|
  {
    if a == [] {
      assert a + t == t;
    } else if a[0] != "" {
      EraseEmptiesSplitsAfterNonEmpty(a[1..], t);
      EraseKeptHead(a, t);
    } else {
      EraseEmptiesSplitsAfterNonEmpty(a[2..], t);
      EraseErasedHead(a, t);
    }
  }

  /** The step of the loop at a kept first segment, on `a + t`. */
  lemma EraseKeptHead(a: seq<string>, t: seq<string>)
    requires a != [] && a[0] != ""
    requires EraseEmpties(a[1..] + t) == EraseEmpties(a[1..]) + EraseEmpties(t)
    ensures EraseEmpties(a + t) == EraseEmpties(a) + EraseEmpties(t)
  {
    assert (a + t)[1..] == a[1..] + t;
    ConsAppend(a[0], EraseEmpties(a[1..]), EraseEmpties(t));
  }

  /** The step of the loop at an erased first segment, on `a + t`. */
  lemma EraseErasedHead(a: seq<string>, t: seq<string>)
    requires |a| >= 2 && a[0] == ""
    requires EraseEmpties(a[2..] + t) == EraseEmpties(a[2..]) + EraseEmpties(t)
    ensures EraseEmpties(a + t) == EraseEmpties(a) + EraseEmpties(t)
  {
    assert (a + t)[2..] == a[2..] + t;
    ConsAppend(a[1], EraseEmpties(a[2..]), EraseEmpties(t));
  }

  lemma ConsAppend(x: string, p: seq<string>, q: seq<string>)
    ensures [x] + (p + q) == ([x] + p) + q
  {
  }

  /** An empty segment with no empty neighbour is always erased. */
  lemma IsolatedEmptyErased(a: seq<string>, b: seq<string>)
    requires a == [] || a[|a| - 1] != ""
    requires b == [] || b[0] != ""
    ensures EraseEmpties(a + [""] + b) == EraseEmpties(a) + EraseEmpties(b)
  {
    EraseEmptiesSplitsAfterNonEmpty(a, [""] + b);
    assert a + [""] + b == a + ([""] + b);
    if b == [] {
      assert [""] + b == [""];
    } else {
      assert [""] + b == Empties(1) + [b[0]] + b[1..];
      EraseEmptyRunBefore(1, b[0], b[1..]);
      assert b == [b[0]] + b[1..];
    }
  }

  /** A non-empty last segment is never erased and stays last. */
  lemma {:induction false} EraseEmptiesKeepsLast(s: seq<string>)
    requires s != [] && s[|s| - 1] != ""
    ensures var r := EraseEmpties(s); r != [] && r[|r| - 1] == s[|s| - 1]
  {
    if |s| > 1 && s[0] != "" {
      EraseEmptiesKeepsLast(s[1..]);
    } else if |s| > 2 {
      EraseEmptiesKeepsLast(s[2..]);
    }
  }

  /**
   * The segments of one path after splitting and erasing (lines 215-218). Every
   * non-empty field of the split path survives, in order.
   */
  function Segments(filename: string): (segments: seq<string>)
    ensures NonEmptyOf(segments) == NonEmptyOf(Split(filename, PathSeparator))
  {
    EraseEmptiesKeepsNonEmpty(Split(filename, PathSeparator));
    EraseEmpties(Split(filename, PathSeparator))
  }

  function AllSegments(filenames: seq<string>): (paths: seq<seq<string>>)
    ensures |paths| == |filenames|
  {
    seq(|filenames|, i requires 0 <= i < |filenames| => Segments(filenames[i]))
  }

  /** No segment of a path contains the path separator. */
  lemma SegmentsHaveNoSeparator(filename: string)
    ensures forall k | 0 <= k < |Segments(filename)| :: PathSeparator !in Segments(filename)[k]
  {
    SplitFieldsHaveNoSeparator(filename, PathSeparator);
    var fields := Split(filename, PathSeparator);
    forall k | 0 <= k < |Segments(filename)|
      ensures PathSeparator !in Segments(filename)[k]
    {
      EraseEmptiesKeepsOnlyInput(fields, k);
    }
  }

  predicate AllNonEmpty(paths: seq<seq<string>>)
  {
    forall f | 0 <= f < |paths| :: |paths[f]| > 0
  }

  function Last(p: seq<string>): string
    requires |p| > 0
  {
    p[|p| - 1]
  }

  function Lasts(paths: seq<seq<string>>): (lasts: seq<string>)
    requires AllNonEmpty(paths)
    ensures |lasts| == |paths|
  {
    seq(|paths|, f requires 0 <= f < |paths| => Last(paths[f]))
  }

  function Lengths(paths: seq<seq<string>>): (lengths: seq<nat>)
    ensures |lengths| == |paths|
    ensures forall f | 0 <= f < |paths| :: lengths[f] == |paths[f]|
  {
    seq(|paths|, f requires 0 <= f < |paths| => |paths[f]|)
  }

  /** The values occurring in `s`: what `unique` keeps, up to order. */
  function UniqueValues(s: seq<string>): (u: set<string>)
    ensures forall x :: x in u <==> x in s
  {
    set x | x in s
  }

  /**
   * `unique(lasts).size() == lasts.size()`: no value is dropped as a repeat,
   * which holds exactly when the values are pairwise distinct.
   */
  predicate Distinct(s: seq<string>)
    ensures Distinct(s) <==> PairwiseDistinct(s)
  {
    DistinctByCount(s);
    |UniqueValues(s)| == |s|
  }

  /** No two positions of `s` hold the same value. */
  predicate PairwiseDistinct(s: seq<string>)
  {
    forall i, j | 0 <= i < j < |s| :: s[i] != s[j]
  }

  /** A sequence has at most as many values as elements, and as many exactly when no value repeats. */
  lemma {:induction false} DistinctByCount(s: seq<string>)
    ensures |UniqueValues(s)| <= |s|
    ensures |UniqueValues(s)| == |s| <==> PairwiseDistinct(s)
  {
    if s == [] {
      assert UniqueValues(s) == {};
    } else {
      var t := s[1..];
      DistinctByCount(t);
      UniqueValuesCons(s);
      PairwiseDistinctCons(s);
      if s[0] in t {
        assert UniqueValues(s) == UniqueValues(t);
      } else {
        assert s[0] !in UniqueValues(t);
      }
    }
  }

  lemma UniqueValuesCons(s: seq<string>)
    requires s != []
    ensures UniqueValues(s) == {s[0]} + UniqueValues(s[1..])
  {
    assert s == [s[0]] + s[1..];
  }

  lemma PairwiseDistinctCons(s: seq<string>)
    requires s != []
    ensures PairwiseDistinct(s) <==> s[0] !in s[1..] && PairwiseDistinct(s[1..])
  {
    var t := s[1..];
    if s[0] in t {
      var j :| 0 <= j < |t| && t[j] == s[0];
      assert s[0] == s[j + 1];
    } else if PairwiseDistinct(t) {
      forall i, j | 0 <= i < j < |s|
        ensures s[i] != s[j]
      {
        if i == 0 {
          assert s[j] == t[j - 1];
        } else {
          assert s[i] == t[i - 1] && s[j] == t[j - 1];
        }
      }
    } else {
      var i, j :| 0 <= i < j < |t| && t[i] == t[j];
      assert s[i + 1] == s[j + 1];
    }
  }

  /** The minimum of the lengths: an element that is at most every element. */
  function MinOf(s: seq<nat>): (m: nat)
    requires |s| > 0
    ensures m in s
    ensures forall k | 0 <= k < |s| :: m <= s[k]
  {
    if |s| == 1 then s[0]
    else
      var rest := MinOf(s[1..]);
      if s[0] <= rest then s[0] else rest
  }

  /** Every path has a segment at position j, and it equals path 0's. */
  predicate SharedAt(paths: seq<seq<string>>, j: nat)
  {
    |paths| > 0 && j < |paths[0]| &&
    forall f | 0 <= f < |paths| :: j < |paths[f]| && paths[f][j] == paths[0][j]
  }

  /** The length of the longest common prefix of the paths that follows position `from`. */
  function CommonPrefixFrom(paths: seq<seq<string>>, from: nat): (r: nat)
    ensures from <= r
    ensures forall j | from <= j < r :: SharedAt(paths, j)
    ensures !SharedAt(paths, r)
    decreases if |paths| == 0 then 0 else |paths[0]| - from
  {
    if SharedAt(paths, from) then CommonPrefixFrom(paths, from + 1) else from
  }

  /** The length of the longest common prefix of all the paths. */
  function CommonPrefixLength(paths: seq<seq<string>>): (r: nat)
  {
    CommonPrefixFrom(paths, 0)
  }

  /** The number of leading segments the trimming loop strips from every path. */
  function StripCount(paths: seq<seq<string>>, longest: nat): nat
  {
    var c := CommonPrefixLength(paths);
    if longest <= c then longest else c
  }

  /** The labels path_to_filename derives from the segment lists `paths`. */
  function LabelsOf(paths: seq<seq<string>>): (labels: seq<string>)
    requires AllNonEmpty(paths)
    ensures |labels| == |paths|
  {
    var lasts := Lasts(paths);
    if Distinct(lasts) then lasts
    else
      var k := StripCount(paths, MinOf(Lengths(paths)) - 1);
      seq(|paths|, f requires 0 <= f < |paths| => Join(paths[f][k..], LabelSeparator))
  }

  /**
   * The trimming loop of lines 229-248. `allEqual` is never set back to true, so
   * the first position at which the paths disagree ends the stripping for good.
   */
  method StripSharedPrefix(paths: seq<seq<string>>, longest: nat) returns (trimmed: seq<seq<string>>)
    requires |paths| > 0
    requires forall f | 0 <= f < |paths| :: longest < |paths[f]|
    ensures |trimmed| == |paths|
    ensures forall f | 0 <= f < |paths| :: trimmed[f] == paths[f][StripCount(paths, longest)..]
  {
    trimmed := paths;
    var allEqual := true;
    ghost var k: nat := 0;
    var i := 0;
    while i < longest
      invariant 0 <= k <= i <= longest
      invariant |trimmed| == |paths|
      invariant forall f | 0 <= f < |paths| :: trimmed[f] == paths[f][k..]
      invariant forall j | 0 <= j < k :: SharedAt(paths, j)
      invariant allEqual ==> k == i
      invariant !allEqual ==> !SharedAt(paths, k)
    {
      var f := 1;
      while f < |paths|
        invariant 1 <= f <= |paths|
        invariant allEqual ==> forall g | 0 <= g < f :: trimmed[g][0] == trimmed[0][0]
        invariant !allEqual ==> !SharedAt(paths, k)
      {
        if trimmed[0][0] != trimmed[f][0] {
          allEqual := false;
          assert paths[f][k] != paths[0][k];
          break;
        }
        f := f + 1;
      }
      if allEqual {
        assert SharedAt(paths, k) by {
          forall g | 0 <= g < |paths|
            ensures k < |paths[g]| && paths[g][k] == paths[0][k]
          {
            assert trimmed[g][0] == paths[g][k];
          }
        }
        f := 0;
        while f < |paths|
          invariant 0 <= f <= |paths|
          invariant |trimmed| == |paths|
          invariant forall g | 0 <= g < f :: trimmed[g] == paths[g][k + 1..]
          invariant forall g | f <= g < |paths| :: trimmed[g] == paths[g][k..]
        {
          trimmed := trimmed[f := trimmed[f][1..]];
          f := f + 1;
        }
        k := k + 1;
      }
      i := i + 1;
    }
    assert k == StripCount(paths, longest);
  }

  /**
   * The splitting loop of lines 212-223: each path split on '/', its empty
   * segments erased, and its last segment and segment count recorded. The first
   * path left with no segment stops the loop with an error at its index.
   */
  method SplitPaths(filenames: seq<string>) returns (r: Result<seq<seq<string>>, PathError>, lasts: seq<string>, lengths: seq<nat>)
    ensures r.Failure? <==> exists i | 0 <= i < |filenames| :: Segments(filenames[i]) == []
    ensures r.Failure? ==>
      var i := r.error.index;
      i < |filenames| && Segments(filenames[i]) == [] &&
      forall j | 0 <= j < i :: Segments(filenames[j]) != []
    ensures r.Success? ==>
      && r.value == AllSegments(filenames)
      && AllNonEmpty(r.value)
      && lasts == Lasts(r.value)
      && lengths == Lengths(r.value)
  {
    var n := |filenames|;
    var splitRes: seq<seq<string>> := seq(n, _ => []);
    lasts := seq(n, _ => "");
    lengths := seq(n, _ => 0);
    var i := 0;
    while i < n
      invariant 0 <= i <= n
      invariant |splitRes| == n && |lasts| == n && |lengths| == n
      invariant forall j | 0 <= j < i :: splitRes[j] == Segments(filenames[j]) && |splitRes[j]| > 0
      invariant forall j | 0 <= j < i :: lengths[j] == |splitRes[j]| && lasts[j] == Last(splitRes[j])
    {
      var res := Split(filenames[i], PathSeparator);
      res := RemoveEmptySegments(res);
      if |res| == 0 {
        return Failure(NoSegments(i)), lasts, lengths;
      }
      splitRes := splitRes[i := res];
      lengths := lengths[i := |res|];
      lasts := lasts[i := res[|res| - 1]];
      i := i + 1;
    }
    assert splitRes == AllSegments(filenames);
    assert lasts == Lasts(splitRes);
    assert lengths == Lengths(splitRes);
    r := Success(splitRes);
  }

  /**
   * path_to_filename (lines 206-256). A path with no segment left is reported as
   * an error at its index.
   */
  method PathToFilename(filenames: seq<string>) returns (r: Result<seq<string>, PathError>)
    ensures r.Failure? <==> exists i | 0 <= i < |filenames| :: Segments(filenames[i]) == []
    ensures r.Failure? ==>
      var i := r.error.index;
      i < |filenames| && Segments(filenames[i]) == [] &&
      forall j | 0 <= j < i :: Segments(filenames[j]) != []
    ensures r.Success? ==> |r.value| == |filenames|
    ensures r.Success? ==> r.value == LabelsOf(AllSegments(filenames))
  {
    var split, lasts, lengths := SplitPaths(filenames);
    if split.Failure? {
      return Failure(split.error);
    }
    var splitRes := split.value;
    var n := |splitRes|;

    if Distinct(lasts) {
      return Success(lasts);
    }

    var longest := MinOf(lengths) - 1;
    forall f | 0 <= f < n
      ensures longest < |splitRes[f]|
    {
      assert lengths[f] == |splitRes[f]|;
    }
    var trimmed := StripSharedPrefix(splitRes, longest);

    var results := JoinLabels(trimmed);
    return Success(results);
  }

  /** The labelling loop of lines 250-253: each path's segments pasted together with '_'. */
  method JoinLabels(trimmed: seq<seq<string>>) returns (results: seq<string>)
    ensures |results| == |trimmed|
    ensures forall g | 0 <= g < |trimmed| :: results[g] == Join(trimmed[g], LabelSeparator)
  {
    results := seq(|trimmed|, _ => "");
    var f := 0;
    while f < |trimmed|
      invariant 0 <= f <= |trimmed|
      invariant |results| == |trimmed|
      invariant forall g | 0 <= g < f :: results[g] == Join(trimmed[g], LabelSeparator)
    {
      results := results[f := Join(trimmed[f], LabelSeparator)];
      f := f + 1;
    }
  }

  /** When the candidate labels are pairwise distinct, they are the result. */
  lemma DistinctLastsReturned(paths: seq<seq<string>>)
    requires AllNonEmpty(paths)
    requires Distinct(Lasts(paths))
    ensures LabelsOf(paths) == Lasts(paths)
  {
  }

  /**
   * Otherwise every path loses the same number k of leading segments: k is at
   * most one fewer than the shortest path's length, the stripped positions are
   * shared by all paths, and stripping stops at the first position they do not
   * share unless the bound stops it first. Each label is the join of what is left.
   */
  lemma {:induction false} FallbackStripsCommonPrefix(paths: seq<seq<string>>)
    requires AllNonEmpty(paths)
    requires !Distinct(Lasts(paths))
    ensures |paths| >= 2
    ensures var bound := MinOf(Lengths(paths)) - 1;
      var k := StripCount(paths, bound);
      && k <= bound
      && k == (if bound <= CommonPrefixLength(paths) then bound else CommonPrefixLength(paths))
      && (forall j | 0 <= j < k :: SharedAt(paths, j))
      && (k < bound ==> !SharedAt(paths, k))
      && (forall f | 0 <= f < |paths| :: k < |paths[f]|)
      && (forall f | 0 <= f < |paths| :: LabelsOf(paths)[f] == Join(paths[f][k..], LabelSeparator))
  {
  }

  /** In every case a path's label ends with that path's last segment. */
  lemma LabelEndsWithLastSegment(paths: seq<seq<string>>, f: nat)
    requires AllNonEmpty(paths)
    requires f < |paths|
    ensures IsSuffix(Last(paths[f]), LabelsOf(paths)[f])
  {
    if Distinct(Lasts(paths)) {
      DistinctLabelIsLast(paths, f);
    } else {
      FallbackLabelEndsWithLast(paths, f);
    }
  }

  lemma DistinctLabelIsLast(paths: seq<seq<string>>, f: nat)
    requires AllNonEmpty(paths)
    requires Distinct(Lasts(paths))
    requires f < |paths|
    ensures IsSuffix(Last(paths[f]), LabelsOf(paths)[f])
  {
    DistinctLastsReturned(paths);
    var x := Last(paths[f]);
    assert LabelsOf(paths)[f] == x;
    assert x[|x| - |x|..] == x;
  }

  lemma FallbackLabelEndsWithLast(paths: seq<seq<string>>, f: nat)
    requires AllNonEmpty(paths)
    requires !Distinct(Lasts(paths))
    requires f < |paths|
    ensures IsSuffix(Last(paths[f]), LabelsOf(paths)[f])
  {
    var k := FallbackLabel(paths, f);
    var rest := paths[f][k..];
    assert Last(rest) == Last(paths[f]);
    JoinEndsWithLast(rest, LabelSeparator);
  }

  /** In the fallback case a label is its path's segments from the strip count on, joined with '_'. */
  lemma FallbackLabel(paths: seq<seq<string>>, f: nat) returns (k: nat)
    requires AllNonEmpty(paths)
    requires !Distinct(Lasts(paths))
    requires f < |paths|
    ensures k == StripCount(paths, MinOf(Lengths(paths)) - 1)
    ensures k < |paths[f]|
    ensures LabelsOf(paths)[f] == Join(paths[f][k..], LabelSeparator)
  {
    k := StripCount(paths, MinOf(Lengths(paths)) - 1);
    assert MinOf(Lengths(paths)) <= Lengths(paths)[f];
  }

  /**
   * In the fallback case, when no segment contains '_' and the last segment is not
   * empty, splitting a label on '_' gives back exactly the segments the path kept.
   */
  lemma LabelSplitsIntoKeptSegments(paths: seq<seq<string>>, f: nat)
    requires AllNonEmpty(paths)
    requires !Distinct(Lasts(paths))
    requires f < |paths|
    requires forall j | 0 <= j < |paths[f]| :: LabelSeparator !in paths[f][j]
    requires Last(paths[f]) != ""
    ensures var k := StripCount(paths, MinOf(Lengths(paths)) - 1);
      Split(LabelsOf(paths)[f], LabelSeparator) == paths[f][k..]
  {
    var k := FallbackLabel(paths, f);
    var rest := paths[f][k..];
    assert Last(rest) == Last(paths[f]);
    assert forall j | 0 <= j < |rest| :: rest[j] == paths[f][k + j];
    SplitJoin(rest, LabelSeparator);
  }
}
