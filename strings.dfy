/**
 * The two host-environment string utilities that path_to_filename calls:
 * R's `strsplit(x, sep)` for a literal one-character separator, and
 * `paste(v, collapse = sep)`.
 *
 * `Split` follows R's splitting loop: the text before the first separator is a
 * field, the separator is consumed, and the loop stops as soon as nothing is left.
 * So a leading separator gives a leading "", a single trailing separator adds no
 * field, and the empty string splits into no fields at all.
 */
module Strings {

  /** The index of the first `c` in `s`, or `|s|` when there is none. */
  function Find(s: string, c: char): (i: nat)
    ensures i <= |s|
    ensures i < |s| ==> s[i] == c
    ensures forall j | 0 <= j < i :: s[j] != c
  {
    if s == [] then 0
    else if s[0] == c then 0
    else 1 + Find(s[1..], c)
  }

  /** R's `strsplit(s, sep)`: only the empty text splits into no fields at all. */
  function Split(s: string, sep: char): (fields: seq<string>)
    ensures fields == [] <==> s == []
    decreases |s|
  {
    if s == [] then []
    else
      var i := Find(s, sep);
      if i == |s| then [s]
      else
        [s[..i]] + Split(s[i + 1..], sep)
  }

  /** The total length of the fields. */
  function TotalLength(fields: seq<string>): nat
  {
    if fields == [] then 0 else |fields[0]| + TotalLength(fields[1..])
  }

  /**
   * R's `paste(fields, collapse = sep)`: the fields in order with one `sep`
   * between each two neighbours and none at either end.
   */
  function Join(fields: seq<string>, sep: char): (s: string)
    ensures |fields| > 0 ==> |s| == TotalLength(fields) + |fields| - 1
    ensures |fields| == 0 ==> s == ""
  {
    if |fields| == 0 then ""
    else if |fields| == 1 then fields[0]
    else fields[0] + [sep] + Join(fields[1..], sep)
  }

  predicate IsSuffix(suffix: string, s: string)
  {
    |suffix| <= |s| && s[|s| - |suffix|..] == suffix
  }

  /** No field produced by `Split` contains the separator. */
  lemma {:induction false} SplitFieldsHaveNoSeparator(s: string, sep: char)
    ensures forall k | 0 <= k < |Split(s, sep)| :: sep !in Split(s, sep)[k]
    decreases |s|
  {
    if s != [] {
      var i := Find(s, sep);
      if i < |s| {
        SplitFieldsHaveNoSeparator(s[i + 1..], sep);
        var rest := Split(s[i + 1..], sep);
        assert Split(s, sep) == [s[..i]] + rest;
        forall k | 0 <= k < |Split(s, sep)|
          ensures sep !in Split(s, sep)[k]
        {
          if k == 0 {
            assert forall j | 0 <= j < i :: s[..i][j] == s[j];
          } else {
            assert Split(s, sep)[k] == rest[k - 1];
          }
        }
      }
    }
  }

  /**
   * Joining the fields of `s` with the same separator gives `s` back, unless `s`
   * ends with the separator (the one trailing separator that `Split` drops).
   */
  lemma {:induction false} JoinSplit(s: string, sep: char)
    requires s == [] || s[|s| - 1] != sep
    ensures Join(Split(s, sep), sep) == s
    decreases |s|
  {
    if s != [] {
      var i := Find(s, sep);
      if i == |s| {
        assert Split(s, sep) == [s];
      } else {
        var a, t := s[..i], s[i + 1..];
        assert s == a + [sep] + t;
        assert t != [] && t[|t| - 1] == s[|s| - 1];
        JoinSplit(t, sep);
        SplitAtFirst(s, sep);
        JoinCons(a, Split(t, sep), sep);
      }
    }
  }

  /** The text before the first separator is the first field, and splitting goes on after it. */
  lemma SplitAtFirst(s: string, sep: char)
    requires Find(s, sep) < |s|
    ensures Split(s, sep) == [s[..Find(s, sep)]] + Split(s[Find(s, sep) + 1..], sep)
  {
  }

  /** Joining a first field before at least one more puts the separator between them. */
  lemma JoinCons(a: string, rest: seq<string>, sep: char)
    requires |rest| > 0
    ensures Join([a] + rest, sep) == a + [sep] + Join(rest, sep)
  {
    assert ([a] + rest)[1..] == rest;
  }

  /**
   * Splitting a join gives the fields back when no field contains the separator
   * and the last field is not empty.
   */
  lemma {:induction false} SplitJoin(fields: seq<string>, sep: char)
    requires forall k | 0 <= k < |fields| :: sep !in fields[k]
    requires fields == [] || fields[|fields| - 1] != ""
    ensures Split(Join(fields, sep), sep) == fields
  {
    if |fields| == 1 {
      var a := fields[0];
      FindAbsent(a, sep);
    } else if |fields| > 1 {
      var a, rest := fields[0], fields[1..];
      var s := Join(fields, sep);
      assert s == a + [sep] + Join(rest, sep);
      FindAbsent(a, sep);
      FindAfter(a, Join(rest, sep), sep);
      assert s[..|a|] == a;
      assert s[|a| + 1..] == Join(rest, sep);
      SplitJoin(rest, sep);
      assert fields == [a] + rest;
    }
  }

  lemma {:induction false} FindAbsent(a: string, c: char)
    requires c !in a
    ensures Find(a, c) == |a|
  {
    if a != [] {
      FindAbsent(a[1..], c);
    }
  }

  lemma {:induction false} FindAfter(a: string, t: string, c: char)
    requires c !in a
    ensures Find(a + [c] + t, c) == |a|
  {
    if a != [] {
      assert (a + [c] + t)[1..] == a[1..] + [c] + t;
      FindAfter(a[1..], t, c);
    }
  }

  /** A separator-free text before the first separator is the first field. */
  lemma SplitCons(a: string, t: string, sep: char)
    requires sep !in a
    ensures Split(a + [sep] + t, sep) == [a] + Split(t, sep)
  {
    var s := a + [sep] + t;
    FindAfter(a, t, sep);
    assert s[..|a|] == a;
    assert s[|a| + 1..] == t;
  }

  /** A non-empty separator-free text is a single field. */
  lemma SplitSingle(a: string, sep: char)
    requires a != [] && sep !in a
    ensures Split(a, sep) == [a]
  {
    FindAbsent(a, sep);
  }

  /** A join of at least one field ends with the last field. */
  lemma {:induction false} JoinEndsWithLast(fields: seq<string>, sep: char)
    requires |fields| > 0
    ensures IsSuffix(fields[|fields| - 1], Join(fields, sep))
  {
    if |fields| > 1 {
      var rest := fields[1..];
      JoinEndsWithLast(rest, sep);
      var j := Join(rest, sep);
      var s := Join(fields, sep);
      assert s == fields[0] + [sep] + j;
      assert s[|s| - |j|..] == j;
    }
  }
}
