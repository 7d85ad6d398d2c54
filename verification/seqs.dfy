/**
 * Searching, splitting and joining sequences by a separator, with the
 * semantics of Python's `str.split(sep)`, `str.split(sep, 1)`,
 * `sep.join(parts)` and the `in` operator on strings. Generic, so the same
 * definitions serve text (`string`) and octets (`Bytes`).
 */
module Seqs {
  import opened Base

  /** `pat` occurs in `s` starting at index `i`. */
  predicate OccursAt<T(==)>(s: seq<T>, pat: seq<T>, i: int)
  {
    0 <= i && i + |pat| <= |s| && s[i..i + |pat|] == pat
  }

  /** Python's `pat in s`. */
  predicate Contains<T(==)>(s: seq<T>, pat: seq<T>)
  {
    exists i | 0 <= i <= |s| :: OccursAt(s, pat, i)
  }

  /** Python's `s.startswith(prefix)`. */
  predicate StartsWith<T(==)>(s: seq<T>, prefix: seq<T>)
  {
    |prefix| <= |s| && s[..|prefix|] == prefix
  }

  /** Python's `s.endswith(suffix)`. */
  predicate EndsWith<T(==)>(s: seq<T>, suffix: seq<T>)
  {
    |suffix| <= |s| && s[|s| - |suffix|..] == suffix
  }

  /** Index of the leftmost occurrence of `pat` in `s` at or after `from`. */
  function FindFrom<T(==)>(s: seq<T>, pat: seq<T>, from: nat): (r: Option<nat>)
    requires |pat| > 0
    ensures r.Some? ==> from <= r.value && OccursAt(s, pat, r.value)
    ensures r.Some? ==> forall j :: from <= j < r.value ==> !OccursAt(s, pat, j)
    ensures r.None? ==> forall j :: from <= j ==> !OccursAt(s, pat, j)
    decreases |s| - from
  {
    if from + |pat| > |s| then None
    else if s[from..from + |pat|] == pat then Some(from)
    else FindFrom(s, pat, from + 1)
  }

  /** Index of the leftmost occurrence of `pat` in `s` (Python's `s.find(pat)`, absent for -1). */
  function Find<T(==)>(s: seq<T>, pat: seq<T>): (r: Option<nat>)
    requires |pat| > 0
    ensures r.Some? <==> Contains(s, pat)
    ensures r.Some? ==> OccursAt(s, pat, r.value)
    ensures r.Some? ==> forall j :: 0 <= j < r.value ==> !OccursAt(s, pat, j)
  {
    FindFrom(s, pat, 0)
  }

  /** Python's `sep.join(parts)`. */
  function Join<T>(parts: seq<seq<T>>, sep: seq<T>): seq<T>
  {
    if |parts| == 0 then []
    else if |parts| == 1 then parts[0]
    else parts[0] + sep + Join(parts[1..], sep)
  }

  /** Joining one more part appends the separator and that part. */
  lemma {:induction false} JoinSnoc<T>(parts: seq<seq<T>>, last: seq<T>, sep: seq<T>)
    requires |parts| > 0
    ensures Join(parts + [last], sep) == Join(parts, sep) + sep + last
    decreases |parts|
  {
    if |parts| == 1 {
      assert (parts + [last])[1..] == [last];
    } else {
      assert (parts + [last])[1..] == parts[1..] + [last];
      JoinSnoc(parts[1..], last, sep);
    }
  }

  lemma JoinThree<T>(a: seq<T>, b: seq<T>, c: seq<T>, sep: seq<T>)
    ensures Join([a, b, c], sep) == a + sep + b + sep + c
  {
    assert [a, b, c][1..] == [b, c] && [b, c][1..] == [c];
    assert Join([b, c], sep) == b + sep + c;
  }

  lemma JoinFour<T>(a: seq<T>, b: seq<T>, c: seq<T>, d: seq<T>, sep: seq<T>)
    ensures Join([a, b, c, d], sep) == a + sep + b + sep + c + sep + d
  {
    assert [a, b, c, d][1..] == [b, c, d];
    JoinThree(b, c, d, sep);
    assert Join([a, b, c, d], sep) == a + sep + (b + sep + c + sep + d);
  }

  /**
   * Python's `s.split(sep)`: cut `s` at every leftmost non-overlapping
   * occurrence of `sep`. Joining the pieces back gives `s`, and no piece
   * contains the separator.
   */
  function Split<T(==)>(s: seq<T>, sep: seq<T>): (r: seq<seq<T>>)
    requires |sep| > 0
    ensures |r| >= 1
    ensures Join(r, sep) == s
    ensures forall k :: 0 <= k < |r| ==> !Contains(r[k], sep)
    decreases |s|
  {
    var f := Find(s, sep);
    if f.None? then [s]
    else
      var i := f.value;
      var head := s[..i];
      var rest := Split(s[i + |sep|..], sep);
      assert s == head + sep + s[i + |sep|..];
      PrefixBeforeFirstIsFree(s, sep, i);
      [head] + rest
  }

  /** `head` and `tail` are what precedes and what follows the leftmost occurrence of `sep` in `s`. */
  predicate CutAtFirst<T(==)>(s: seq<T>, sep: seq<T>, head: seq<T>, tail: seq<T>)
  {
    s == head + sep + tail && forall j :: 0 <= j < |head| ==> !OccursAt(s, sep, j)
  }

  /**
   * Python's `s.split(sep, 1)`: one piece when `sep` does not occur,
   * otherwise the text before and after its leftmost occurrence.
   */
  function SplitOnce<T(==)>(s: seq<T>, sep: seq<T>): (r: seq<seq<T>>)
    requires |sep| > 0
    ensures |r| == 1 <==> !Contains(s, sep)
    ensures |r| == 1 ==> r[0] == s
    ensures |r| != 1 ==> |r| == 2 && s == r[0] + sep + r[1] && !Contains(r[0], sep)
    ensures |r| == 2 ==> CutAtFirst(s, sep, r[0], r[1])
  {
    var f := Find(s, sep);
    if f.None? then [s]
    else
      var i := f.value;
      var head := s[..i];
      assert s == head + sep + s[i + |sep|..];
      PrefixBeforeFirstIsFree(s, sep, i);
      [head, s[i + |sep|..]]
  }

  /** The text before the leftmost occurrence of `sep` does not contain `sep`. */
  lemma PrefixBeforeFirstIsFree<T>(s: seq<T>, sep: seq<T>, i: nat)
    requires |sep| > 0 && i <= |s|
    requires forall j :: 0 <= j < i ==> !OccursAt(s, sep, j)
    ensures !Contains(s[..i], sep)
  {
    var head := s[..i];
    forall j | 0 <= j <= |head| ensures !OccursAt(head, sep, j) {
      if OccursAt(head, sep, j) {
        assert s[j..j + |sep|] == head[j..j + |sep|];
        assert OccursAt(s, sep, j);
      }
    }
  }

  /** When `a` cannot start an occurrence of `sep`, cutting `a + sep + b` yields `a` first. */
  lemma {:induction false} SplitAfterFirst<T>(a: seq<T>, sep: seq<T>, b: seq<T>)
    requires |sep| > 0
    requires sep[0] !in a
    ensures Split(a + sep + b, sep) == [a] + Split(b, sep)
  {
    var s := a + sep + b;
    assert OccursAt(s, sep, |a|) by { assert s[|a|..|a| + |sep|] == sep; }
    forall j | 0 <= j < |a| ensures !OccursAt(s, sep, j) {
      assert s[j] == a[j];
    }
    var f := Find(s, sep);
    assert f == Some(|a|);
    assert s[..|a|] == a;
    assert s[|a| + |sep|..] == b;
  }

  /** A sequence free of the separator's first element is a single piece. */
  lemma {:induction false} SplitNoSeparator<T>(a: seq<T>, sep: seq<T>)
    requires |sep| > 0
    requires sep[0] !in a
    ensures Split(a, sep) == [a]
  {
  }
}
