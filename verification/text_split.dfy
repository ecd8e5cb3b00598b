/**
 * JavaScript's `String.prototype.split` with a non-empty string separator,
 * and `Array.prototype.join`, as used by message rendering and by the email
 * grammar.
 */
module TextSplit {
  import opened Wrappers

  /** `sep` occurs in `s` starting at index `i`. */
  predicate OccursAt(s: string, sep: string, i: int) {
    0 <= i && i + |sep| <= |s| && s[i..i + |sep|] == sep
  }

  predicate Contains(s: string, sep: string) {
    exists i :: 0 <= i <= |s| && OccursAt(s, sep, i)
  }

  /** The leftmost occurrence of `sep` at or after `from`. */
  function FirstOccurrenceFrom(s: string, sep: string, from: nat): (r: Option<nat>)
    requires from <= |s|
    ensures r.Some? ==> from <= r.value && OccursAt(s, sep, r.value)
    ensures r.Some? ==> forall j :: from <= j < r.value ==> !OccursAt(s, sep, j)
    ensures r.None? ==> forall j :: from <= j <= |s| ==> !OccursAt(s, sep, j)
    decreases |s| - from
  {
    if from + |sep| > |s| then None
    else if s[from..from + |sep|] == sep then Some(from)
    else FirstOccurrenceFrom(s, sep, from + 1)
  }

  /** An occurrence inside a prefix is an occurrence in the whole string. */
  lemma OccursInPrefix(s: string, sep: string, n: nat, j: int)
    requires n <= |s| && OccursAt(s[..n], sep, j)
    ensures OccursAt(s, sep, j)
  {
    assert s[..n][j..j + |sep|] == s[j..j + |sep|];
  }

  /** An occurrence inside a suffix is an occurrence in the whole string, shifted. */
  lemma OccursInSuffix(s: string, sep: string, n: nat, j: int)
    requires n <= |s| && OccursAt(s[n..], sep, j)
    ensures OccursAt(s, sep, n + j)
  {
    assert s[n..][j..j + |sep|] == s[n + j..n + j + |sep|];
  }

  /** An occurrence that lies within the first `n` characters is one of the prefix. */
  lemma OccursInPrefixBack(s: string, sep: string, n: nat, j: int)
    requires n <= |s| && OccursAt(s, sep, j) && j + |sep| <= n
    ensures OccursAt(s[..n], sep, j)
  {
    assert s[..n][j..j + |sep|] == s[j..j + |sep|];
  }

  /** An occurrence with none before it is the leftmost one. */
  lemma FirstOccurrenceIs(t: string, sep: string, i: nat)
    requires OccursAt(t, sep, i) && forall j :: 0 <= j < i ==> !OccursAt(t, sep, j)
    ensures FirstOccurrenceFrom(t, sep, 0) == Some(i)
  {
  }

  /** Every piece but the last, followed by the separator, first shows the separator at its end. */
  predicate CutsLeftmost(r: seq<string>, sep: string) {
    forall k :: 0 <= k < |r| - 1 ==> FirstOccurrenceFrom(r[k] + sep, sep, 0) == Some(|r[k]|)
  }

  /**
   * `s.split(sep)`: the pieces between the leftmost non-overlapping
   * occurrences of `sep`.  No piece contains the separator.
   */
  function Split(s: string, sep: string): (r: seq<string>)
    requires |sep| > 0
    ensures |r| >= 1
    ensures forall k :: 0 <= k < |r| ==> !Contains(r[k], sep)
    decreases |s|
  {
    match FirstOccurrenceFrom(s, sep, 0)
    case None =>
      [s]
    case Some(i) =>
      var head := s[..i];
      assert !Contains(head, sep) by {
        forall j | 0 <= j <= |head| && OccursAt(head, sep, j)
          ensures false
        {
          OccursInPrefix(s, sep, i, j);
        }
      }
      [head] + Split(s[i + |sep|..], sep)
  }

  /** Each cut of a split is made at the first occurrence after the previous one. */
  lemma {:induction false} SplitCutsLeftmost(s: string, sep: string)
    requires |sep| > 0
    ensures CutsLeftmost(Split(s, sep), sep)
    decreases |s|
  {
    match FirstOccurrenceFrom(s, sep, 0)
    case None =>
    case Some(i) =>
      var head := s[..i];
      assert FirstOccurrenceFrom(head + sep, sep, 0) == Some(i) by {
        assert head + sep == s[..i + |sep|];
        forall j | 0 <= j < i ensures !OccursAt(head + sep, sep, j) {
          if OccursAt(head + sep, sep, j) {
            OccursInPrefix(s, sep, i + |sep|, j);
          }
        }
        FirstOccurrenceIs(head + sep, sep, i);
      }
      var tail := Split(s[i + |sep|..], sep);
      SplitCutsLeftmost(s[i + |sep|..], sep);
      var r := Split(s, sep);
      assert r == [head] + tail;
      forall k | 0 <= k < |r| - 1 ensures FirstOccurrenceFrom(r[k] + sep, sep, 0) == Some(|r[k]|) {
        if k > 0 {
          assert r[k] == tail[k - 1];
        }
      }
  }

  /** `"````".split("```")` is `["", "`"]`: the fence is cut at the first backtick, not the second. */
  lemma SplitFourBackticks()
    ensures Split("````", "```") == ["", "`"]
  {
    assert OccursAt("````", "```", 0);
    FirstOccurrenceIs("````", "```", 0);
    assert "````"[3..] == "`";
  }

  /** A piece that is cut at its end comes off the front of a split whole. */
  lemma SplitCons(a: string, sep: string, b: string)
    requires |sep| > 0 && FirstOccurrenceFrom(a + sep, sep, 0) == Some(|a|)
    ensures Split(a + sep + b, sep) == [a] + Split(b, sep)
  {
    var s := a + sep + b;
    var n := |a| + |sep|;
    assert s[..n] == a + sep && s[..|a|] == a && s[n..] == b;
    assert s[|a|..n] == sep;
    forall j | 0 <= j < |a| ensures !OccursAt(s, sep, j) {
      if OccursAt(s, sep, j) {
        OccursInPrefixBack(s, sep, n, j);
      }
    }
    FirstOccurrenceIs(s, sep, |a|);
  }

  /** With a one-character separator, a piece free of it is cut at its end. */
  lemma SingleSeparatorCut(a: string, sep: string)
    requires |sep| == 1 && !Contains(a, sep)
    ensures FirstOccurrenceFrom(a + sep, sep, 0) == Some(|a|)
  {
    var t := a + sep;
    assert t[..|a|] == a && t[|a|..|a| + 1] == sep;
    forall j | 0 <= j < |a| ensures !OccursAt(t, sep, j) {
      if OccursAt(t, sep, j) {
        OccursInPrefixBack(t, sep, |a|, j);
      }
    }
    FirstOccurrenceIs(t, sep, |a|);
  }

  /**
   * The split is the only decomposition of `s` into pieces joined by `sep`
   * whose cuts are leftmost and whose last piece is free of the separator.
   */
  lemma {:induction false} SplitUnique(r: seq<string>, s: string, sep: string)
    requires |sep| > 0 && |r| >= 1 && Join(r, sep) == s
    requires CutsLeftmost(r, sep) && !Contains(r[|r| - 1], sep)
    ensures r == Split(s, sep)
    decreases |r|
  {
    if |r| == 1 {
      SplitWithoutSeparator(s, sep);
    } else {
      var rest := r[1..];
      assert Join(r, sep) == r[0] + sep + Join(rest, sep);
      assert CutsLeftmost(rest, sep) by {
        forall k | 0 <= k < |rest| - 1 ensures FirstOccurrenceFrom(rest[k] + sep, sep, 0) == Some(|rest[k]|) {
          assert rest[k] == r[k + 1];
        }
      }
      assert rest[|rest| - 1] == r[|r| - 1];
      SplitUnique(rest, Join(rest, sep), sep);
      SplitCons(r[0], sep, Join(rest, sep));
      assert r == [r[0]] + rest;
    }
  }

  /** `parts.join(sep)`. */
  function Join(parts: seq<string>, sep: string): string
    decreases |parts|
  {
    if |parts| == 0 then ""
    else if |parts| == 1 then parts[0]
    else parts[0] + sep + Join(parts[1..], sep)
  }

  /** Joining the pieces of a split with the same separator gives back the string. */
  lemma {:induction false} SplitJoin(s: string, sep: string)
    requires |sep| > 0
    ensures Join(Split(s, sep), sep) == s
    decreases |s|
  {
    match FirstOccurrenceFrom(s, sep, 0)
    case None =>
    case Some(i) =>
      var head, rest := s[..i], s[i + |sep|..];
      var tail := Split(rest, sep);
      assert Split(s, sep) == [head] + tail;
      SplitJoin(rest, sep);
      assert ([head] + tail)[1..] == tail;
      assert Join([head] + tail, sep) == head + sep + Join(tail, sep);
      assert s[i..i + |sep|] == sep;
      assert s == head + s[i..i + |sep|] + rest;
  }

  /** Splitting a string that does not contain the separator gives the string alone. */
  lemma SplitWithoutSeparator(s: string, sep: string)
    requires |sep| > 0
    ensures !Contains(s, sep) ==> Split(s, sep) == [s]
  {
    match FirstOccurrenceFrom(s, sep, 0)
    case None =>
    case Some(i) =>
      assert OccursAt(s, sep, i);
  }

  /** The last piece of a split ends the string. */
  lemma {:induction false} SplitLastIsSuffix(s: string, sep: string)
    requires |sep| > 0
    ensures var r := Split(s, sep); |r[|r| - 1]| <= |s| && s[|s| - |r[|r| - 1]|..] == r[|r| - 1]
    decreases |s|
  {
    match FirstOccurrenceFrom(s, sep, 0)
    case None =>
    case Some(i) =>
      var head, rest := s[..i], s[i + |sep|..];
      var tail := Split(rest, sep);
      assert Split(s, sep) == [head] + tail;
      SplitLastIsSuffix(rest, sep);
      var last := tail[|tail| - 1];
      assert ([head] + tail)[|tail|] == last;
      assert s[|s| - |last|..] == rest[|rest| - |last|..];
  }

  /** The number of occurrences of `c` in `s`. */
  function Count(s: string, c: char): nat
    decreases |s|
  {
    if |s| == 0 then 0 else (if s[0] == c then 1 else 0) + Count(s[1..], c)
  }

  lemma {:induction false} CountAppend(a: string, b: string, c: char)
    ensures Count(a + b, c) == Count(a, c) + Count(b, c)
    decreases |a|
  {
    if |a| == 0 {
      assert a + b == b;
    } else {
      assert (a + b)[0] == a[0];
      assert (a + b)[1..] == a[1..] + b;
      CountAppend(a[1..], b, c);
    }
  }

  lemma {:induction false} CountAbsent(s: string, c: char)
    requires forall j :: 0 <= j < |s| ==> s[j] != c
    ensures Count(s, c) == 0
    decreases |s|
  {
    if |s| > 0 {
      CountAbsent(s[1..], c);
    }
  }

  /** Splitting on one character yields one more piece than there are occurrences of it. */
  lemma {:induction false} SplitCharCount(s: string, c: char)
    ensures |Split(s, [c])| == Count(s, c) + 1
    decreases |s|
  {
    var sep := [c];
    match FirstOccurrenceFrom(s, sep, 0)
    case None =>
      forall j | 0 <= j < |s|
        ensures s[j] != c
      {
        assert !OccursAt(s, sep, j);
        assert s[j..j + 1] == [s[j]];
      }
      CountAbsent(s, c);
    case Some(i) =>
      var head := s[..i];
      var rest := s[i + 1..];
      forall j | 0 <= j < |head|
        ensures head[j] != c
      {
        assert !OccursAt(s, sep, j);
        assert s[j..j + 1] == [s[j]];
      }
      CountAbsent(head, c);
      SplitCharCount(rest, c);
      assert s == head + sep + rest;
      CountAppend(head, sep, c);
      CountAppend(head + sep, rest, c);
  }
}
