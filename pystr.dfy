/** The Python `str` operations `post_process` uses, over `seq<char>`:
    `split` on an explicit separator, indexing the list with `[0]` and
    `[-1]`, and `strip()` with no argument; plus `find`, on which `split` is
    built, and `join`, the inverse that pins `split` down. */
module PyStr {

  datatype Option<T> = None | Some(value: T)

  /** `d` occurs in `s` starting at index `i`. */
  predicate OccursAt(s: string, d: string, i: int)
  {
    0 <= i && i + |d| <= |s| && s[i..i + |d|] == d
  }

  /** Python's `d in s`. */
  predicate Contains(s: string, d: string)
  {
    exists i :: 0 <= i <= |s| - |d| && OccursAt(s, d, i)
  }

  /** No proper suffix of `d` starts with `d`'s first character, so two
      occurrences of `d` can never overlap. True of both response markers. */
  predicate HeadUnique(d: string)
  {
    d != [] && forall k :: 0 < k < |d| ==> d[k] != d[0]
  }

  /** The first index at or after `from` where `d` occurs, as `s.find(d, from)`
      computes it (with `None` for Python's -1). */
  function FindFrom(s: string, d: string, from: nat): (r: Option<nat>)
    decreases |s| - from
    ensures r.Some? ==> from <= r.value && OccursAt(s, d, r.value)
  {
    if from + |d| > |s| then None
    else if s[from..from + |d|] == d then Some(from)
    else FindFrom(s, d, from + 1)
  }

  function Find(s: string, d: string): (r: Option<nat>)
    ensures r.Some? ==> OccursAt(s, d, r.value)
  {
    FindFrom(s, d, 0)
  }

  /** `FindFrom` stops at the first occurrence at or after `from`, and gives
      `None` only when there is none. */
  lemma {:induction false} FindFromFirst(s: string, d: string, from: nat)
    decreases |s| - from
    ensures FindFrom(s, d, from).Some? ==>
      forall j :: from <= j < FindFrom(s, d, from).value ==> !OccursAt(s, d, j)
    ensures FindFrom(s, d, from).None? ==> forall j :: from <= j ==> !OccursAt(s, d, j)
  {
    if from + |d| > |s| {
    } else if s[from..from + |d|] == d {
    } else {
      FindFromFirst(s, d, from + 1);
    }
  }

  /** `s.find(d)` succeeds exactly when `d in s`, and then it is the first
      occurrence. */
  lemma FindFirst(s: string, d: string)
    ensures Find(s, d).Some? <==> Contains(s, d)
    ensures Find(s, d).Some? ==> forall j :: 0 <= j < Find(s, d).value ==> !OccursAt(s, d, j)
  {
    FindFromFirst(s, d, 0);
  }

  /** The first half of FindFirst on its own, for callers that need only
      whether `find` succeeds: it keeps FindFirst's quantified "no earlier
      occurrence" fact out of their proof context, where it makes the
      solver's search much larger. */
  lemma FindFound(s: string, d: string)
    ensures Find(s, d).Some? <==> Contains(s, d)
  {
    FindFirst(s, d);
  }

  /** Python's `s.split(d)` for a non-empty separator (an empty one raises
      `ValueError`): the pieces between successive non-overlapping occurrences
      of `d`, found left to right. */
  function Split(s: string, d: string): (r: seq<string>)
    requires d != []
    decreases |s|
    ensures |r| >= 1
  {
    match Find(s, d)
    case None => [s]
    case Some(i) => [s[..i]] + Split(s[i + |d|..], d)
  }

  /** Python's `d.join(pieces)`. */
  function Join(pieces: seq<string>, d: string): string
  {
    if |pieces| == 0 then ""
    else if |pieces| == 1 then pieces[0]
    else pieces[0] + d + Join(pieces[1..], d)
  }

  /** Python's `pieces[-1]` on a non-empty list. */
  function Last(pieces: seq<string>): string
    requires |pieces| > 0
  {
    pieces[|pieces| - 1]
  }

  /** Python's `str.isspace()` for one character: the ASCII controls
      `\t \n \x0b \x0c \r`, the separators `\x1c`..`\x1f`, the space, and the
      Unicode space characters. */
  predicate IsSpace(c: char)
  {
    var n := c as int;
    (9 <= n <= 13) || (28 <= n <= 32) || n == 0x85 || n == 0xA0 || n == 0x1680
    || (0x2000 <= n <= 0x200A) || n == 0x2028 || n == 0x2029 || n == 0x202F
    || n == 0x205F || n == 0x3000
  }

  predicate AllSpace(s: string)
  {
    forall k :: 0 <= k < |s| ==> IsSpace(s[k])
  }

  /** Neither the first nor the last character is whitespace. */
  predicate NoEdgeSpace(s: string)
  {
    s == [] || (!IsSpace(s[0]) && !IsSpace(s[|s| - 1]))
  }

  /** `r` is `s` with the whitespace `s[..i]` cut from the front and the
      whitespace after `r` cut from the back. */
  predicate TrimmedAt(s: string, r: string, i: int)
  {
    0 <= i && i + |r| <= |s| && s[i..i + |r|] == r && AllSpace(s[..i]) && AllSpace(s[i + |r|..])
  }

  /** Python's `s.lstrip()`. */
  function LStrip(s: string): (r: string)
    decreases |s|
    ensures |r| <= |s| && r == s[|s| - |r|..]
    ensures r == [] || !IsSpace(r[0])
  {
    if |s| > 0 && IsSpace(s[0]) then LStrip(s[1..]) else s
  }

  /** What `lstrip()` cuts is whitespace. */
  lemma {:induction false} LStripCutsSpace(s: string)
    decreases |s|
    ensures AllSpace(s[..|s| - |LStrip(s)|])
  {
    if |s| > 0 && IsSpace(s[0]) {
      LStripCutsSpace(s[1..]);
      var n := |s| - |LStrip(s)|;
      assert forall k :: 1 <= k < n ==> s[k] == s[1..][..n - 1][k - 1];
    }
  }

  /** Python's `s.rstrip()`. */
  function RStrip(s: string): (r: string)
    decreases |s|
    ensures |r| <= |s| && r == s[..|r|]
    ensures r == [] || !IsSpace(r[|r| - 1])
  {
    if |s| > 0 && IsSpace(s[|s| - 1]) then RStrip(s[..|s| - 1]) else s
  }

  /** What `rstrip()` cuts is whitespace. */
  lemma {:induction false} RStripCutsSpace(s: string)
    decreases |s|
    ensures AllSpace(s[|RStrip(s)|..])
  {
    if |s| > 0 && IsSpace(s[|s| - 1]) {
      var t := s[..|s| - 1];
      RStripCutsSpace(t);
      var n := |RStrip(s)|;
      assert forall k :: n <= k < |s| - 1 ==> s[k] == t[n..][k - n];
    }
  }

  /** Python's `s.strip()`: the result is what is left of `s` once the
      whitespace at both ends is cut, and it has no whitespace at either end. */
  function Strip(s: string): (r: string)
    ensures NoEdgeSpace(r)
    ensures TrimmedAt(s, r, |s| - |LStrip(s)|)
  {
    StripTrims(s);
    RStrip(LStrip(s))
  }


  // ---------------------------------------------------------------------
  // Lemmas about occurrences

  /** Nothing before the first occurrence of `d` contains `d`. */
  lemma PrefixBeforeFirstHasNone(s: string, d: string, i: nat)
    requires d != [] && i <= |s|
    requires forall j :: 0 <= j < i ==> !OccursAt(s, d, j)
    ensures !Contains(s[..i], d)
  {
    var u := s[..i];
    forall j | 0 <= j <= |u| - |d|
      ensures !OccursAt(u, d, j)
    {
      assert u[j..j + |d|] == s[j..j + |d|];
      assert !OccursAt(s, d, j);
    }
  }

  /** A piece of a string that does not contain `d` does not contain `d`. */
  lemma InfixHasNone(s: string, d: string, i: nat, n: nat)
    requires i + n <= |s|
    requires !Contains(s, d)
    ensures !Contains(s[i..i + n], d)
  {
    var u := s[i..i + n];
    forall j | 0 <= j <= |u| - |d|
      ensures !OccursAt(u, d, j)
    {
      SliceOfSlice(s, i, i + n, j, j + |d|);
      assert !OccursAt(s, d, i + j);
    }
  }

  /** A slice of a slice is a slice of the whole. */
  lemma SliceOfSlice(s: string, a: nat, b: nat, c: nat, e: nat)
    requires a <= b <= |s| && c <= e <= b - a
    ensures s[a..b][c..e] == s[a + c..a + e]
  {
    var u, v := s[a..b][c..e], s[a + c..a + e];
    assert forall k :: 0 <= k < |u| ==> u[k] == v[k];
  }

  /** Two occurrences of a head-unique string are equal or do not overlap. */
  lemma NoOverlap(s: string, d: string, i: int, j: int)
    requires HeadUnique(d) && OccursAt(s, d, i) && OccursAt(s, d, j) && i < j
    ensures i + |d| <= j
  {
    if j < i + |d| {
      CharOfOccurrence(s, d, i, j - i);
      CharOfOccurrence(s, d, j, 0);
      assert false;
    }
  }

  /** Each character of an occurrence of `d` is the matching character of `d`. */
  lemma CharOfOccurrence(s: string, d: string, i: int, k: int)
    requires OccursAt(s, d, i) && 0 <= k < |d|
    ensures s[i + k] == d[k]
  {
    assert s[i + k] == s[i..i + |d|][k];
  }

  /** A string without `d`'s first character does not contain `d`. */
  lemma NoHeadNoOccurrence(s: string, d: string)
    requires d != [] && d[0] !in s
    ensures !Contains(s, d)
  {
    forall j | 0 <= j <= |s| - |d|
      ensures !OccursAt(s, d, j)
    {
      assert s[j] in s;
      assert s[j..j + |d|][0] == s[j];
    }
  }

  /** Every string contains itself. */
  lemma ContainsSelf(n: string)
    ensures Contains(n, n)
  {
    assert OccursAt(n, n, 0);
  }

  /** A string contains what its right-hand part contains. */
  lemma ContainsInRight(x: string, y: string, n: string)
    requires Contains(y, n)
    ensures Contains(x + y, n)
  {
    var k :| 0 <= k <= |y| - |n| && OccursAt(y, n, k);
    assert (x + y)[|x| + k..|x| + k + |n|] == y[k..k + |n|];
    assert OccursAt(x + y, n, |x| + k);
  }

  /** A string contains what its left-hand part contains. */
  lemma ContainsInLeft(y: string, z: string, n: string)
    requires Contains(y, n)
    ensures Contains(y + z, n)
  {
    var k :| 0 <= k <= |y| - |n| && OccursAt(y, n, k);
    assert (y + z)[k..k + |n|] == y[k..k + |n|];
    assert OccursAt(y + z, n, k);
  }

  /** Dropping `m` and then `n` characters drops `m + n`. */
  lemma DropOfDrop(s: string, m: nat, n: nat)
    requires m + n <= |s|
    ensures s[m..][n..] == s[m + n..]
  {
  }

  /** A string is the text before an occurrence of `d`, then `d`, then the
      text after it. */
  lemma Decompose(s: string, d: string, i: int)
    requires OccursAt(s, d, i)
    ensures s == s[..i] + d + s[i + |d|..]
  {
    assert s == s[..i] + s[i..i + |d|] + s[i + |d|..];
  }

  // ---------------------------------------------------------------------
  // Lemmas about split

  /** One step of `split`: the piece before the first occurrence, then the
      split of what follows it. */
  lemma SplitStep(s: string, d: string)
    requires d != [] && Find(s, d).Some?
    ensures Split(s, d) == [s[..Find(s, d).value]] + Split(s[Find(s, d).value + |d|..], d)
  {
  }

  /** `split` with no occurrence to cut at. */
  lemma SplitNone(s: string, d: string)
    requires d != [] && Find(s, d).None?
    ensures Split(s, d) == [s]
  {
  }

  lemma LastCons(a: string, t: seq<string>)
    requires |t| >= 1
    ensures Last([a] + t) == Last(t)
  {
  }

  lemma JoinCons(a: string, t: seq<string>, d: string)
    requires |t| >= 1
    ensures Join([a] + t, d) == a + d + Join(t, d)
  {
    assert ([a] + t)[1..] == t;
  }

  lemma ConsHasNone(a: string, t: seq<string>, d: string)
    requires !Contains(a, d)
    requires forall k :: 0 <= k < |t| ==> !Contains(t[k], d)
    ensures forall k :: 0 <= k < |[a] + t| ==> !Contains(([a] + t)[k], d)
  {
    forall k | 0 <= k < |[a] + t|
      ensures !Contains(([a] + t)[k], d)
    {
      if k > 0 {
        assert ([a] + t)[k] == t[k - 1];
      }
    }
  }

  /** No piece of `s.split(d)` contains `d`. */
  lemma {:induction false} SplitPiecesHaveNone(s: string, d: string)
    requires d != []
    ensures forall k :: 0 <= k < |Split(s, d)| ==> !Contains(Split(s, d)[k], d)
    decreases |s|
  {
    if Find(s, d).Some? {
      var i := Find(s, d).value;
      var rest := s[i + |d|..];
      assert !Contains(s[..i], d) by {
        FindFirst(s, d);
        PrefixBeforeFirstHasNone(s, d, i);
      }
      SplitPiecesHaveNone(rest, d);
      SplitStep(s, d);
      ConsHasNone(s[..i], Split(rest, d), d);
    } else {
      FindFound(s, d);
      SplitNone(s, d);
    }
  }

  /** A string with no `d` is split into itself alone. */
  lemma SplitAbsent(s: string, d: string)
    requires d != [] && !Contains(s, d)
    ensures Split(s, d) == [s]
  {
    FindFound(s, d);
    SplitNone(s, d);
  }

  /** When the first occurrence of `d` in `a + d + b` is the one after `a`,
      `split` cuts there. */
  lemma SplitAtFirst(a: string, d: string, b: string)
    requires HeadUnique(d) && !Contains(a, d)
    ensures Split(a + d + b, d) == [a] + Split(b, d)
  {
    var s := a + d + b;
    assert s[|a|..|a| + |d|] == d;
    assert OccursAt(s, d, |a|);
    forall j | 0 <= j < |a|
      ensures !OccursAt(s, d, j)
    {
      if OccursAt(s, d, j) {
        if j + |d| <= |a| {
          assert s[j..j + |d|] == a[j..j + |d|];
          assert OccursAt(a, d, j);
        } else {
          NoOverlap(s, d, j, |a|);
        }
      }
    }
    FindFirst(s, d);
    var i := Find(s, d).value;
    assert i == |a| by {
      if i < |a| { } else if i > |a| { }
    }
    SplitStep(s, d);
    assert s[..|a|] == a;
    assert s[|a| + |d|..] == b;
  }

  /** `split` then `join` with the same separator gives the string back. */
  lemma {:induction false} JoinSplit(s: string, d: string)
    requires d != []
    ensures Join(Split(s, d), d) == s
    decreases |s|
  {
    if Find(s, d).Some? {
      var i := Find(s, d).value;
      var rest := s[i + |d|..];
      SplitStep(s, d);
      JoinSplit(rest, d);
      JoinCons(s[..i], Split(rest, d), d);
      Decompose(s, d, i);
    } else {
      SplitNone(s, d);
    }
  }

  /** The first piece of `s.split(d)` is the text before the first occurrence
      of `d`, or all of `s` when `d` does not occur. */
  lemma FirstPiece(s: string, d: string)
    requires d != []
    ensures var p := Split(s, d)[0];
      && p == s[..|p|]
      && (forall j :: 0 <= j < |p| ==> !OccursAt(s, d, j))
      && (Contains(s, d) ==> OccursAt(s, d, |p|))
      && (!Contains(s, d) ==> p == s)
  {
    FindFirst(s, d);
    if Find(s, d).Some? {
      SplitStep(s, d);
    } else {
      SplitNone(s, d);
    }
  }

  /** The last piece of `s.split(d)` is a suffix of `s`. (That it holds no
      `d` is SplitPiecesHaveNone.) */
  lemma {:induction false} LastPieceSuffix(s: string, d: string)
    requires d != []
    ensures |Last(Split(s, d))| <= |s|
    ensures Last(Split(s, d)) == s[|s| - |Last(Split(s, d))|..]
    decreases |s|
  {
    if Find(s, d).Some? {
      var i := Find(s, d).value;
      var rest := s[i + |d|..];
      SplitStep(s, d);
      LastCons(s[..i], Split(rest, d));
      LastPieceSuffix(rest, d);
      DropOfDrop(s, i + |d|, |rest| - |Last(Split(rest, d))|);
    } else {
      SplitNone(s, d);
    }
  }


  /** For a head-unique separator, the last piece of `s.split(d)` is exactly
      the text after the last occurrence of `d`. */
  lemma {:induction false} LastPieceAfterLast(a: string, d: string, q: string)
    requires HeadUnique(d) && !Contains(q, d)
    ensures Last(Split(a + d + q, d)) == q
    decreases |a|
  {
    var s := a + d + q;
    assert OccursAt(s, d, |a|) by {
      assert s[|a|..|a| + |d|] == d;
    }
    FindFound(s, d);
    var i := Find(s, d).value;
    assert i <= |a| by {
      FindFirst(s, d);
    }
    SplitStep(s, d);
    if i == |a| {
      assert Last(Split(s, d)) == q by {
        DropJoined(a, d, q, |a|);
        SplitAbsent(q, d);
        LastCons(s[..i], [q]);
      }
    } else {
      assert Last(Split(s, d)) == q by {
        NoOverlap(s, d, i, |a|);
        var a' := a[i + |d|..];
        DropJoined(a, d, q, i + |d|);
        LastPieceAfterLast(a', d, q);
        LastCons(s[..i], Split(a' + d + q, d));
      }
    }
  }

  /** Dropping a prefix of `a` from `a + d + q`. */
  lemma DropJoined(a: string, d: string, q: string, k: nat)
    requires k <= |a|
    ensures (a + d + q)[k..] == a[k..] + d + q
  {
  }

  // ---------------------------------------------------------------------
  // Lemmas about strip

  /** Cutting the front whitespace and then the back whitespace leaves a
      trim of `s` with no whitespace at its ends. */
  lemma StripTrims(s: string)
    ensures NoEdgeSpace(RStrip(LStrip(s)))
    ensures TrimmedAt(s, RStrip(LStrip(s)), |s| - |LStrip(s)|)
  {
    var l := LStrip(s);
    var r := RStrip(l);
    var i := |s| - |l|;
    assert NoEdgeSpace(r) by {
      if r != [] { assert r[0] == l[0]; }
    }
    assert AllSpace(s[..i]) by {
      LStripCutsSpace(s);
    }
    assert s[i..i + |r|] == r by {
      SliceOfSlice(s, i, |s|, 0, |r|);
    }
    assert AllSpace(s[i + |r|..]) by {
      RStripCutsSpace(l);
      SliceOfSlice(s, i, |s|, |r|, |l|);
      assert l[|r|..] == s[i + |r|..];
    }
    TrimmedAtIntro(s, r, i);
  }

  lemma TrimmedAtIntro(s: string, r: string, i: int)
    requires 0 <= i && i + |r| <= |s| && s[i..i + |r|] == r
    requires AllSpace(s[..i]) && AllSpace(s[i + |r|..])
    ensures TrimmedAt(s, r, i)
  {
  }


  /** `strip()` leaves a string with no whitespace at its ends unchanged. */
  lemma StripNoEdgeSpace(s: string)
    requires NoEdgeSpace(s)
    ensures Strip(s) == s
  {
  }

  /** What `strip()` returns is a piece of its input. */
  lemma StripHasNone(s: string, d: string)
    requires !Contains(s, d)
    ensures !Contains(Strip(s), d)
  {
    var i := |s| - |LStrip(s)|;
    InfixHasNone(s, d, i, |Strip(s)|);
  }

  /** `strip()` is determined by its contract: any piece of `s` that is cut
      from whitespace on both sides and has none at its ends is `Strip(s)`. */
  lemma StripUnique(s: string, r: string, i: int)
    requires TrimmedAt(s, r, i) && NoEdgeSpace(r)
    ensures r == Strip(s)
  {
    var t, i' := Strip(s), |s| - |LStrip(s)|;
    TrimWithin(s, r, i, t, i');
    TrimWithin(s, t, i', r, i);
  }

  /** A trim `r` with no whitespace at its ends lies inside every trim `t`
      of the same string. */
  lemma TrimWithin(s: string, r: string, i: int, t: string, i': int)
    requires TrimmedAt(s, r, i) && NoEdgeSpace(r) && TrimmedAt(s, t, i')
    ensures r != [] ==> i' <= i && i + |r| <= i' + |t|
  {
    if r != [] {
      var e := i + |r| - 1;
      assert s[i] == s[i..i + |r|][0];
      assert s[e] == s[i..i + |r|][|r| - 1];
      SpaceOutside(s, t, i', i);
      SpaceOutside(s, t, i', e);
    }
  }

  /** Every character a trim cuts away is whitespace. */
  lemma SpaceOutside(s: string, t: string, i': int, k: int)
    requires TrimmedAt(s, t, i')
    ensures 0 <= k < |s| && (k < i' || k >= i' + |t|) ==> IsSpace(s[k])
  {
    if 0 <= k < i' {
      assert s[..i'][k] == s[k];
    } else if i' + |t| <= k < |s| {
      assert s[i' + |t|..][k - i' - |t|] == s[k];
    }
  }

}
