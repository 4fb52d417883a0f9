/**
 * The Python string operations the download rules are built from, with
 * their laws: substring search (`str.index`, `str.rindex`), splitting
 * (`str.split`, `str.split(c, maxsplit=1)`) and `str.replace`.
 */
module Strings {
  import opened Types

  /** `p` occurs in `s` starting at index `i`. */
  predicate OccursAt(s: string, p: string, i: nat) {
    i + |p| <= |s| && s[i..i + |p|] == p
  }

  predicate Occurs(s: string, p: string) {
    exists i: nat :: i <= |s| && OccursAt(s, p, i)
  }

  /** `s.find(p, from)`: the first occurrence of `p` at or after `from`. */
  function FindFrom(s: string, p: string, from: nat): (r: Option<nat>)
    requires from <= |s|
    ensures r.Some? ==> from <= r.value && OccursAt(s, p, r.value)
    ensures forall j: nat :: from <= j && (r.None? || j < r.value) ==> !OccursAt(s, p, j)
    decreases |s| - from
  {
    if from + |p| > |s| then None
    else if s[from..from + |p|] == p then Some(from)
    else FindFrom(s, p, from + 1)
  }

  /** `s.find(c)` for one character: the index of its first occurrence. */
  function IndexOf(s: string, c: char): (r: Option<nat>)
    ensures r.Some? ==> r.value < |s| && s[r.value] == c && c !in s[..r.value]
    ensures r.None? <==> c !in s
  {
    if |s| == 0 then None
    else if s[0] == c then Some(0)
    else match IndexOf(s[1..], c)
      case None => None
      case Some(k) =>
        assert s[..k + 1] == [s[0]] + s[1..][..k];
        Some(k + 1)
  }

  /** `s.rfind(c)`: the index of the last occurrence of `c`. */
  function LastIndexOf(s: string, c: char): (r: Option<nat>)
    ensures r.Some? ==> r.value < |s| && s[r.value] == c && c !in s[r.value + 1..]
    ensures r.None? <==> c !in s
    decreases |s|
  {
    if |s| == 0 then None
    else if s[|s| - 1] == c then Some(|s| - 1)
    else
      var r := LastIndexOf(s[..|s| - 1], c);
      assert s == s[..|s| - 1] + [s[|s| - 1]];
      assert r.Some? ==> s[r.value + 1..] == s[..|s| - 1][r.value + 1..] + [s[|s| - 1]];
      r
  }

  /** The first `c` of `a + [c] + b` is the one after `a` when `a` holds none. */
  lemma IndexOfAfter(a: string, c: char, b: string)
    requires c !in a
    ensures IndexOf(a + [c] + b, c) == Some(|a|)
  {
    var s := a + [c] + b;
    assert s[|a|] == c;
    var k := IndexOf(s, c).value;
    forall i | 0 <= i < k
      ensures s[i] != c
    {
      assert s[..k][i] == s[i];
    }
    forall i | 0 <= i < |a|
      ensures s[i] != c
    {
      assert s[i] == a[i];
    }
    assert k == |a|;
  }

  /** The last `c` of `a + [c] + b` is the one after `a` when `b` holds none. */
  lemma {:induction false} LastIndexOfBefore(a: string, c: char, b: string)
    requires c !in b
    ensures LastIndexOf(a + [c] + b, c) == Some(|a|)
    decreases |b|
  {
    var s := a + [c] + b;
    if |b| == 0 {
      assert s[|s| - 1] == c;
    } else {
      var front := b[..|b| - 1];
      assert s[|s| - 1] == b[|b| - 1] != c;
      assert s[..|s| - 1] == a + [c] + front;
      assert forall x :: x in front ==> x in b;
      LastIndexOfBefore(a, c, front);
    }
  }

  /** `p` occurs at `i` and nowhere before it. */
  predicate FirstAt(s: string, p: string, i: nat) {
    OccursAt(s, p, i) && forall j: nat :: j < i ==> !OccursAt(s, p, j)
  }

  /** `s.split(c)` for a one-character separator. */
  function Split(s: string, c: char): (parts: seq<string>)
    ensures |parts| >= 1
    decreases |s|
  {
    match IndexOf(s, c)
    case None => [s]
    case Some(k) => [s[..k]] + Split(s[k + 1..], c)
  }

  /** `c.join(parts)`, the inverse of `Split`. */
  function Join(parts: seq<string>, c: char): string
    requires |parts| >= 1
  {
    if |parts| == 1 then parts[0] else parts[0] + [c] + Join(parts[1..], c)
  }

  lemma {:induction false} JoinSplit(s: string, c: char)
    ensures Join(Split(s, c), c) == s
    decreases |s|
  {
    match IndexOf(s, c)
    case None =>
    case Some(k) =>
      var a, b := s[..k], s[k + 1..];
      assert s == a + [c] + b;
      SplitCons(a, c, b);
      JoinCons(a, Split(b, c), c);
      JoinSplit(b, c);
  }

  lemma JoinCons(x: string, parts: seq<string>, c: char)
    requires |parts| >= 1
    ensures Join([x] + parts, c) == x + [c] + Join(parts, c)
  {
    assert ([x] + parts)[1..] == parts;
  }

  /** Splitting at the first separator peels off the first part. */
  lemma SplitCons(a: string, c: char, b: string)
    requires c !in a
    ensures Split(a + [c] + b, c) == [a] + Split(b, c)
  {
    var s := a + [c] + b;
    IndexOfAfter(a, c, b);
    assert s[..|a|] == a;
    assert s[|a| + 1..] == b;
  }

  lemma {:induction false} SplitJoin(parts: seq<string>, c: char)
    requires |parts| >= 1
    requires forall k :: 0 <= k < |parts| ==> c !in parts[k]
    ensures Split(Join(parts, c), c) == parts
  {
    if |parts| > 1 {
      var rest := Join(parts[1..], c);
      SplitCons(parts[0], c, rest);
      SplitJoin(parts[1..], c);
      assert parts == [parts[0]] + parts[1..];
    }
  }

  /**
   * `s.split(c, maxsplit=1)`: the text before the first `c`, and the text
   * after it when `c` occurs.
   */
  function SplitOnce(s: string, c: char): (r: (string, Option<string>))
    ensures r.1.None? <==> c !in s
    ensures r.1.None? ==> r.0 == s
    ensures r.1.Some? ==> s == r.0 + [c] + r.1.value && c !in r.0
  {
    match IndexOf(s, c)
    case None => (s, None)
    case Some(k) =>
      assert s == s[..k] + [c] + s[k + 1..];
      (s[..k], Some(s[k + 1..]))
  }

  /** `s.replace("", r)`: `r` before every character and once more at the end. */
  function Interleave(s: string, r: string): string
  {
    if |s| == 0 then r else r + [s[0]] + Interleave(s[1..], r)
  }

  /**
   * `s.replace(p, r)`: scan from the left and replace every occurrence of `p`
   * that does not overlap an occurrence already replaced.
   */
  function ReplaceAll(s: string, p: string, r: string): string
    decreases |s|
  {
    if |p| == 0 then Interleave(s, r)
    else if |s| < |p| then s
    else if s[..|p|] == p then r + ReplaceAll(s[|p|..], p, r)
    else [s[0]] + ReplaceAll(s[1..], p, r)
  }

  /** Replacing a pattern that does not occur changes nothing. */
  lemma {:induction false} ReplaceAllNoMatch(s: string, p: string, r: string)
    requires |p| > 0 && !Occurs(s, p)
    ensures ReplaceAll(s, p, r) == s
    decreases |s|
  {
    if |s| >= |p| {
      assert !OccursAt(s, p, 0);
      forall i: nat | OccursAt(s[1..], p, i)
        ensures OccursAt(s, p, i + 1)
      {
        assert s[i + 1..i + 1 + |p|] == s[1..][i..i + |p|];
      }
      ReplaceAllNoMatch(s[1..], p, r);
    }
  }

  /**
   * A character that cannot be part of the pattern splits the replacement:
   * both sides are rewritten on their own.
   */
  lemma {:induction false} ReplaceAllAround(a: string, c: char, b: string, p: string, r: string)
    requires |p| > 0 && c !in p
    ensures ReplaceAll(a + [c] + b, p, r) == ReplaceAll(a, p, r) + [c] + ReplaceAll(b, p, r)
    decreases |a|
  {
    var s := a + [c] + b;
    if |s| < |p| {
      ReplaceAllShort(s, p, r);
      ReplaceAllShort(a, p, r);
      ReplaceAllShort(b, p, r);
    } else if |a| == 0 {
      AroundEmpty(a, c, b, p);
      ReplaceAllCons(s, p, r);
      ReplaceAllShort(a, p, r);
    } else if OccursAt(s, p, 0) {
      AroundMatch(a, c, b, p);
      ReplaceAllAtFront(s, p, r);
      ReplaceAllAtFront(a, p, r);
      ReplaceAllAround(a[|p|..], c, b, p, r);
      AppendAssoc4(r, ReplaceAll(a[|p|..], p, r), [c], ReplaceAll(b, p, r));
    } else {
      AroundSkip(a, c, b, p);
      ReplaceAllCons(s, p, r);
      ReplaceAllCons(a, p, r);
      ReplaceAllAround(a[1..], c, b, p, r);
      AppendAssoc4([a[0]], ReplaceAll(a[1..], p, r), [c], ReplaceAll(b, p, r));
    }
  }

  /** A text shorter than the pattern is left as it is. */
  lemma ReplaceAllShort(s: string, p: string, r: string)
    requires 0 < |p| && |s| < |p|
    ensures ReplaceAll(s, p, r) == s
  {
  }

  lemma AroundEmpty(a: string, c: char, b: string, p: string)
    requires |a| == 0 && c !in p && |p| > 0
    ensures a + [c] + b == [c] + b && !OccursAt(a + [c] + b, p, 0)
  {
    var s := a + [c] + b;
    assert s[0] == c;
    if |p| <= |s| {
      assert s[0..|p|][0] == c;
    }
  }

  lemma AroundMatch(a: string, c: char, b: string, p: string)
    requires |p| > 0 && c !in p && OccursAt(a + [c] + b, p, 0)
    ensures |a| >= |p| && OccursAt(a, p, 0)
    ensures (a + [c] + b)[|p|..] == a[|p|..] + [c] + b
  {
    var s := a + [c] + b;
    assert s[|a|] == c;
    assert |a| >= |p|;
    assert a[0..|p|] == s[0..|p|];
  }

  lemma AroundSkip(a: string, c: char, b: string, p: string)
    requires |a| > 0 && !OccursAt(a + [c] + b, p, 0)
    ensures !OccursAt(a, p, 0) && (a + [c] + b)[1..] == a[1..] + [c] + b
  {
    var s := a + [c] + b;
    if |p| <= |a| {
      assert a[0..|p|] == s[0..|p|];
    }
  }

  lemma AppendAssoc4(a: string, b: string, c: string, d: string)
    ensures a + (b + c + d) == (a + b) + c + d
  {
  }

  /** An occurrence at the front is replaced, and the scan goes on after it. */
  lemma ReplaceAllAtFront(s: string, p: string, r: string)
    requires |p| > 0 && OccursAt(s, p, 0)
    ensures ReplaceAll(s, p, r) == r + ReplaceAll(s[|p|..], p, r)
  {
    assert s[..|p|] == p;
  }

  /** Without an occurrence at the front, the scan keeps the first character. */
  lemma ReplaceAllCons(s: string, p: string, r: string)
    requires |p| > 0 && |s| > 0 && !OccursAt(s, p, 0)
    ensures ReplaceAll(s, p, r) == [s[0]] + ReplaceAll(s[1..], p, r)
  {
    if |s| < |p| {
      ReplaceAllShort(s[1..], p, r);
      assert s == [s[0]] + s[1..];
    } else {
      assert s[..|p|] == s[0..|p|];
    }
  }

  /** Occurrences in the tail are the occurrences in the text, one place to the left. */
  lemma OccursAtTail(s: string, p: string, j: nat)
    requires |s| > 0
    ensures OccursAt(s[1..], p, j) <==> OccursAt(s, p, j + 1)
  {
    if j + 1 + |p| <= |s| {
      assert s[1..][j..j + |p|] == s[j + 1..j + 1 + |p|];
    }
  }

  /**
   * A prefix in which no occurrence starts is kept as it is (`b` is at
   * least as long as the pattern, so the scan never stops inside `a`).
   */
  lemma {:induction false} ReplaceAllKeepsPrefix(a: string, b: string, p: string, r: string)
    requires |p| > 0 && |p| <= |b|
    requires forall j :: 0 <= j < |a| ==> !OccursAt(a + b, p, j)
    ensures ReplaceAll(a + b, p, r) == a + ReplaceAll(b, p, r)
    decreases |a|
  {
    if |a| == 0 {
      assert a + b == b;
    } else {
      var s := a + b;
      assert !OccursAt(s, p, 0);
      ReplaceAllCons(s, p, r);
      assert s[1..] == a[1..] + b;
      forall j | 0 <= j < |a| - 1
        ensures !OccursAt(a[1..] + b, p, j)
      {
        assert !OccursAt(s, p, j + 1);
        OccursAtTail(s, p, j);
      }
      ReplaceAllKeepsPrefix(a[1..], b, p, r);
      AppendCons(a, ReplaceAll(b, p, r));
    }
  }

  lemma AppendCons(a: string, t: string)
    requires |a| > 0
    ensures [a[0]] + (a[1..] + t) == a + t
  {
    assert a == [a[0]] + a[1..];
  }

  lemma AppendAssoc(a: string, b: string, c: string)
    ensures a + (b + c) == a + b + c
  {
  }

  /** `ReplaceAllKeepsPrefix` for the prefix of `s` of length `i`. */
  lemma ReplaceAllKeepsPrefixOf(s: string, p: string, r: string, i: nat)
    requires |p| > 0 && i + |p| <= |s|
    requires forall j :: 0 <= j < i ==> !OccursAt(s, p, j)
    ensures ReplaceAll(s, p, r) == s[..i] + ReplaceAll(s[i..], p, r)
  {
    assert s == s[..i] + s[i..];
    ReplaceAllKeepsPrefix(s[..i], s[i..], p, r);
  }

  /** The occurrence at `i` is at the front of `s[i..]`. */
  lemma OccursAtDrop(s: string, p: string, i: nat)
    requires OccursAt(s, p, i)
    ensures OccursAt(s[i..], p, 0) && s[i..][|p|..] == s[i + |p|..]
  {
    assert s[i..][0..|p|] == s[i..i + |p|];
  }

  /**
   * The scan replaces the first occurrence first: everything before it is
   * kept, and the rest of the text after it is rewritten on its own.
   */
  lemma ReplaceAllFirst(s: string, p: string, r: string, i: nat)
    requires |p| > 0 && FirstAt(s, p, i)
    ensures ReplaceAll(s, p, r) == s[..i] + r + ReplaceAll(s[i + |p|..], p, r)
  {
    ReplaceAllKeepsPrefixOf(s, p, r, i);
    OccursAtDrop(s, p, i);
    ReplaceAllAtFront(s[i..], p, r);
    AppendAssoc(s[..i], r, ReplaceAll(s[i + |p|..], p, r));
  }

  lemma {:induction false} InterleaveKeepsCharOut(s: string, c: char, r: string)
    requires c !in s && c !in r
    ensures c !in Interleave(s, r)
  {
    if |s| > 0 {
      InterleaveKeepsCharOut(s[1..], c, r);
    }
  }

  /** A character in neither the text nor the replacement is not in the result. */
  lemma {:induction false} ReplaceAllKeepsCharOut(s: string, c: char, p: string, r: string)
    requires c !in s && c !in r
    ensures c !in ReplaceAll(s, p, r)
    decreases |s|
  {
    if |p| == 0 {
      InterleaveKeepsCharOut(s, c, r);
    } else if |s| >= |p| {
      if s[..|p|] == p {
        ReplaceAllKeepsCharOut(s[|p|..], c, p, r);
      } else {
        ReplaceAllKeepsCharOut(s[1..], c, p, r);
      }
    }
  }

  /** Replacing one character by one character maps the text character by character. */
  lemma {:induction false} ReplaceAllChar(s: string, p: string, r: string)
    requires |p| == 1 && |r| == 1
    ensures |ReplaceAll(s, p, r)| == |s|
    ensures forall i :: 0 <= i < |s| ==>
              ReplaceAll(s, p, r)[i] == if s[i] == p[0] then r[0] else s[i]
    decreases |s|
  {
    if |s| > 0 {
      ReplaceAllChar(s[1..], p, r);
      assert s[..1] == p <==> s[0] == p[0];
    }
  }

  /** Each part rewritten by `ReplaceAll`, in order. */
  function ReplaceEach(parts: seq<string>, p: string, r: string): (res: seq<string>)
    ensures |res| == |parts|
  {
    seq(|parts|, i requires 0 <= i < |parts| => ReplaceAll(parts[i], p, r))
  }

  lemma ReplaceEachCons(x: string, xs: seq<string>, p: string, r: string)
    ensures ReplaceEach([x] + xs, p, r) == [ReplaceAll(x, p, r)] + ReplaceEach(xs, p, r)
  {
    var lhs, rhs := ReplaceEach([x] + xs, p, r), [ReplaceAll(x, p, r)] + ReplaceEach(xs, p, r);
    forall i | 0 <= i < |lhs|
      ensures lhs[i] == rhs[i]
    {
      if i > 0 {
        assert ([x] + xs)[i] == xs[i - 1];
      }
    }
  }

  /**
   * When neither the pattern nor its replacement holds the separator, the
   * replacement works part by part: the split of the result is the split of
   * the text with every part rewritten, so the number of parts and their
   * order are kept.
   */
  lemma {:induction false} SplitReplaceAll(s: string, c: char, p: string, r: string)
    requires |p| > 0 && c !in p && c !in r
    ensures Split(ReplaceAll(s, p, r), c) == ReplaceEach(Split(s, c), p, r)
    decreases |s|
  {
    match IndexOf(s, c)
    case None =>
      ReplaceAllKeepsCharOut(s, c, p, r);
      assert IndexOf(ReplaceAll(s, p, r), c) == None;
      ReplaceEachCons(s, [], p, r);
      assert [s] + [] == [s];
    case Some(k) =>
      var a, b := s[..k], s[k + 1..];
      assert s == a + [c] + b;
      assert Split(s, c) == [a] + Split(b, c);
      ReplaceAllAround(a, c, b, p, r);
      ReplaceAllKeepsCharOut(a, c, p, r);
      var ra, rb := ReplaceAll(a, p, r), ReplaceAll(b, p, r);
      var t := ra + [c] + rb;
      assert ReplaceAll(s, p, r) == t;
      IndexOfAfter(ra, c, rb);
      assert t[..|ra|] == ra;
      assert t[|ra| + 1..] == rb;
      assert Split(t, c) == [ra] + Split(rb, c);
      SplitReplaceAll(b, c, p, r);
      ReplaceEachCons(a, Split(b, c), p, r);
  }
}
