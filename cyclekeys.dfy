/**
 * The canonical cycle keys of the earlier engine (`graph.ts`): a cycle is
 * rotated so that its smallest node comes first, the same is done to the
 * reversed cycle, both are written as comma-separated decimal strings, and
 * the smaller string in JavaScript's code-unit order is the key.
 */
module CycleKeys {
  import opened Adjacency

  /** An index `x < 2n` brought back into `0 .. n - 1`. */
  function Wrap(x: nat, n: nat): nat
    requires x < 2 * n
  {
    if x < n then x else x - n
  }

  /**
   * `s.slice(i).concat(s.slice(0, i))`: the entries from position `i` on,
   * followed by those before it.
   */
  function Rotate(s: seq<nat>, i: nat): (r: seq<nat>)
    requires i <= |s|
    ensures |r| == |s|
    ensures forall j :: 0 <= j < |s| - i ==> r[j] == s[i + j]
    ensures forall j :: |s| - i <= j < |s| ==> r[j] == s[j - (|s| - i)]
  {
    seq(|s|, j requires 0 <= j < |s| => if i + j < |s| then s[i + j] else s[i + j - |s|])
  }

  /** The rotation is the source's `s.slice(i).concat(s.slice(0, i))`. */
  lemma RotateIsSlices(s: seq<nat>, i: nat)
    requires i <= |s|
    ensures Rotate(s, i) == s[i..] + s[..i]
  {
  }

  lemma RotateMultiset(s: seq<nat>, i: nat)
    requires i <= |s|
    ensures multiset(Rotate(s, i)) == multiset(s)
  {
    RotateIsSlices(s, i);
    assert s == s[..i] + s[i..];
  }

  lemma RotateAt(s: seq<nat>, i: nat, j: nat)
    requires i < |s| && j < |s|
    ensures Rotate(s, i)[j] == s[Wrap(i + j, |s|)]
  {
  }

  /** `Math.min(...s)` on a nonempty list. */
  function MinOf(s: seq<nat>): (m: nat)
    requires s != []
    ensures m in s && forall x :: x in s ==> m <= x
  {
    if |s| == 1 then s[0]
    else
      var rest := MinOf(s[1..]);
      assert forall x :: x in s ==> x == s[0] || x in s[1..];
      if s[0] <= rest then s[0] else rest
  }

  /** `s.indexOf(x)` for a member: its first position. */
  function IndexOf(s: seq<nat>, x: nat): (i: nat)
    requires x in s
    ensures i < |s| && s[i] == x && x !in s[..i]
  {
    if s[0] == x then 0
    else
      var k := IndexOf(s[1..], x);
      assert s[..k + 1] == [s[0]] + s[1..][..k];
      k + 1
  }

  /**
   * `rotateToMin`: the rotation that starts at the first occurrence of the
   * minimum. On the empty list `Math.min` is `Infinity`, `indexOf` gives -1
   * and both slices are empty, so the result is empty too.
   */
  function RotateToMin(s: seq<nat>): seq<nat> {
    if s == [] then [] else Rotate(s, IndexOf(s, MinOf(s)))
  }

  /**
   * `rotateToMin` returns a rotation of its input by less than its length:
   * the same entries, the same length, and a first entry no larger than any.
   */
  lemma RotateToMinSpec(s: seq<nat>) returns (i: nat)
    requires s != []
    ensures i < |s| && RotateToMin(s) == Rotate(s, i)
    ensures |RotateToMin(s)| == |s| && multiset(RotateToMin(s)) == multiset(s)
    ensures forall x :: x in s ==> RotateToMin(s)[0] <= x
  {
    i := IndexOf(s, MinOf(s));
    RotateMultiset(s, i);
  }

  /** The decimal digits of `n`, as `String(n)` writes them. */
  function NatToString(n: nat): (r: string)
    ensures r != [] && forall k :: 0 <= k < |r| ==> '0' <= r[k] <= '9'
    decreases n
  {
    if n < 10 then ["0123456789"[n]]
    else NatToString(n / 10) + ["0123456789"[n % 10]]
  }

  /** The value of a decimal digit. */
  function DigitValue(c: char): nat
    requires '0' <= c <= '9'
  {
    c as int - '0' as int
  }

  /** Reads a string of decimal digits back as the number it writes. */
  function ParseDecimal(s: string): nat
    requires forall k :: 0 <= k < |s| ==> '0' <= s[k] <= '9'
  {
    if s == [] then 0 else ParseDecimal(s[..|s| - 1]) * 10 + DigitValue(s[|s| - 1])
  }

  /** The text `String(n)` writes reads back as `n`. */
  lemma {:induction false} NatToStringRoundTrip(n: nat)
    ensures ParseDecimal(NatToString(n)) == n
    decreases n
  {
    var r := NatToString(n);
    if n < 10 {
      assert r[..0] == [];
    } else {
      NatToStringRoundTrip(n / 10);
      assert r[..|r| - 1] == NatToString(n / 10);
    }
  }

  /** Different numbers are written differently. */
  lemma NatToStringInjective(a: nat, b: nat)
    ensures NatToString(a) == NatToString(b) ==> a == b
  {
    NatToStringRoundTrip(a);
    NatToStringRoundTrip(b);
  }

  /** `s.join(',')`. */
  function Join(s: seq<nat>): (r: string)
    ensures s == [] <==> r == []
  {
    if s == [] then ""
    else if |s| == 1 then NatToString(s[0])
    else NatToString(s[0]) + "," + Join(s[1..])
  }

  /** JavaScript's `a < b` on strings: code-unit lexicographic order, a proper prefix first. */
  predicate LexLess(a: string, b: string) {
    if a == [] then b != []
    else if b == [] then false
    else if a[0] != b[0] then a[0] < b[0]
    else LexLess(a[1..], b[1..])
  }

  /** The order is strict and total: of two different strings exactly one is the smaller. */
  lemma {:induction false} LexTotal(a: string, b: string)
    ensures !LexLess(a, a)
    ensures a != b ==> (LexLess(a, b) <==> !LexLess(b, a))
  {
    if a != [] {
      LexTotal(a[1..], a[1..]);
      if b != [] && a[0] == b[0] {
        LexTotal(a[1..], b[1..]);
        assert a == [a[0]] + a[1..] && b == [b[0]] + b[1..];
      }
    }
  }

  /** `forwardStr < reversedStr ? forwardStr : reversedStr`. */
  function MinKey(a: string, b: string): string {
    if LexLess(a, b) then a else b
  }

  lemma MinKeySymmetric(a: string, b: string)
    ensures MinKey(a, b) == MinKey(b, a)
    ensures MinKey(a, b) == a || MinKey(a, b) == b
  {
    LexTotal(a, b);
  }

  /** `canonicalize`. */
  function Canonicalize(cycle: seq<nat>): string {
    MinKey(Join(RotateToMin(cycle)), Join(RotateToMin(Reverse(cycle))))
  }

  lemma ReverseReverse(s: seq<nat>)
    ensures Reverse(Reverse(s)) == s
  {
    var r := Reverse(Reverse(s));
    assert forall i :: 0 <= i < |s| ==> r[i] == s[i];
  }

  /** A cycle and its reverse have the same key. */
  lemma CanonicalizeReverse(cycle: seq<nat>)
    ensures Canonicalize(Reverse(cycle)) == Canonicalize(cycle)
  {
    ReverseReverse(cycle);
    MinKeySymmetric(Join(RotateToMin(cycle)), Join(RotateToMin(Reverse(cycle))));
  }

  lemma DistinctReverse(s: seq<nat>)
    requires Distinct(s)
    ensures Distinct(Reverse(s))
  {
    var r := Reverse(s);
    forall i, j | 0 <= i < j < |r| ensures r[i] != r[j] {
      assert r[i] == s[|s| - 1 - i] && r[j] == s[|s| - 1 - j];
    }
  }

  lemma ReverseRotateAt(s: seq<nat>, i: nat, k: nat)
    requires i <= |s| && k < |s|
    ensures Reverse(Rotate(s, i))[k] == Rotate(Reverse(s), |s| - i)[k]
  {
    if k < i {
      ReverseRotateLow(s, i, k);
    } else {
      ReverseRotateHigh(s, i, k);
    }
  }

  lemma ReverseRotateLow(s: seq<nat>, i: nat, k: nat)
    requires i <= |s| && k < i
    ensures Reverse(Rotate(s, i))[k] == Rotate(Reverse(s), |s| - i)[k]
  {
    var n := |s|;
    var x := Rotate(s, i);
    assert Reverse(x)[k] == x[n - 1 - k] == s[i - 1 - k];
    var rs := Reverse(s);
    assert Rotate(rs, n - i)[k] == rs[n - i + k] == s[i - 1 - k];
  }

  lemma ReverseRotateHigh(s: seq<nat>, i: nat, k: nat)
    requires i <= |s| && i <= k < |s|
    ensures Reverse(Rotate(s, i))[k] == Rotate(Reverse(s), |s| - i)[k]
  {
    var n := |s|;
    var x := Rotate(s, i);
    assert Reverse(x)[k] == x[n - 1 - k] == s[n - 1 - k + i];
    var rs := Reverse(s);
    assert Rotate(rs, n - i)[k] == rs[k - i] == s[n - 1 - k + i];
  }

  /** Reversing a rotation gives a rotation of the reverse. */
  lemma ReverseRotate(s: seq<nat>, i: nat)
    requires i <= |s|
    ensures Reverse(Rotate(s, i)) == Rotate(Reverse(s), |s| - i)
  {
    forall k | 0 <= k < |s| ensures Reverse(Rotate(s, i))[k] == Rotate(Reverse(s), |s| - i)[k] {
      ReverseRotateAt(s, i, k);
    }
  }

  lemma MinOfRotate(s: seq<nat>, i: nat)
    requires s != [] && i <= |s|
    ensures MinOf(Rotate(s, i)) == MinOf(s)
  {
    var t := Rotate(s, i);
    RotateMultiset(s, i);
    var m, mt := MinOf(s), MinOf(t);
    assert m in multiset(s);
    assert m in t;
    assert mt in multiset(t);
    assert mt in s;
  }

  lemma WrapShift(i: nat, a: nat, b: nat, j: nat, n: nat)
    requires i < n && b < n && j < n && a == Wrap(i + b, n)
    ensures Wrap(i + Wrap(b + j, n), n) == Wrap(a + j, n)
  {
  }

  /** Rotating by `i` and then by `b` lands where rotating by `i + b`, wrapped, does. */
  lemma RotateTwiceAt(s: seq<nat>, i: nat, a: nat, b: nat, j: nat)
    requires i < |s| && b < |s| && j < |s| && a == Wrap(i + b, |s|)
    ensures Rotate(Rotate(s, i), b)[j] == Rotate(s, a)[j]
  {
    var n := |s|;
    RotateAt(Rotate(s, i), b, j);
    RotateAt(s, i, Wrap(b + j, n));
    RotateAt(s, a, j);
    WrapShift(i, a, b, j, n);
  }

  /** Rotating a list of distinct elements does not change where `rotateToMin` ends up. */
  lemma RotateToMinRotate(s: seq<nat>, i: nat)
    requires Distinct(s) && i <= |s|
    ensures RotateToMin(Rotate(s, i)) == RotateToMin(s)
  {
    var n := |s|;
    if n > 0 && i < n {
      var t := Rotate(s, i);
      MinOfRotate(s, i);
      var m := MinOf(s);
      var a := IndexOf(s, m);
      var b := IndexOf(t, m);
      RotateAt(s, i, b);
      assert Wrap(i + b, n) == a;
      forall j | 0 <= j < n ensures Rotate(t, b)[j] == Rotate(s, a)[j] {
        RotateTwiceAt(s, i, a, b, j);
      }
      assert RotateToMin(t) == Rotate(t, b);
    } else if i == n {
      assert Rotate(s, i) == s;
    }
  }

  /** On lists of distinct elements, every rotation has the same key. */
  lemma CanonicalizeRotate(cycle: seq<nat>, i: nat)
    requires Distinct(cycle) && i <= |cycle|
    ensures Canonicalize(Rotate(cycle, i)) == Canonicalize(cycle)
  {
    RotateToMinRotate(cycle, i);
    ReverseRotate(cycle, i);
    DistinctReverse(cycle);
    RotateToMinRotate(Reverse(cycle), |cycle| - i);
  }

  /** A rotation of a simple cycle is a simple cycle. */
  lemma RotateSimpleCycle(adj: Adj, c: seq<nat>, i: nat)
    requires IsSimpleCycle(adj, c) && i < |c|
    ensures IsSimpleCycle(adj, Rotate(c, i))
  {
    RotateWalk(adj, c, i);
    RotateDistinct(c, i);
    RotateCloses(adj, c, i);
  }

  /** Consecutive nodes of a rotated cycle are consecutive in the cycle, counting the closing edge. */
  lemma RotateWalk(adj: Adj, c: seq<nat>, i: nat)
    requires IsSimpleCycle(adj, c) && i < |c|
    ensures IsWalk(adj, Rotate(c, i))
  {
    var n := |c|;
    var r := Rotate(c, i);
    forall j | 0 <= j < n ensures r[j] < |adj| {
      RotateAt(c, i, j);
    }
    forall j | 0 <= j < n - 1 ensures r[j + 1] in adj[r[j]] {
      RotateAt(c, i, j);
      RotateAt(c, i, j + 1);
    }
  }

  lemma RotateDistinct(c: seq<nat>, i: nat)
    requires Distinct(c) && i < |c|
    ensures Distinct(Rotate(c, i))
  {
    var r := Rotate(c, i);
    forall j1, j2 | 0 <= j1 < j2 < |c| ensures r[j1] != r[j2] {
      RotateAt(c, i, j1);
      RotateAt(c, i, j2);
    }
  }

  /** The rotated cycle's last node still lists its first. */
  lemma RotateCloses(adj: Adj, c: seq<nat>, i: nat)
    requires IsSimpleCycle(adj, c) && i < |c|
    ensures Rotate(c, i)[0] in adj[Rotate(c, i)[|c| - 1]]
  {
    RotateAt(c, i, 0);
    RotateAt(c, i, |c| - 1);
    if i > 0 {
      assert c[i] in adj[c[i - 1]];
    }
  }

  /** Among distinct entries, a first entry no larger than any other is strictly smaller than the rest. */
  lemma StrictMinFirst(c: seq<nat>, r: seq<nat>)
    requires Distinct(r) && r != [] && multiset(r) == multiset(c)
    requires forall x :: x in c ==> r[0] <= x
    ensures forall k :: 0 < k < |r| ==> r[0] < r[k]
  {
    forall k | 0 < k < |r| ensures r[0] < r[k] {
      assert r[k] in multiset(r);
      assert r[k] in c;
    }
  }

  /**
   * A simple cycle rotated to its minimum is a simple cycle whose first node
   * is strictly smaller than the others.
   */
  lemma MinRotation(adj: Adj, c: seq<nat>)
    requires IsSimpleCycle(adj, c)
    ensures IsSimpleCycle(adj, RotateToMin(c))
    ensures forall k :: 0 < k < |c| ==> RotateToMin(c)[0] < RotateToMin(c)[k]
  {
    var r := RotateToMin(c);
    var i := RotateToMinSpec(c);
    RotateSimpleCycle(adj, c, i);
    assert IsSimpleCycle(adj, r);
    StrictMinFirst(c, r);
  }

  /** On distinct entries, rotating to the minimum keeps the key. */
  lemma CanonicalizeRotateToMin(c: seq<nat>)
    requires c != [] && Distinct(c)
    ensures Canonicalize(RotateToMin(c)) == Canonicalize(c)
  {
    var i := RotateToMinSpec(c);
    CanonicalizeRotate(c, i);
  }
}
