/** Counting and selecting the elements of a sequence that pass a test,
    in visiting order. */
module Counting {

  /** How many elements of s pass p. */
  function Count<T>(p: T -> bool, s: seq<T>): (n: nat)
    ensures n <= |s|
  {
    if |s| == 0 then 0
    else Count(p, s[..|s| - 1]) + (if p(s[|s| - 1]) then 1 else 0)
  }

  /** The elements of s that pass p, in their original order. */
  function Filter<T(==)>(p: T -> bool, s: seq<T>): (r: seq<T>)
    ensures |r| == Count(p, s)
    ensures forall i :: 0 <= i < |r| ==> p(r[i]) && r[i] in s
    ensures forall i :: 0 <= i < |s| && p(s[i]) ==> s[i] in r
  {
    if |s| == 0 then []
    else
      var rest := Filter(p, s[..|s| - 1]);
      assert forall i :: 0 <= i < |s| - 1 ==> s[..|s| - 1][i] == s[i];
      if p(s[|s| - 1]) then rest + [s[|s| - 1]] else rest
  }

  /** The selection keeps every passing element as many times as it occurs
      in s, and no failing element. */
  lemma {:induction false} FilterMultiplicity<T(!new)>(p: T -> bool, s: seq<T>)
    ensures forall x :: multiset(Filter(p, s))[x] == if p(x) then multiset(s)[x] else 0
  {
    if |s| > 0 {
      var init, y := s[..|s| - 1], s[|s| - 1];
      FilterMultiplicity(p, init);
      assert s == init + [y];
    }
  }

  /** Selection distributes over concatenation, so the selected elements
      keep the order they had in s. */
  lemma {:induction false} FilterAppend<T>(p: T -> bool, a: seq<T>, b: seq<T>)
    ensures Filter(p, a + b) == Filter(p, a) + Filter(p, b)
    decreases |b|
  {
    if |b| == 0 {
      assert a + b == a;
    } else {
      assert (a + b)[..|a + b| - 1] == a + b[..|b| - 1];
      FilterAppend(p, a, b[..|b| - 1]);
    }
  }

  /** The count is the whole length exactly when every element passes, and
      zero exactly when none does. */
  lemma {:induction false} CountExtremes<T>(p: T -> bool, s: seq<T>)
    ensures Count(p, s) == |s| <==> forall i :: 0 <= i < |s| ==> p(s[i])
    ensures Count(p, s) == 0 <==> forall i :: 0 <= i < |s| ==> !p(s[i])
  {
    if |s| > 0 {
      var init := s[..|s| - 1];
      CountExtremes(p, init);
      assert forall i :: 0 <= i < |init| ==> init[i] == s[i];
    }
  }

  /** Counting distributes over concatenation. */
  lemma {:induction false} CountAppend<T>(p: T -> bool, a: seq<T>, b: seq<T>)
    ensures Count(p, a + b) == Count(p, a) + Count(p, b)
    decreases |b|
  {
    if |b| == 0 {
      assert a + b == a;
    } else {
      assert (a + b)[..|a + b| - 1] == a + b[..|b| - 1];
      CountAppend(p, a, b[..|b| - 1]);
    }
  }

  /** The count does not depend on the order of the elements. */
  lemma {:induction false} CountPermutation<T>(p: T -> bool, a: seq<T>, b: seq<T>)
    requires multiset(a) == multiset(b)
    ensures Count(p, a) == Count(p, b)
    decreases |a|
  {
    if |a| == 0 {
      assert |b| == |multiset(b)| == 0;
    } else {
      var x := a[0];
      assert x in multiset(b);
      var i :| 0 <= i < |b| && b[i] == x;
      var b' := b[..i] + b[i + 1..];
      assert b == b[..i] + [x] + b[i + 1..];
      assert a == [x] + a[1..];
      assert multiset(b') == multiset(b) - multiset{x};
      assert multiset(a[1..]) == multiset(a) - multiset{x};
      CountPermutation(p, a[1..], b');
      CountAppend(p, [x], a[1..]);
      CountAppend(p, b[..i] + [x], b[i + 1..]);
      CountAppend(p, b[..i], [x]);
      CountAppend(p, b[..i], b[i + 1..]);
      assert Count(p, [x]) == (if p(x) then 1 else 0) by {
        assert [x][..0] == [];
      }
    }
  }

  /** One pass over s that counts the elements passing p and collects them,
      the way the detector's loop increments `empty_holes` and draws a
      rectangle for each accepted contour. */
  method CountAndMark<T(==)>(p: T -> bool, s: seq<T>) returns (n: nat, marked: seq<T>)
    ensures n == Count(p, s) && n <= |s|
    ensures marked == Filter(p, s)
  {
    n, marked := 0, [];
    var i := 0;
    while i < |s|
      invariant 0 <= i <= |s|
      invariant n == Count(p, s[..i])
      invariant marked == Filter(p, s[..i])
    {
      assert s[..i + 1][..i] == s[..i];
      if p(s[i]) {
        marked := marked + [s[i]];
        n := n + 1;
      }
      i := i + 1;
    }
    assert s[..|s|] == s;
  }
}
