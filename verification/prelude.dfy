/** Small shared vocabulary: an option type, the C `uint` word, and the
    sequence helpers both resource managers are built on. */
module Prelude {

  datatype Option<+T> = None | Some(value: T)

  const U32_MAX: int := 0xFFFF_FFFF

  /** A C `uint`. */
  type u32 = x: int | 0 <= x <= U32_MAX

  /** `x++` on a `uint`: wraps to 0 past U32_MAX. */
  function Inc32(x: u32): (r: u32)
  {
    if x == U32_MAX then 0 else x + 1
  }

  /** `x--` on a `uint`: wraps to U32_MAX below 0. */
  function Dec32(x: u32): (r: u32)
  {
    if x == 0 then U32_MAX else x - 1
  }

  /** Decrementing undoes incrementing, and the other way round, on every word. */
  lemma IncDecInverse(x: u32)
    ensures Dec32(Inc32(x)) == x
    ensures Inc32(Dec32(x)) == x
  {
  }

  /** How many times `x` occurs in `xs`. */
  function Count<T(==)>(xs: seq<T>, x: T): (n: nat)
  {
    multiset(xs)[x]
  }

  /** A set of at most one element that holds `a` is exactly {a}. */
  lemma SmallSet<T>(s: set<T>, a: T)
    requires a in s && |s| <= 1
    ensures s == {a}
  {
    assert |s - {a}| == |s| - 1;
    assert s - {a} == {};
  }

  /** The lists of `xss` laid end to end, first list first. */
  function Flat<T>(xss: seq<seq<T>>): (r: seq<T>)
    ensures |xss| == 0 ==> r == []
  {
    if |xss| == 0 then [] else xss[0] + Flat(xss[1..])
  }

  /** Replacing one list changes the multiset of all elements by exactly
      what left and what arrived. */
  lemma {:induction false} FlatUpdate<T>(xss: seq<seq<T>>, i: nat, ys: seq<T>)
    requires i < |xss|
    ensures multiset(Flat(xss[i := ys])) + multiset(xss[i]) == multiset(Flat(xss)) + multiset(ys)
  {
    if i == 0 {
      assert xss[i := ys][1..] == xss[1..];
    } else {
      FlatUpdate(xss[1..], i - 1, ys);
      assert xss[i := ys][1..] == xss[1..][i - 1 := ys];
      assert Flat(xss[i := ys]) == xss[0] + Flat(xss[1..][i - 1 := ys]);
      assert Flat(xss) == xss[0] + Flat(xss[1..]);
      assert xss[1..][i - 1] == xss[i];
      calc {
        multiset(Flat(xss[i := ys])) + multiset(xss[i]);
        multiset(xss[0]) + (multiset(Flat(xss[1..][i - 1 := ys])) + multiset(xss[1..][i - 1]));
        multiset(xss[0]) + (multiset(Flat(xss[1..])) + multiset(ys));
        multiset(Flat(xss)) + multiset(ys);
      }
    }
  }

  /** An element of one list occurs at least as often in the whole. */
  lemma {:induction false} CountInFlat<T>(xss: seq<seq<T>>, i: nat, x: T)
    requires i < |xss|
    ensures multiset(xss[i])[x] <= multiset(Flat(xss))[x]
  {
    if i > 0 {
      CountInFlat(xss[1..], i - 1, x);
    }
  }

  /** Every element of the whole comes from one of the lists. */
  lemma {:induction false} FindList<T>(xss: seq<seq<T>>, x: T) returns (i: nat)
    requires x in Flat(xss)
    ensures i < |xss| && x in xss[i]
  {
    if x in xss[0] {
      i := 0;
    } else {
      var j := FindList(xss[1..], x);
      i := j + 1;
    }
  }

  /** Every list empty: nothing in the whole. */
  lemma {:induction false} FlatOfEmpties<T>(xss: seq<seq<T>>)
    requires forall i | 0 <= i < |xss| :: xss[i] == []
    ensures Flat(xss) == []
  {
    if |xss| > 0 {
      FlatOfEmpties(xss[1..]);
    }
  }

  /** `xs` with every occurrence of `x` taken out, the rest in their order. */
  function Without<T(==)>(xs: seq<T>, x: T): (r: seq<T>)
    ensures multiset(r) == multiset(xs)[x := 0]
    ensures forall y | y in r :: y in xs && y != x
    ensures forall y | y in xs && y != x :: y in r
  {
    if |xs| == 0 then []
    else if xs[0] == x then
      assert xs == [xs[0]] + xs[1..];
      Without(xs[1..], x)
    else
      assert xs == [xs[0]] + xs[1..];
      [xs[0]] + Without(xs[1..], x)
  }

  /** Taking an element out twice is taking it out once. */
  lemma {:induction false} WithoutTwice<T>(xs: seq<T>, x: T)
    ensures Without(Without(xs, x), x) == Without(xs, x)
  {
    if |xs| > 0 {
      WithoutTwice(xs[1..], x);
      if xs[0] != x {
        assert ([xs[0]] + Without(xs[1..], x))[1..] == Without(xs[1..], x);
      }
    }
  }

  function Reverse<T>(xs: seq<T>): (r: seq<T>)
    ensures |r| == |xs|
    ensures forall k | 0 <= k < |xs| :: r[k] == xs[|xs| - 1 - k]
  {
    if |xs| == 0 then [] else Reverse(xs[1..]) + [xs[0]]
  }

  /** Reversing a list extended at the back puts the new element in front. */
  lemma ReverseSnoc<T>(xs: seq<T>, x: T)
    ensures Reverse(xs + [x]) == [x] + Reverse(xs)
  {
    var l, r := Reverse(xs + [x]), [x] + Reverse(xs);
    assert |l| == |r|;
    forall k | 0 <= k < |l|
      ensures l[k] == r[k]
    {
      if k > 0 {
        assert l[k] == (xs + [x])[|xs| - k];
      }
    }
  }
}
