/**
 * `fit` of `src/lib.rs`: the sizes an image can be shrunk to by cutting it
 * into equal squares, one for each common divisor of its width and height
 * from 2 up to, but not including, the width.
 */
module Fit {
  import opened Wrappers
  import opened Arith

  /** `x` divides both `width` and `height`. */
  predicate CommonDivisor(width: nat, height: nat, x: nat) {
    x > 0 && width % x == 0 && height % x == 0
  }

  /** The pairs the loop of `fit` has pushed once `x` has run through `2..n`, in push order. */
  function PairsBelow(width: nat, height: nat, n: nat): seq<(nat, nat)> {
    if n <= 2 then []
    else
      var x := n - 1;
      PairsBelow(width, height, x) + if CommonDivisor(width, height, x) then [(width / x, height / x)] else []
  }

  /** A pair is pushed iff it is `(width / x, height / x)` for a common divisor `x` in `2..n`. */
  lemma {:induction false} PairsMembership(width: nat, height: nat, n: nat, p: (nat, nat))
    ensures p in PairsBelow(width, height, n) <==>
      exists x :: 2 <= x < n && CommonDivisor(width, height, x) && p == (width / x, height / x)
  {
    if n > 2 {
      PairsMembership(width, height, n - 1, p);
    }
  }

  /** Every pair pushed before `x` reached `n` has a larger first component than any common divisor from `n` on gives. */
  lemma {:induction false} PairsAboveLaterQuotients(width: nat, height: nat, n: nat)
    requires n <= width
    ensures forall i, y :: 0 <= i < |PairsBelow(width, height, n)| && n <= y && CommonDivisor(width, height, y) ==>
      PairsBelow(width, height, n)[i].0 > width / y
  {
    if n > 2 {
      var prev := PairsBelow(width, height, n - 1);
      PairsAboveLaterQuotients(width, height, n - 1);
      forall i, y | 0 <= i < |PairsBelow(width, height, n)| && n <= y && CommonDivisor(width, height, y)
        ensures PairsBelow(width, height, n)[i].0 > width / y
      {
        if i >= |prev| {
          QuotientDecreases(width, n - 1, y);
        }
      }
    }
  }

  /**
   * The first components strictly decrease, since `x` ascends, and each is at
   * least 2: `x == width` is never tried, even when it divides the height.
   */
  lemma {:induction false} PairsDescending(width: nat, height: nat, n: nat)
    requires n <= width
    ensures forall i, j :: 0 <= i < j < |PairsBelow(width, height, n)| ==>
      PairsBelow(width, height, n)[i].0 > PairsBelow(width, height, n)[j].0
    ensures forall i :: 0 <= i < |PairsBelow(width, height, n)| ==> PairsBelow(width, height, n)[i].0 >= 2
  {
    PairsAboveLaterQuotients(width, height, n);
    if n > 2 {
      PairsDescending(width, height, n - 1);
      PairsAboveLaterQuotients(width, height, n - 1);
      assert width / width == 1;
      assert CommonDivisor(width, height, n - 1) ==> width / (n - 1) > 1 by {
        if CommonDivisor(width, height, n - 1) {
          QuotientDecreases(width, n - 1, width);
        }
      }
    }
  }

  /** Nothing is pushed exactly when no `x` in `2..n` divides both sides. */
  lemma PairsEmpty(width: nat, height: nat, n: nat)
    ensures PairsBelow(width, height, n) == [] <==> forall x :: 2 <= x < n ==> !CommonDivisor(width, height, x)
  {
    var cm := PairsBelow(width, height, n);
    if cm == [] {
      forall x | 2 <= x < n
        ensures !CommonDivisor(width, height, x)
      {
        PairsMembership(width, height, n, (width / x, height / x));
      }
    } else {
      PairsMembership(width, height, n, cm[0]);
    }
  }

  /**
   * `fit`: for `x` in `2..width`, push `(width / x, height / x)` whenever `x`
   * divides both; `None` when nothing was pushed.
   */
  method Fit(width: nat, height: nat) returns (r: Option<seq<(nat, nat)>>)
    ensures r.None? <==> forall x :: 2 <= x < width ==> !CommonDivisor(width, height, x)
    ensures r.Some? ==> |r.value| > 0
    ensures r.Some? ==> forall p :: p in r.value <==>
      exists x :: 2 <= x < width && CommonDivisor(width, height, x) && p == (width / x, height / x)
    ensures r.Some? ==> forall i, j :: 0 <= i < j < |r.value| ==> r.value[i].0 > r.value[j].0
  {
    var cm: seq<(nat, nat)> := [];
    var x := 2;
    while x < width
      invariant 2 <= x && (x <= width || x == 2)
      invariant cm == PairsBelow(width, height, x)
    {
      if width % x == 0 {
        if height % x == 0 {
          cm := cm + [(width / x, height / x)];
        }
      }
      x := x + 1;
    }
    assert cm == PairsBelow(width, height, width);
    PairsEmpty(width, height, width);
    forall p
      ensures p in cm <==> exists x :: 2 <= x < width && CommonDivisor(width, height, x) && p == (width / x, height / x)
    {
      PairsMembership(width, height, width, p);
    }
    PairsDescending(width, height, width);
    if cm == [] {
      r := None;
    } else {
      r := Some(cm);
    }
  }
}
