/** What a parsed number is worth in base units: nx_values_np. */
module NumberValues {
  import opened Common
  import opened Fractions
  import opened NumberSystems

  /** nx_set_inst_aev: the code multiplies both parts by the count's denominator. */
  function InstAev(one: Frac, count: Frac): Frac {
    Frac(Wrap(Times(Times(one.n, count.d), count.n)), Times(one.d, count.d))
  }

  /** So a count is worth its numerator, and a half counts as one: the value is the count times the step's exactly
      for whole counts and for nothing at all. */
  lemma {:induction false} FractionalCounts(one: Frac, count: Frac)
    requires one.d > 0 && count.d > 0 && Times(Times(one.n, count.d), count.n) < U64
    ensures SameRatio(InstAev(one, count), Frac(Times(one.n, count.n), Times(one.d, count.d)))
            <==> count.d == 1 || one.n == 0 || count.n == 0
    ensures SameRatio(InstAev(one, count), Frac(Times(one.n, count.n), one.d))
  {
    NumeratorOnly(one.n, one.d, count.n, count.d);
    var p, q := Times(one.n, count.n), Times(one.d, count.d);
    Reorder(one.n, count.d, count.n);
    Cancels(p, q, count.d);
    Zero(one.n, count.n);
    Zero(one.d, count.d);
  }

  lemma {:induction false} NumeratorOnly(n: nat, d: nat, c: nat, e: nat)
    ensures Times(Times(n, e), c) * d == Times(n, c) * Times(d, e)
  {
    assert ((n * e) * c) * d == (n * c) * (e * d);
  }

  lemma {:induction false} Reorder(x: nat, y: nat, z: nat)
    ensures Times(Times(x, y), z) == Times(Times(x, z), y)
  {
  }

  lemma {:induction false} Zero(x: nat, y: nat)
    ensures Times(x, y) == 0 <==> x == 0 || y == 0
  {
  }

  lemma {:induction false} Cancels(p: nat, q: nat, d: nat)
    requires d > 0
    ensures q > 0 ==> (Times(p, d) * q == p * q <==> d == 1 || p == 0)
  {
    if q > 0 && Times(p, d) * q == p * q {
      Same(Times(p, d), p, q);
    }
  }

  lemma {:induction false} Same(x: nat, y: nat, q: nat)
    requires q > 0 && x * q == y * q
    ensures x == y
  {
  }

  /** A half sign is worth a whole unit. */
  lemma {:induction false} HalfIsWorthOne(one: Frac)
    requires one.n > 0 && one.d > 0 && Times(one.n, 2) < U64
    ensures SameRatio(InstAev(one, Frac(1, 2)), one) &&
            !SameRatio(InstAev(one, Frac(1, 2)), Frac(one.n, Times(one.d, 2)))
  {
    FractionalCounts(one, Frac(1, 2));
    assert InstAev(one, Frac(1, 2)) == Frac(Times(one.n, 2), Times(one.d, 2));
    assert (one.n * 2) * one.d == one.n * (one.d * 2);
  }

  method SetInstAev(sys: System, ni: NsInst)
    requires ni.def.sys == sys.def && ni.def.step < |sys.aev|
    modifies ni`aev
    ensures ni.aev == InstAev(sys.aev[ni.def.step], ni.def.count)
  {
    var saev := sys.aev[ni.def.step];
    var d := Times(saev.d, ni.def.count.d);
    var n := Wrap(Times(saev.n, ni.def.count.d));
    WrapTimes(Times(saev.n, ni.def.count.d), ni.def.count.n);
    n := Wrap(Times(n, ni.def.count.n));
    ni.aev := Frac(n, d);
  }

  // ---------- Sums ----------

  /** The sum as the code reckons it. */
  function SumAll(fs: seq<Frac>): Frac {
    if fs == [] then Frac(0, 0)
    else var r := Sum(SumAll(fs[..|fs| - 1]), fs[|fs| - 1]); Frac(Wrap(r.n), r.d)
  }

  /** Product of the denominators, an unset one counting as 1. */
  function Bottoms(fs: seq<Frac>): (r: nat)
    ensures r > 0
  {
    if fs == [] then 1 else Times(Bottoms(fs[..|fs| - 1]), Bottom(fs[|fs| - 1]))
  }

  /** What the signs of a number have been found to be worth. */
  function Aevs(steps: seq<NsInst>): (r: seq<Frac>)
    reads steps
    ensures |r| == |steps| && forall i :: 0 <= i < |steps| ==> r[i] == steps[i].aev
  {
    if steps == [] then [] else Aevs(steps[..|steps| - 1]) + [steps[|steps| - 1].aev]
  }

  /** No partial sum has a denominator that an int cannot hold. */
  predicate BottomsFit(fs: seq<Frac>) {
    forall k :: 0 <= k <= |fs| ==> SumAll(fs[..k]).d <= INT_MAX
  }

  lemma {:induction false} SumNext(fs: seq<Frac>, i: nat)
    requires i < |fs|
    ensures var r := Sum(SumAll(fs[..i]), fs[i]); SumAll(fs[..i + 1]) == Frac(Wrap(r.n), r.d)
  {
    assert fs[..i + 1][..i] == fs[..i];
  }

  /** Sums of values over one denominator have that denominator. */
  lemma {:induction false} OverOneFit(fs: seq<Frac>, d: nat)
    requires 0 < d <= INT_MAX && forall i :: 0 <= i < |fs| ==> fs[i].d == d
    ensures BottomsFit(fs)
  {
    forall k | 0 <= k <= |fs| ensures SumAll(fs[..k]).d <= INT_MAX {
      OverOneSum(fs[..k], d);
    }
  }

  lemma {:induction false} OverOneSum(fs: seq<Frac>, d: nat)
    requires d > 0 && forall i :: 0 <= i < |fs| ==> fs[i].d == d
    ensures if fs == [] then SumAll(fs) == Frac(0, 0) else SumAll(fs).d == d
  {
    hide Wrap, Times;
    if fs != [] { OverOneSum(fs[..|fs| - 1], d); }
  }

  /** nx_sum_aevs. */
  method SumAevs(steps: seq<NsInst>) returns (sum: Num)
    requires forall i :: 0 <= i < |steps| ==> steps[i].aev.n < U64
    requires BottomsFit(Aevs(steps))
    ensures fresh(sum) && sum.Value() == SumAll(Aevs(steps))
  {
    hide Sum, Wrap, SumAll;
    sum := new Num(0, 0);
    ghost var fs := Aevs(steps);
    SumOfNone();
    assert fs[..0] == [];
    var i := 0;
    while i < |steps|
      invariant 0 <= i <= |steps| && fresh(sum)
      invariant forall k :: 0 <= k < |steps| ==> steps[k].aev == fs[k]
      invariant sum.Value() == SumAll(fs[..i]) && sum.n < U64
    {
      SumNext(fs, i);
      assert SumAll(fs[..i + 1]).d <= INT_MAX;
      sum.AddFrac(steps[i].aev);
      i := i + 1;
    }
    assert fs[..|steps|] == fs;
  }

  lemma {:induction false} SumOfNone()
    ensures SumAll([]) == Frac(0, 0)
  {
  }

  /** The numerator of the exact sum over the product of all denominators. */
  function ExactTop(fs: seq<Frac>): nat {
    if fs == [] then 0
    else
      var f := fs[|fs| - 1];
      Times(ExactTop(fs[..|fs| - 1]), Bottom(f)) + Times(Top(f), Bottoms(fs[..|fs| - 1]))
  }

  /** No partial sum has a numerator that wraps around. */
  predicate NoWrap(fs: seq<Frac>) {
    fs == [] || (NoWrap(fs[..|fs| - 1]) && Sum(SumAll(fs[..|fs| - 1]), fs[|fs| - 1]).n < U64)
  }

  /** Then the code's sum is the exact one, whatever the denominators. */
  lemma {:induction false} SumAllIsExact(fs: seq<Frac>)
    requires NoWrap(fs) && forall f :: f in fs ==> f.d > 0 || f.n == 0
    ensures Times(Top(SumAll(fs)), Bottoms(fs)) == Times(ExactTop(fs), Bottom(SumAll(fs)))
    ensures SumAll(fs).d == 0 ==> SumAll(fs).n == 0
  {
    hide Sum, Times, Wrap;
    if fs == [] {
      NothingAdded();
    } else {
      var front, f := fs[..|fs| - 1], fs[|fs| - 1];
      SumAllIsExact(front);
      SumIsExact(SumAll(front), f);
      Chained(Top(SumAll(fs)), Bottom(SumAll(fs)), Top(SumAll(front)), Bottom(SumAll(front)), Top(f), Bottom(f),
          ExactTop(front), Bottoms(front));
    }
  }

  lemma {:induction false} NothingAdded()
    ensures Times(0, 1) == 0
  {
  }

  /** r/s is a/b + c/d, and a/b is e/p: so r/s is e/p + c/d. */
  lemma {:induction false} Chained(r: nat, s: nat, a: nat, b: nat, c: nat, d: nat, e: nat, p: nat)
    requires b > 0 && r * (b * d) == (a * d + c * b) * s && Times(a, p) == Times(e, b)
    ensures Times(r, Times(p, d)) == Times(Times(e, d) + Times(c, p), s)
  {
    var x, y := Times(e, d) + Times(c, p), Times(a, d) + Times(c, b);
    OverOne(a, b, c, d, e, p);
    Times4(b, r, p, d);
    Times3(y, s, p);
    Times3(b, x, s);
    hide Times;
    Cancel(Times(r, Times(p, d)), Times(x, s), b);
  }

  /** a/b + c/d over p instead of b. */
  lemma {:induction false} OverOne(a: nat, b: nat, c: nat, d: nat, e: nat, p: nat)
    requires Times(a, p) == Times(e, b)
    ensures Times(Times(a, d) + Times(c, b), p) == Times(b, Times(e, d) + Times(c, p))
  {
    Times3(a, d, p);
    Times3(e, b, d);
    Times3(c, b, p);
    Swap(p, Times(a, d) + Times(c, b));
    Swap(p, Times(a, d));
    Swap(p, Times(c, b));
    Spread(p, Times(a, d), Times(c, b));
    Spread(b, Times(e, d), Times(c, p));
    hide Times;
  }

  lemma {:induction false} Spread(m: nat, x: nat, y: nat)
    ensures Times(m, x + y) == Times(m, x) + Times(m, y)
  {
  }

  /** Three factors in any order. */
  lemma {:induction false} Times3(x: nat, y: nat, z: nat)
    ensures Times(Times(x, y), z) == Times(Times(x, z), y) == Times(y, Times(x, z)) == Times(x, Times(y, z))
  {
  }

  lemma {:induction false} Times4(b: nat, r: nat, p: nat, d: nat)
    ensures Times(b, Times(r, Times(p, d))) == Times(Times(r, Times(b, d)), p)
  {
    Times3(b, p, d);
    Times3(b, r, Times(p, d));
    Times3(r, Times(b, d), p);
    Times3(b, d, p);
    Swap(p, d);
    hide Times;
  }

  lemma {:induction false} Cancel(x: nat, y: nat, b: nat)
    requires b > 0 && Times(b, x) == Times(b, y)
    ensures x == y
  {
    Same(x, y, b);
  }

  // ---------- Whole numbers ----------

  /** A number of the system: signs of whole counts. */
  ghost predicate WholeNumber(sys: Sys, steps: seq<Inst>) {
    && steps != []
    && forall i :: 0 <= i < |steps| ==>
         steps[i].sys == sys && steps[i].step < |sys.steps| && steps[i].count.d == 1 && 0 < steps[i].count.n < U64
  }

  predicate StepsOk(sys: Sys, b: nat, steps: seq<Inst>) {
    b < |sys.steps| && forall i :: 0 <= i < |steps| ==> steps[i].step < |sys.steps|
  }

  /** What the signs add up to in the scale the code reckons in. */
  function Total(sys: Sys, b: nat, steps: seq<Inst>): nat
    requires StepsOk(sys, b, steps)
  {
    if steps == [] then 0
    else Total(sys, b, steps[..|steps| - 1]) + Times(sys.Scale(b, steps[|steps| - 1].step), steps[|steps| - 1].count.n)
  }

  /** What they are worth in truth: counts times the radices between their step and the base, all over
      sys.Common(b). */
  function WorthTotal(sys: Sys, b: nat, steps: seq<Inst>): nat
    requires StepsOk(sys, b, steps)
  {
    if steps == [] then 0
    else
      WorthTotal(sys, b, steps[..|steps| - 1]) +
          Times(sys.Worth(b, steps[|steps| - 1].step), steps[|steps| - 1].count.n)
  }

  /** v is the mixed-radix value of the signs in base units. */
  predicate IsValue(sys: Sys, b: nat, steps: seq<Inst>, v: Frac) {
    && StepsOk(sys, b, steps) && v.d > 0
    && Times(v.n, sys.Common(b)) == Times(WorthTotal(sys, b, steps), v.d)
  }

  /** v is what the code makes of them. */
  predicate IsReckoned(sys: Sys, b: nat, steps: seq<Inst>, v: Frac) {
    && StepsOk(sys, b, steps) && v.d > 0
    && Times(v.n, sys.Scale(b, b)) == Times(Total(sys, b, steps), v.d)
  }

  /** With whole counts the code's sum is that total, modulo 2^64. */
  lemma {:induction false} SumIsTotal(sys: Sys, b: nat, steps: seq<Inst>, fs: seq<Frac>)
    requires WholeNumber(sys, steps) && sys.BaseNearEnd(b) && |fs| == |steps|
    requires forall i :: 0 <= i < |steps| ==>
               fs[i] == Frac(Wrap(Times(sys.Scale(b, steps[i].step), steps[i].count.n)), sys.Below(b).d)
    ensures SumAll(fs) == Frac(Wrap(Total(sys, b, steps)), sys.Below(b).d)
    decreases |steps|
  {
    hide Wrap, Times;
    var k := |steps| - 1;
    assert forall i :: 0 <= i < k ==> steps[..k][i] == steps[i];
    if k == 0 {
      assert fs[..k] == [] && steps[..k] == [];
    } else {
      SumIsTotal(sys, b, steps[..k], fs[..k]);
      AddOver(Total(sys, b, steps[..k]), Times(sys.Scale(b, steps[k].step), steps[k].count.n), sys.Below(b).d);
    }
  }

  lemma {:induction false} AddOver(x: nat, y: nat, d: nat)
    requires d > 0
    ensures var r := Sum(Frac(Wrap(x), d), Frac(Wrap(y), d)); Wrap(r.n) == Wrap(x + y) && r.d == d
  {
    WrapSum(x, y);
    WrapSum(Wrap(x), y);
  }

  lemma {:induction false} TotalPositive(sys: Sys, b: nat, steps: seq<Inst>)
    requires WholeNumber(sys, steps) && sys.BaseNearEnd(b)
    ensures Total(sys, b, steps) > 0
  {
    var s := steps[|steps| - 1];
    sys.ScalePositive(b, s.step);
    Positive(sys.Scale(b, s.step), s.count.n);
  }

  ghost predicate AevsFound(sys: System, b: nat)
    reads sys
  {
    |sys.aev| == |sys.def.steps| && sys.baseStep == Some(b) && sys.def.BaseNearEnd(b) && sys.Evaluated(b)
  }

  /** nx_inst_aevs for a number of whole counts. */
  method InstAevs(sys: System, steps: seq<NsInst>, ghost b: nat)
    requires WholeNumber(sys.def, Defs(steps)) && sys.def.BaseNearEnd(b) && sys.def.IsBase(b) &&
             sys.def.Below(b).d <= INT_MAX
    requires |sys.aev| == |sys.def.steps| && (sys.aevDone ==> AevsFound(sys, b))
    modifies sys, steps
    ensures AevsFound(sys, b)
    ensures forall i :: 0 <= i < |steps| ==>
              steps[i].aev == Frac(Wrap(Times(sys.def.Scale(b, steps[i].def.step), steps[i].def.count.n)),
                  sys.def.Below(b).d)
  {
    if !sys.aevDone {
      sys.SysAevs();
    }
    ghost var aev := sys.aev;
    var i := 0;
    while i < |steps|
      invariant 0 <= i <= |steps| && sys.aev == aev && sys.baseStep == Some(b)
      invariant forall k :: 0 <= k < i ==>
                  steps[k].aev == Frac(Wrap(Times(sys.def.Scale(b, steps[k].def.step), steps[k].def.count.n)),
                      sys.def.Below(b).d)
    {
      assert Defs(steps)[i] == steps[i].def;
      SetInstAev(sys, steps[i]);
      sys.AevsAreScales(b, steps[i].def.step);
      WrapTimes(sys.def.Scale(b, steps[i].def.step), steps[i].def.count.n);
      i := i + 1;
    }
  }

  /** Every sign stands for a step the code evaluates rightly. */
  predicate AllRight(sys: Sys, b: nat, steps: seq<Inst>)
    requires StepsOk(sys, b, steps)
  {
    forall i :: 0 <= i < |steps| ==> sys.StepRight(b, steps[i].step)
  }

  /** None of the steps is worth more than it should be, or none less. */
  predicate OneSided(sys: Sys, b: nat, steps: seq<Inst>)
    requires StepsOk(sys, b, steps)
  {
    || (forall i :: 0 <= i < |steps| ==>
          Times(sys.Scale(b, steps[i].step), sys.Common(b)) <= Times(sys.Worth(b, steps[i].step), sys.Scale(b, b)))
    || (forall i :: 0 <= i < |steps| ==>
          Times(sys.Scale(b, steps[i].step), sys.Common(b)) >= Times(sys.Worth(b, steps[i].step), sys.Scale(b, b)))
  }

  /** x in one scale is no more than w in another, and t no more than u: nor are the sums. */
  lemma {:induction false} AddScaled(t: nat, u: nat, q: nat, s: nat, x: nat, w: nat, c: nat)
    requires Times(t, q) <= Times(u, s) && Times(x, q) <= Times(w, s) && c > 0
    ensures Times(t + Times(x, c), q) <= Times(u + Times(w, c), s)
    ensures Times(t + Times(x, c), q) == Times(u + Times(w, c), s) <==>
            Times(t, q) == Times(u, s) && Times(x, q) == Times(w, s)
  {
    Scaled1(t, q, x, c);
    Scaled1(u, s, w, c);
    Monotone(Times(x, q), Times(w, s), c);
  }

  lemma {:induction false} Scaled1(t: nat, q: nat, x: nat, c: nat)
    ensures Times(t + Times(x, c), q) == Times(t, q) + Times(Times(x, q), c)
  {
    assert (t + x * c) * q == t * q + (x * c) * q;
    assert (x * c) * q == (x * q) * c;
  }

  lemma {:induction false} Monotone(x: nat, y: nat, c: nat)
    requires x <= y && c > 0
    ensures Times(x, c) <= Times(y, c) && (Times(x, c) == Times(y, c) <==> x == y)
  {
    assert y * c == x * c + (y - x) * c;
    if x * c == y * c { Same(x, y, c); }
  }

  lemma {:induction false} NotTooMuch(sys: Sys, b: nat, steps: seq<Inst>)
    requires StepsOk(sys, b, steps) && forall i :: 0 <= i < |steps| ==> steps[i].count.n > 0
    requires forall i :: 0 <= i < |steps| ==>
               Times(sys.Scale(b, steps[i].step), sys.Common(b)) <= Times(sys.Worth(b, steps[i].step), sys.Scale(b, b))
    ensures Times(Total(sys, b, steps), sys.Common(b)) <= Times(WorthTotal(sys, b, steps), sys.Scale(b, b))
    ensures Times(Total(sys, b, steps), sys.Common(b)) == Times(WorthTotal(sys, b, steps), sys.Scale(b, b)) <==>
            AllRight(sys, b, steps)
  {
    if steps == [] {
      NothingTimes(sys.Common(b));
      NothingTimes(sys.Scale(b, b));
    } else {
      var t, s := steps[..|steps| - 1], steps[|steps| - 1];
      NotTooMuch(sys, b, t);
      AllRightMore(sys, b, steps);
      hide Times, AllRight;
      AddScaled(Total(sys, b, t), WorthTotal(sys, b, t), sys.Common(b), sys.Scale(b, b), sys.Scale(b, s.step),
          sys.Worth(b, s.step), s.count.n);
    }
  }

  lemma {:induction false} NotTooLittle(sys: Sys, b: nat, steps: seq<Inst>)
    requires StepsOk(sys, b, steps) && forall i :: 0 <= i < |steps| ==> steps[i].count.n > 0
    requires forall i :: 0 <= i < |steps| ==>
               Times(sys.Scale(b, steps[i].step), sys.Common(b)) >= Times(sys.Worth(b, steps[i].step), sys.Scale(b, b))
    ensures Times(Total(sys, b, steps), sys.Common(b)) >= Times(WorthTotal(sys, b, steps), sys.Scale(b, b))
    ensures Times(Total(sys, b, steps), sys.Common(b)) == Times(WorthTotal(sys, b, steps), sys.Scale(b, b)) <==>
            AllRight(sys, b, steps)
  {
    if steps == [] {
      NothingTimes(sys.Common(b));
      NothingTimes(sys.Scale(b, b));
    } else {
      var t, s := steps[..|steps| - 1], steps[|steps| - 1];
      NotTooLittle(sys, b, t);
      AllRightMore(sys, b, steps);
      hide Times, AllRight;
      AddScaled(WorthTotal(sys, b, t), Total(sys, b, t), sys.Scale(b, b), sys.Common(b), sys.Worth(b, s.step),
          sys.Scale(b, s.step), s.count.n);
    }
  }

  lemma {:induction false} NothingTimes(x: nat)
    ensures Times(0, x) == 0
  {
  }

  lemma {:induction false} AllRightMore(sys: Sys, b: nat, steps: seq<Inst>)
    requires StepsOk(sys, b, steps) && steps != []
    ensures AllRight(sys, b, steps) <==>
            AllRight(sys, b, steps[..|steps| - 1]) && sys.StepRight(b, steps[|steps| - 1].step)
  {
  }

  /** What the code makes of a number is its value if all its signs stand for rightly evaluated steps; and where
      errors cannot make up for each other, only then. */
  lemma {:induction false} RightValue(sys: Sys, b: nat, steps: seq<Inst>, v: Frac)
    requires WholeNumber(sys, steps) && sys.BaseNearEnd(b) && IsReckoned(sys, b, steps, v)
    ensures AllRight(sys, b, steps) ==> IsValue(sys, b, steps, v)
    ensures OneSided(sys, b, steps) ==> (IsValue(sys, b, steps, v) <==> AllRight(sys, b, steps))
  {
    sys.ScalePositive(b, b);
    sys.CommonPositive(b);
    SameInScales(v, Total(sys, b, steps), WorthTotal(sys, b, steps), sys.Common(b), sys.Scale(b, b));
    hide Total, WorthTotal, Times;
    if forall i :: 0 <= i < |steps| ==>
         Times(sys.Scale(b, steps[i].step), sys.Common(b)) <= Times(sys.Worth(b, steps[i].step), sys.Scale(b, b)) {
      NotTooMuch(sys, b, steps);
    } else if forall i :: 0 <= i < |steps| ==>
                Times(sys.Scale(b, steps[i].step), sys.Common(b)) >=
                Times(sys.Worth(b, steps[i].step), sys.Scale(b, b)) {
      NotTooLittle(sys, b, steps);
    }
  }

  /** v is t/s: it is w/q exactly if t/s is. */
  lemma {:induction false} SameInScales(v: Frac, t: nat, w: nat, q: nat, s: nat)
    requires v.d > 0 && s > 0 && Times(v.n, s) == Times(t, v.d)
    ensures Times(v.n, q) == Times(w, v.d) <==> Times(t, q) == Times(w, s)
  {
    Across(v.n, s, q);
    Across(w, v.d, s);
    Across(t, v.d, q);
    if Times(v.n, q) == Times(w, v.d) {
      Same(Times(t, q), Times(w, s), v.d);
    }
    if Times(t, q) == Times(w, s) {
      Same(Times(v.n, q), Times(w, v.d), s);
    }
  }

  lemma {:induction false} Across(x: nat, y: nat, z: nat)
    ensures Times(x, y) * z == Times(x, z) * y
  {
  }

  /** The code gets every number of a system right if and only if it evaluates every step rightly. */
  lemma {:induction false} EveryNumberRight(sys: Sys, b: nat)
    requires sys.BaseNearEnd(b)
    ensures (forall k :: 0 <= k < |sys.steps| ==> sys.StepRight(b, k)) <==>
            forall steps, v :: WholeNumber(sys, steps) && IsReckoned(sys, b, steps, v) ==> IsValue(sys, b, steps, v)
  {
    if forall k :: 0 <= k < |sys.steps| ==> sys.StepRight(b, k) {
      forall steps, v | WholeNumber(sys, steps) && IsReckoned(sys, b, steps, v) ensures IsValue(sys, b, steps, v) {
        RightValue(sys, b, steps, v);
      }
    } else {
      var k :| 0 <= k < |sys.steps| && !sys.StepRight(b, k);
      OneSignWrong(sys, b, k);
    }
  }

  lemma {:induction false} OneSignWrong(sys: Sys, b: nat, k: nat)
    requires sys.BaseNearEnd(b) && k < |sys.steps| && !sys.StepRight(b, k)
    ensures exists steps, v :: WholeNumber(sys, steps) && IsReckoned(sys, b, steps, v) && !IsValue(sys, b, steps, v)
  {
    var steps := [Inst("", sys, k, Frac(1, 1), None)];
    var v := Frac(Total(sys, b, steps), sys.Scale(b, b));
    sys.ScalePositive(b, b);
    RightValue(sys, b, steps, v);
    assert steps[0].step == k && !AllRight(sys, b, steps);
    assert WholeNumber(sys, steps) && IsReckoned(sys, b, steps, v) && !IsValue(sys, b, steps, v);
  }

  // ---------- nx_values_np ----------

  /** nx_values_np, for whole counts and a base that is the last step or the last but one, when the code's long
      and int hold what it reckons. The value is in lowest terms; it is the mixed-radix value if all signs stand
      for rightly evaluated steps, and only then where errors cannot make up for each other. mev is so many
      modern units as conv says there are to one. */
  method ValuesNp(sys: System, steps: seq<NsInst>, conv: nat, ghost b: nat) returns (aev: Frac, mev: Frac)
    requires WholeNumber(sys.def, Defs(steps)) && sys.def.BaseNearEnd(b) && sys.def.IsBase(b)
    requires |sys.aev| == |sys.def.steps| && (sys.aevDone ==> AevsFound(sys, b))
    requires Times(Total(sys.def, b, Defs(steps)), sys.def.Below(b).d) <= LONG_MAX
    requires Times(sys.def.Below(b).d, sys.def.Scale(b, b)) <= INT_MAX
    modifies sys, steps
    ensures LowestTerms(aev) && 0 < aev.d <= INT_MAX && IsReckoned(sys.def, b, Defs(steps), aev)
    ensures AllRight(sys.def, b, Defs(steps)) ==> IsValue(sys.def, b, Defs(steps), aev)
    ensures OneSided(sys.def, b, Defs(steps)) ==>
            (IsValue(sys.def, b, Defs(steps), aev) <==> AllRight(sys.def, b, Defs(steps)))
    ensures mev == Frac(Wrap(Times(conv, aev.n)), aev.d)
  {
    hide LowestTerms, Total, Wrap, AllRight, OneSided, IsValue;
    Holds(sys.def, b, Total(sys.def, b, Defs(steps)));
    var sum := Summed(sys, steps, b);
    var one := BaseAev(sys, b);
    ghost var t, d, s := Total(sys.def, b, Defs(steps)), sys.def.Below(b).d, sys.def.Scale(b, b);
    SmallerHolds(sum, t, d, s);
    aev := DivNum(sum, one);
    Divided(sum, t, d, s, aev);
    RightValue(sys.def, b, Defs(steps), aev);
    mev := CalculateMev(conv, aev);
  }

  lemma {:induction false} Holds(sys: Sys, b: nat, t: nat)
    requires sys.BaseNearEnd(b) && Times(t, sys.Below(b).d) <= LONG_MAX &&
             Times(sys.Below(b).d, sys.Scale(b, b)) <= INT_MAX
    ensures t <= LONG_MAX && 0 < sys.Below(b).d <= INT_MAX && 0 < sys.Scale(b, b) <= INT_MAX
  {
    sys.ScalePositive(b, b);
    Positive(sys.Below(b).d, sys.Scale(b, b));
    if t > 0 { Positive(t, sys.Below(b).d); }
  }

  /** The sum reduced is no bigger. */
  lemma {:induction false} SmallerHolds(sum: Frac, t: nat, d: nat, s: nat)
    requires sum.n <= t && sum.d <= d && Times(t, d) <= LONG_MAX && Times(d, s) <= INT_MAX
    ensures sum.n * d <= LONG_MAX && sum.d * s <= INT_MAX
  {
    assert sum.n * d <= t * d;
    assert sum.d * s <= d * s;
  }

  /** t/d reduced, over s/d, is t/s. */
  lemma {:induction false} Divided(sum: Frac, t: nat, d: nat, s: nat, aev: Frac)
    requires sum.d > 0 && d > 0 && SameRatio(sum, Frac(t, d)) && aev.n * (sum.d * s) == (sum.n * d) * aev.d
    ensures Times(aev.n, s) == Times(t, aev.d)
  {
    assert sum.n * d == t * sum.d;
    Factored(aev.n, sum.d, s, t, aev.d);
    Same(aev.n * s, t * aev.d, sum.d);
  }

  lemma {:induction false} Factored(n: nat, e: nat, s: nat, t: nat, f: nat)
    ensures n * (e * s) == (n * s) * e && (t * e) * f == (t * f) * e
  {
  }

  /** nx_inst_aevs, nx_sum_aevs and nx_simplify. */
  method Summed(sys: System, steps: seq<NsInst>, ghost b: nat) returns (value: Frac)
    requires WholeNumber(sys.def, Defs(steps)) && sys.def.BaseNearEnd(b) && sys.def.IsBase(b)
    requires |sys.aev| == |sys.def.steps| && (sys.aevDone ==> AevsFound(sys, b))
    requires Total(sys.def, b, Defs(steps)) <= LONG_MAX && sys.def.Below(b).d <= INT_MAX
    modifies sys, steps
    ensures AevsFound(sys, b)
    ensures SameRatio(value, Frac(Total(sys.def, b, Defs(steps)), sys.def.Below(b).d))
    ensures 0 < value.n <= Total(sys.def, b, Defs(steps)) && 0 < value.d <= sys.def.Below(b).d
  {
    hide Wrap, SumAll, Total, BottomsFit, Times, LowestTerms, SameRatio;
    InstAevs(sys, steps, b);
    SumIsTotal(sys.def, b, Defs(steps), Aevs(steps));
    TotalPositive(sys.def, b, Defs(steps));
    OverOneFit(Aevs(steps), sys.def.Below(b).d);
    var sum := SumAevs(steps);
    sum.Simplify();
    value := sum.Value();
  }

  /** What the base is worth in the scale of the sums. */
  method BaseAev(sys: System, ghost b: nat) returns (one: Frac)
    requires AevsFound(sys, b) && sys.def.Scale(b, b) <= INT_MAX && sys.def.Below(b).d <= INT_MAX
    ensures one == Frac(sys.def.Scale(b, b), sys.def.Below(b).d)
  {
    sys.AevsAreScales(b, b);
    one := sys.aev[sys.baseStep.value];
  }

  /** nx_calculate_mev, conv being the number the conversion begins with. */
  method CalculateMev(conv: nat, aev: Frac) returns (mev: Frac)
    requires aev.d <= INT_MAX
    ensures mev == Frac(Wrap(Times(conv, aev.n)), aev.d)
  {
    var n := new Num(conv, 1);
    n.MulFrac(aev);
    mev := n.Value();
  }

  // ---------- Numbers the code gets wrong ----------

  /** A system whose base is followed by its half, and one of that half. */
  function HalfSystem(): Sys {
    Sys("Sa", [Step("u", Frac(6, 1), true, None), Step("as", Frac(10, 1), true, None),
        Step("1/2(as)", Frac(2, 1), false, None)],
        Some("as"), None)
  }

  /** The code makes two of it. */
  lemma {:induction false} HalfIsWorthTwo()
    ensures var sys := HalfSystem(); var half := [Inst("g", sys, 2, Frac(1, 1), None)];
            && sys.BaseNearEnd(1) && WholeNumber(sys, half)
            && IsReckoned(sys, 1, half, Frac(2, 1)) && !IsValue(sys, 1, half, Frac(2, 1)) &&
                IsValue(sys, 1, half, Frac(1, 2))
  {
    var sys := HalfSystem();
    var half := [Inst("g", sys, 2, Frac(1, 1), None)];
    assert half[..0] == [];
    assert PerD(sys.steps, 0, 1) == Times(PerD(sys.steps, 1, 1), 1) == 1;
    assert sys.Scale(1, 2) == 2 && sys.Scale(1, 1) == 1 && sys.Common(1) == 2 && sys.Worth(1, 2) == 1;
    assert Total(sys, 1, half[..0]) == WorthTotal(sys, 1, half[..0]) == 0;
    assert Total(sys, 1, half) == Times(2, 1) && WorthTotal(sys, 1, half) == Times(1, 1);
  }

  /** Three halves of a hand to a span, ten fingers to a hand; and one span. */
  function SpanSystem(): Sys {
    Sys("L", [Step("zipah", Frac(2, 1), true, None), Step("shudua", Frac(3, 2), true, None),
        Step("shusi", Frac(10, 1), true, None)],
        Some("shusi"), None)
  }

  /** The code makes 30 fingers of it, not 15. */
  lemma {:induction false} SpanIsWorthThirty()
    ensures var sys := SpanSystem(); var span := [Inst("g", sys, 0, Frac(1, 1), None)];
            && sys.BaseNearEnd(2) && WholeNumber(sys, span)
            && IsReckoned(sys, 2, span, Frac(30, 1)) && !IsValue(sys, 2, span, Frac(30, 1)) &&
                IsValue(sys, 2, span, Frac(15, 1))
  {
    var sys := SpanSystem();
    var span := [Inst("g", sys, 0, Frac(1, 1), None)];
    assert span[..0] == [];
    var t := sys.steps;
    assert PerD(t, 2, 2) == 1 && PerD(t, 1, 2) == 1 && PerD(t, 0, 2) == 2 && PerD(t, 0, 0) == 1;
    assert Per(t, 2, 2) == 1 && Per(t, 1, 2) == 10 && Per(t, 0, 2) == 30;
    assert sys.Scale(2, 2) == 1 && sys.Scale(2, 1) == 10 && sys.Scale(2, 0) == 30 && sys.Common(2) == 2 &&
           sys.Worth(2, 0) == 30;
    assert Total(sys, 2, span[..0]) == WorthTotal(sys, 2, span[..0]) == 0;
    assert Total(sys, 2, span) == Times(30, 1) && WorthTotal(sys, 2, span) == Times(30, 1);
  }

  // ---------- A fraction under the base ----------

  /** Where the radices are whole and the steps down to the base plain, the step under the base alone can go wrong:
      when its unit is a fraction, its radix is not one, and some sign counts it. */
  lemma {:induction false} OnlyLastStep(sys: Sys, b: nat, steps: seq<Inst>)
    requires sys.BaseNearEnd(b) && b + 1 < |sys.steps| && sys.WholeRadices() && StepsOk(sys, b, steps)
    requires forall j :: 0 < j <= b ==> sys.steps[j].plain
    ensures OneSided(sys, b, steps)
    ensures AllRight(sys, b, steps) <==>
            || sys.steps[b + 1].plain || sys.steps[b + 1].mult.n == 1
            || forall i :: 0 <= i < |steps| ==> steps[i].step <= b
  {
    forall k | 0 <= k <= b ensures sys.StepRight(b, k) { sys.RightIfWhole(b, k); }
    sys.RightBelowBase(b);
    OneOddStep(sys, b, steps, b + 1);
  }

  /** If the code can only be wrong about one step, errors cannot make up for each other. */
  lemma {:induction false} OneOddStep(sys: Sys, b: nat, steps: seq<Inst>, k: nat)
    requires StepsOk(sys, b, steps) && k < |sys.steps|
    requires forall i :: 0 <= i < |steps| ==> steps[i].step == k || sys.StepRight(b, steps[i].step)
    ensures OneSided(sys, b, steps)
    ensures AllRight(sys, b, steps) <==> sys.StepRight(b, k) || forall i :: 0 <= i < |steps| ==> steps[i].step != k
  {
    hide Times;
  }

  // ---------- Whole radices ----------

  function Digits(steps: seq<Inst>): (r: seq<Digit>)
    ensures |r| == |steps| && forall i :: 0 <= i < |steps| ==> r[i] == Digit(steps[i].step, steps[i].count.n)
  {
    if steps == [] then []
    else Digits(steps[..|steps| - 1]) + [Digit(steps[|steps| - 1].step, steps[|steps| - 1].count.n)]
  }

  lemma {:induction false} DigitValueAppend(defs: seq<Step>, ds: seq<Digit>, d: Digit)
    requires (forall i :: 0 <= i < |ds| ==> ds[i].step < |defs|) && d.step < |defs|
    ensures DigitValue(defs, ds + [d]) == DigitValue(defs, ds) + Times(d.count, Per(defs, d.step, |defs| - 1))
  {
    if ds == [] {
      assert ds + [d] == [d] && [d][1..] == [];
    } else {
      assert (ds + [d])[1..] == ds[1..] + [d];
      DigitValueAppend(defs, ds[1..], d);
    }
  }

  lemma {:induction false} PerLast(steps: seq<Step>, i: nat, j: nat)
    requires i <= j && j + 1 < |steps|
    ensures Per(steps, i, j + 1) == Times(Per(steps, i, j), steps[j + 1].mult.n)
    decreases j - i
  {
    if i < j {
      PerLast(steps, i + 1, j);
      Times3(Per(steps, i + 1, j), steps[j + 1].mult.n, steps[i + 1].mult.n);
    }
  }

  /** With whole radices a step is worth so many of the last one. */
  lemma {:induction false} WorthIsPer(sys: Sys, b: nat, k: nat)
    requires sys.BaseNearEnd(b) && sys.WholeRadices() && k < |sys.steps|
    ensures sys.Worth(b, k) == Per(sys.steps, k, |sys.steps| - 1) && sys.Common(b) == sys.Below(b).n
  {
    PerDOne(sys.steps, 0, b);
    if k <= b {
      PerDOne(sys.steps, 0, k);
      if b + 1 < |sys.steps| { PerLast(sys.steps, k, b); }
    }
  }

  /** So the value is that of the signs' digits. */
  lemma {:induction false} WorthIsDigits(sys: Sys, b: nat, steps: seq<Inst>)
    requires sys.BaseNearEnd(b) && sys.WholeRadices() && StepsOk(sys, b, steps)
    ensures WorthTotal(sys, b, steps) == DigitValue(sys.steps, Digits(steps))
  {
    if steps != [] {
      var t, s := steps[..|steps| - 1], steps[|steps| - 1];
      WorthIsDigits(sys, b, t);
      WorthIsPer(sys, b, s.step);
      DigitValueAppend(sys.steps, Digits(t), Digit(s.step, s.count.n));
      Swap(Per(sys.steps, s.step, |sys.steps| - 1), s.count.n);
    }
  }

  lemma {:induction false} ValueOfDigits(sys: Sys, b: nat, steps: seq<Inst>, v: Frac)
    requires sys.BaseNearEnd(b) && sys.WholeRadices() && StepsOk(sys, b, steps)
    ensures IsValue(sys, b, steps, v) <==>
            v.d > 0 && Times(v.n, sys.Below(b).n) == Times(DigitValue(sys.steps, Digits(steps)), v.d)
  {
    WorthIsDigits(sys, b, steps);
    WorthIsPer(sys, b, b);
  }

  /** In a system with proper radices two numbers read off as strictly descending signs with made-up counts have
      one value only if they are the same signs. */
  lemma {:induction false} EqualValuesEqualSigns(sys: Sys, b: nat, s: seq<Inst>, t: seq<Inst>, v: Frac)
    requires sys.BaseNearEnd(b) && sys.WholeRadices() && ProperRadices(sys.steps)
    requires Descending(sys.steps, Digits(s)) && Descending(sys.steps, Digits(t))
    requires IsValue(sys, b, s, v) && IsValue(sys, b, t, v)
    ensures Digits(s) == Digits(t)
  {
    ValueOfDigits(sys, b, s, v);
    ValueOfDigits(sys, b, t, v);
    Same(DigitValue(sys.steps, Digits(s)), DigitValue(sys.steps, Digits(t)), v.d);
    ValuesDiffer(sys.steps, Digits(s), Digits(t));
  }

  /** With the base last, in lowest terms it is a whole number. */
  lemma {:induction false} LowestValue(sys: Sys, steps: seq<Inst>, v: Frac)
    requires sys.steps != [] && sys.BaseNearEnd(|sys.steps| - 1) && sys.WholeRadices()
    requires IsValue(sys, |sys.steps| - 1, steps, v) && LowestTerms(v)
    ensures v == Frac(DigitValue(sys.steps, Digits(steps)), 1)
  {
    ValueOfDigits(sys, |sys.steps| - 1, steps, v);
    MultipleDivides(v.d, DigitValue(sys.steps, Digits(steps)));
    MultipleDivides(v.d, 1);
    assert v.n == v.d * DigitValue(sys.steps, Digits(steps));
    assert Divides(v.d, v.n) && Divides(v.d, v.d);
  }

  lemma {:induction false} OneTimes(sys: Sys, b: nat, t: nat)
    requires sys.BaseNearEnd(b) && sys.WholeRadices()
    ensures Times(t, sys.Below(b).d) == t && Times(sys.Below(b).d, sys.Scale(b, b)) == sys.Scale(b, b)
  {
  }

  /** The signs give the value of their digits: plain and whole all the way, or none counts the step below. */
  predicate DigitsCount(sys: Sys, b: nat, steps: seq<Inst>)
    requires b < |sys.steps|
  {
    || b + 1 == |sys.steps| || sys.steps[b + 1].plain || sys.steps[b + 1].mult.n == 1
    || forall i :: 0 <= i < |steps| ==> steps[i].step <= b
  }

  predicate IsDigitValue(sys: Sys, b: nat, steps: seq<Inst>, v: Frac)
    requires StepsOk(sys, b, steps)
  {
    v.d > 0 && Times(v.n, sys.Below(b).n) == Times(DigitValue(sys.steps, Digits(steps)), v.d)
  }

  lemma {:induction false} DigitsOrNot(sys: Sys, b: nat, steps: seq<Inst>, v: Frac)
    requires sys.BaseNearEnd(b) && sys.WholeRadices() && (forall j :: 0 < j <= b ==> sys.steps[j].plain)
    requires StepsOk(sys, b, steps) && v.d > 0 && LowestTerms(v)
    requires AllRight(sys, b, steps) ==> IsValue(sys, b, steps, v)
    requires OneSided(sys, b, steps) ==> (IsValue(sys, b, steps, v) <==> AllRight(sys, b, steps))
    ensures IsDigitValue(sys, b, steps, v) <==> DigitsCount(sys, b, steps)
    ensures b + 1 == |sys.steps| ==> v == Frac(DigitValue(sys.steps, Digits(steps)), 1)
  {
    ValueOfDigits(sys, b, steps, v);
    hide IsValue, OneSided, DigitValue, Times;
    if b + 1 < |sys.steps| {
      OnlyLastStep(sys, b, steps);
    } else {
      forall k | 0 <= k <= b ensures sys.StepRight(b, k) { sys.RightIfWhole(b, k); }
      LowestValue(sys, steps, v);
    }
  }

  /** nx_values_np in a system with whole radices whose steps down to the base are plain: the value is the number the
      signs' digits make of the last step, over the radix under the base, unless a sign counts the step under the base
      and its unit is a fraction of it. */
  method WholeRadixValue(sys: System, steps: seq<NsInst>, conv: nat, ghost b: nat) returns (aev: Frac, mev: Frac)
    requires WholeNumber(sys.def, Defs(steps)) && sys.def.BaseNearEnd(b) && sys.def.IsBase(b)
    requires sys.def.WholeRadices() && forall j :: 0 < j <= b ==> sys.def.steps[j].plain
    requires |sys.aev| == |sys.def.steps| && (sys.aevDone ==> AevsFound(sys, b))
    requires Total(sys.def, b, Defs(steps)) <= LONG_MAX && sys.def.Scale(b, b) <= INT_MAX
    modifies sys, steps
    ensures LowestTerms(aev)
    ensures IsDigitValue(sys.def, b, Defs(steps), aev) <==> DigitsCount(sys.def, b, Defs(steps))
    ensures b + 1 == |sys.def.steps| ==> aev == Frac(DigitValue(sys.def.steps, Digits(Defs(steps))), 1)
    ensures mev == Frac(Wrap(Times(conv, aev.n)), aev.d)
  {
    hide Total, AllRight, OneSided, IsValue, IsReckoned, DigitValue, LowestTerms, Wrap, IsDigitValue, DigitsCount;
    OneTimes(sys.def, b, Total(sys.def, b, Defs(steps)));
    aev, mev := ValuesNp(sys, steps, conv, b);
    DigitsOrNot(sys.def, b, Defs(steps), aev);
  }
}
