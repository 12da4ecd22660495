/** Metrological systems: a chain of steps, each so many of the next, and what one of each is worth. */
module NumberSystems {
  import opened Common
  import opened Fractions

  /** A step: its unit, how many of it make one of the step before, whether its unit is a plain number unit, not
      one of the nf type, and the letter of its axis if it has one. */
  datatype Step = Step(unit: string, mult: Frac, plain: bool, axis: Option<char>)

  /** How many of step j make one of step i. */
  function Per(steps: seq<Step>, i: nat, j: nat): nat
    requires i <= j < |steps|
    decreases j - i
  {
    if i == j then 1 else Times(Per(steps, i + 1, j), steps[i + 1].mult.n)
  }

  lemma {:induction false} PerPositive(steps: seq<Step>, i: nat, j: nat)
    requires i <= j < |steps| && forall k :: i < k <= j ==> steps[k].mult.n > 0
    ensures Per(steps, i, j) > 0
    decreases j - i
  {
    if i < j {
      PerPositive(steps, i + 1, j);
      Positive(Per(steps, i + 1, j), steps[i + 1].mult.n);
    }
  }

  /** The same of the denominators. */
  function PerD(steps: seq<Step>, i: nat, j: nat): nat
    requires i <= j < |steps|
    decreases j - i
  {
    if i == j then 1 else Times(PerD(steps, i + 1, j), steps[i + 1].mult.d)
  }

  lemma {:induction false} PerDPositive(steps: seq<Step>, i: nat, j: nat)
    requires i <= j < |steps| && forall k :: i < k <= j ==> steps[k].mult.d > 0
    ensures PerD(steps, i, j) > 0
    decreases j - i
  {
    if i < j {
      PerDPositive(steps, i + 1, j);
      Positive(PerD(steps, i + 1, j), steps[i + 1].mult.d);
    }
  }

  lemma {:induction false} PerDOne(steps: seq<Step>, i: nat, j: nat)
    requires i <= j < |steps| && forall k :: i < k <= j ==> steps[k].mult.d > 0
    ensures PerD(steps, i, j) == 1 <==> forall k :: i < k <= j ==> steps[k].mult.d == 1
    decreases j - i
  {
    if i < j {
      PerDOne(steps, i + 1, j);
      PerDPositive(steps, i + 1, j);
      Positive(PerD(steps, i + 1, j), steps[i + 1].mult.d);
    }
  }

  lemma {:induction false} PerDSplit(steps: seq<Step>, i: nat, k: nat, j: nat)
    requires i <= k <= j < |steps|
    ensures PerD(steps, i, j) == Times(PerD(steps, i, k), PerD(steps, k, j))
    decreases k - i
  {
    if i < k {
      PerDSplit(steps, i + 1, k, j);
      Swap(PerD(steps, i + 1, k), PerD(steps, k, j));
      Regroup(PerD(steps, k, j), PerD(steps, i + 1, k), steps[i + 1].mult.d);
      Swap(PerD(steps, k, j), Times(PerD(steps, i + 1, k), steps[i + 1].mult.d));
    }
  }

  lemma {:induction false} FiveFactors(a: nat, b: nat, c: nat, d: nat)
    ensures Times(Times(Times(a, b), d), c) == Times(a, Times(Times(b, c), d))
    ensures Times(Times(b, a), d) == Times(a, Times(b, d))
  {
  }

  /** s * n against n/d in the scale of s. */
  lemma {:induction false} RightRatio(s: nat, n: nat, d: nat, w: nat, q: nat)
    requires s > 0 && n > 0 && d > 0 && q > 0 && Times(w, d) == Times(n, q)
    ensures Times(Times(s, n), q) == Times(w, s) <==> d == 1
  {
    CrossOver(Times(s, n), q, w, s, n, d);
    Positive(s, n);
    OneFactor(Times(s, n), d);
  }

  lemma {:induction false} OneFactor(x: nat, d: nat)
    requires x > 0
    ensures Times(x, d) == x <==> d == 1
  {
    if d > 1 { assert x * d >= x * 2; }
  }

  /** x/s is n/d exactly if it is w/q, which is n/d. */
  lemma {:induction false} CrossOver(x: nat, q: nat, w: nat, s: nat, n: nat, d: nat)
    requires d > 0 && q > 0 && Times(w, d) == Times(n, q)
    ensures Times(x, q) == Times(w, s) <==> Times(x, d) == Times(s, n)
  {
  }

  lemma {:induction false} PlainBelow(p: nat, n: nat, d: nat)
    requires p > 0 && n > 0
    ensures Times(n, Times(p, n)) == Times(Times(p, d), Times(n, n)) <==> d == 1
  {
    var x := Times(n, Times(p, n));
    Positive(p, n);
    Positive(n, Times(p, n));
    OneFactor(x, d);
    assert Times(Times(p, d), Times(n, n)) == Times(x, d) by { FactorOut(p, d, n); }
  }

  lemma {:induction false} FactorOut(p: nat, d: nat, n: nat)
    ensures (p * d) * (n * n) == (n * (p * n)) * d
  {
    assert (p * d) * (n * n) == p * (d * (n * n)) == p * ((n * n) * d);
    assert (n * (p * n)) * d == (p * (n * n)) * d;
  }

  lemma {:induction false} FractionBelow(p: nat, n: nat, d: nat)
    requires p > 0
    ensures Times(n, Times(p, n)) == Times(Times(p, d), d) <==> n == d
  {
  }

  lemma {:induction false} Positive(x: nat, y: nat)
    requires x > 0 && y > 0
    ensures Times(x, y) >= x && Times(x, y) >= y
  {
  }

  /** A step further up is worth no less. */
  lemma {:induction false} PerGrows(steps: seq<Step>, h: nat, i: nat, j: nat)
    requires h <= i <= j < |steps| && forall k :: h < k <= j ==> steps[k].mult.n > 0
    ensures Per(steps, h, j) >= Per(steps, i, j)
    decreases i - h
  {
    if h < i {
      PerGrows(steps, h + 1, i, j);
      PerPositive(steps, h + 1, j);
      Positive(Per(steps, h + 1, j), steps[h + 1].mult.n);
    }
  }

  // ---------- The value of one of each step ----------

  /** Product of the denominators of the steps after i. */
  function Denominators(steps: seq<Step>, i: nat): nat
    requires i < |steps|
    decreases |steps| - i
  {
    if i + 1 == |steps| then 1 else Times(steps[i + 1].mult.d, Denominators(steps, i + 1))
  }

  /** A system: its name, its steps, biggest first, the unit its values are reckoned in, if it has one, and its
      determinative, in braces. */
  datatype Sys = Sys(name: string, steps: seq<Step>, base: Option<string>, det: Option<string>) {
    /** The first step with the base's unit. */
    ghost predicate IsBase(b: nat) {
      && b < |steps| && base == Some(steps[b].unit)
      && forall k :: 0 <= k < b ==> steps[k].unit != steps[b].unit
    }

    /** The base is the last step or the last but one; no radix is nothing. */
    predicate BaseNearEnd(b: nat) {
      && b < |steps| <= b + 2
      && forall k :: 0 <= k < |steps| ==> steps[k].mult.n > 0 && steps[k].mult.d > 0
    }

    predicate WholeRadices() { forall k :: 0 <= k < |steps| ==> steps[k].mult.d == 1 }

    /** The radix of the step below the base, or 1/1. */
    function Below(b: nat): Frac
      requires b < |steps|
    {
      if b + 1 < |steps| then steps[b + 1].mult else Frac(1, 1)
    }

    /** What one of step k is worth in the scale the code reckons in, before wrapping. A step above one whose unit
        is a fraction gets the common denominator, whatever is below. */
    function Scale(b: nat, k: nat): nat
      requires b < |steps| && k < |steps|
      decreases |steps| - k
    {
      if k > b then steps[k].mult.n
      else if k + 1 < |steps| && steps[k + 1].plain then Times(Scale(b, k + 1), steps[k + 1].mult.n)
      else Below(b).d
    }

    /** What one of step k is in truth worth in base units: Worth over Common. */
    function Worth(b: nat, k: nat): nat
      requires b < |steps| && k < |steps|
    {
      if k <= b then Times(Times(Per(steps, k, b), PerD(steps, 0, k)), Below(b).n)
      else Times(PerD(steps, 0, b), Below(b).d)
    }

    function Common(b: nat): nat
      requires b < |steps|
    {
      Times(PerD(steps, 0, b), Below(b).n)
    }

    /** The code's value of one of step k is the true one. */
    predicate StepRight(b: nat, k: nat)
      requires b < |steps| && k < |steps|
    {
      Times(Scale(b, k), Common(b)) == Times(Worth(b, k), Scale(b, b))
    }

    lemma {:induction false} OneDenominator(b: nat)
      requires BaseNearEnd(b)
      ensures Denominators(steps, b) == Below(b).d
    {
    }

    lemma {:induction false} ScalePositive(b: nat, k: nat)
      requires BaseNearEnd(b) && k < |steps|
      ensures Scale(b, k) > 0
      decreases |steps| - k
    {
      if k <= b && k + 1 < |steps| && steps[k + 1].plain {
        ScalePositive(b, k + 1);
        Positive(Scale(b, k + 1), steps[k + 1].mult.n);
      }
    }

    lemma {:induction false} CommonPositive(b: nat)
      requires BaseNearEnd(b)
      ensures Common(b) > 0 && PerD(steps, 0, b) > 0
    {
      PerDPositive(steps, 0, b);
      Positive(PerD(steps, 0, b), Below(b).n);
    }

    /** Worth over Common is the product of the radices from the step down to the base, and under the base the
        inverse of the radix. */
    lemma {:induction false} WorthIsRadices(b: nat, k: nat)
      requires BaseNearEnd(b) && k < |steps|
      ensures k <= b ==> Times(Worth(b, k), PerD(steps, k, b)) == Times(Per(steps, k, b), Common(b))
      ensures k > b ==> Times(Worth(b, k), steps[k].mult.n) == Times(steps[k].mult.d, Common(b))
    {
      if k <= b {
        PerDSplit(steps, 0, k, b);
        FiveFactors(Per(steps, k, b), PerD(steps, 0, k), PerD(steps, k, b), Below(b).n);
      } else {
        FiveFactors(steps[k].mult.d, PerD(steps, 0, b), 1, steps[k].mult.n);
      }
    }

    /** Where the steps from k down to the base are plain, the code is right about step k if and only if the
        radices down to the base are whole. */
    lemma {:induction false} RightIfWhole(b: nat, k: nat)
      requires BaseNearEnd(b) && k <= b && forall j :: k < j <= b ==> steps[j].plain
      ensures StepRight(b, k) <==> forall j :: k < j <= b ==> steps[j].mult.d == 1
    {
      PlainScale(b, k);
      WorthIsRadices(b, k);
      PerDOne(steps, k, b);
      PerDPositive(steps, k, b);
      PerPositive(steps, k, b);
      ScalePositive(b, b);
      CommonPositive(b);
      RightRatio(Scale(b, b), Per(steps, k, b), PerD(steps, k, b), Worth(b, k), Common(b));
    }

    lemma {:induction false} PlainScale(b: nat, k: nat)
      requires BaseNearEnd(b) && k <= b && forall j :: k < j <= b ==> steps[j].plain
      ensures Scale(b, k) == Times(Scale(b, b), Per(steps, k, b))
      decreases b - k
    {
      if k < b {
        PlainScale(b, k + 1);
        Regroup(Scale(b, b), Per(steps, k + 1, b), steps[k + 1].mult.n);
      }
    }

    /** Above a step j whose unit is a fraction, with plain steps between, it is right only if j happens to make
        up for it. */
    lemma {:induction false} RightAboveFraction(b: nat, k: nat, j: nat)
      requires BaseNearEnd(b) && k < j <= b && !steps[j].plain && forall i :: k < i < j ==> steps[i].plain
      ensures StepRight(b, k) <==>
              Times(Times(Below(b).d, Per(steps, k, j - 1)), PerD(steps, k, b)) == Times(Scale(b, b), Per(steps, k, b))
    {
      CutScale(b, k, j);
      WorthIsRadices(b, k);
      PerDPositive(steps, k, b);
      CommonPositive(b);
      CrossOver(Scale(b, k), Common(b), Worth(b, k), Scale(b, b), Per(steps, k, b), PerD(steps, k, b));
    }

    lemma {:induction false} CutScale(b: nat, k: nat, j: nat)
      requires BaseNearEnd(b) && k < j <= b && !steps[j].plain && forall i :: k < i < j ==> steps[i].plain
      ensures Scale(b, k) == Times(Below(b).d, Per(steps, k, j - 1))
      decreases j - k
    {
      if k + 1 < j {
        CutScale(b, k + 1, j);
        Regroup(Below(b).d, Per(steps, k + 1, j - 1), steps[k + 1].mult.n);
      }
    }

    /** About the step under the base it is right if and only if the radix is whole or, where the unit is a
        fraction, one. */
    lemma {:induction false} RightBelowBase(b: nat)
      requires BaseNearEnd(b) && b + 1 < |steps|
      ensures StepRight(b, b + 1) <==>
              if steps[b + 1].plain then steps[b + 1].mult.d == 1 else steps[b + 1].mult.n == steps[b + 1].mult.d
    {
      var p, n, d := PerD(steps, 0, b), steps[b + 1].mult.n, steps[b + 1].mult.d;
      CommonPositive(b);
      if steps[b + 1].plain {
        assert Scale(b, b) == Times(n, n);
        PlainBelow(p, n, d);
      } else {
        assert Scale(b, b) == d;
        FractionBelow(p, n, d);
      }
    }
  }

  /** A sign: its text, the system and the step it counts, how many of it, and the letter of the step's axis. */
  datatype Inst = Inst(text: string, sys: Sys, step: nat, count: Frac, axis: Option<char>)

  /** struct ns_inst: a sign with its links in the registry and its value. */
  class NsInst {
    const def: Inst
    var irNext: NsInst?
    var irLast: NsInst?
    var aev: Frac

    constructor (def: Inst)
      ensures this.def == def && irNext == null && irLast == null
    {
      this.def := def;
      irNext, irLast, aev := null, null, Frac(0, 0);
    }
  }

  function Defs(steps: seq<NsInst>): (r: seq<Inst>)
    ensures |r| == |steps| && forall i :: 0 <= i < |steps| ==> r[i] == steps[i].def
  {
    if steps == [] then [] else Defs(steps[..|steps| - 1]) + [steps[|steps| - 1].def]
  }

  class System {
    const def: Sys
    var aev: seq<Frac>           // per step
    var aevDone: bool
    var baseStep: Option<nat>

    constructor (def: Sys)
      ensures this.def == def && !aevDone
      ensures |aev| == |def.steps| && forall k :: 0 <= k < |aev| ==> aev[k] == Frac(0, 0)
    {
      this.def := def;
      aev := seq(|def.steps|, _ => Frac(0, 0));
      aevDone, baseStep := false, None;
    }

    /** nx_set_aev_r: the step gets the value the step below gives it. */
    method SetAevR(s: nat, d: nat)
      requires s < |aev| == |def.steps|
      modifies this`aev
      ensures |aev| == |old(aev)| && EvaluatedAt(aev, s, d)
      ensures forall k :: 0 <= k < |aev| && k != s ==> aev[k] == old(aev)[k]
    {
      var n := d;
      if s + 1 < |def.steps| && def.steps[s + 1].plain {
        n := Wrap(Times(aev[s + 1].n, def.steps[s + 1].mult.n));
      }
      aev := aev[s := Frac(n, d)];
    }

    /** The common denominator of the steps after s, and the last step. */
    method CommonDenominator(s: nat) returns (d: nat, last: nat)
      requires s < |def.steps|
      ensures d == Denominators(def.steps, s) && last == |def.steps| - 1
    {
      d, last := 1, s;
      while last + 1 < |def.steps|
        invariant s <= last < |def.steps|
        invariant Times(d, Denominators(def.steps, last)) == Denominators(def.steps, s)
        decreases |def.steps| - last
      {
        Regroup(d, def.steps[last + 1].mult.d, Denominators(def.steps, last + 1));
        d := Times(d, def.steps[last + 1].mult.d);
        last := last + 1;
      }
    }

    /** nx_sys_aevs, for a system whose base unit, if it has one, is among its steps. */
    method SysAevs()
      requires |aev| == |def.steps| && (def.base.Some? ==> exists b: nat :: def.IsBase(b))
      requires forall k :: 0 <= k < |def.steps| ==> def.steps[k].mult.d > 0
      modifies this
      ensures aevDone && |aev| == |def.steps|
      ensures def.base.None? ==> baseStep.None? && aev == old(aev)
      ensures def.base.Some? ==> baseStep.Some? && def.IsBase(baseStep.value) && Evaluated(baseStep.value)
      ensures def.base.Some? ==> forall k :: baseStep.value < k < |def.steps| - 1 ==> aev[k] == old(aev)[k]
    {
      aevDone := true;
      baseStep := None;
      if def.base.None? { return; }
      var s := 0;
      ghost var b: nat :| def.IsBase(b);
      while s < |def.steps| && def.steps[s].unit != def.base.value
        invariant s <= b && forall k :: 0 <= k < s ==> def.steps[k].unit != def.base.value
      {
        s := s + 1;
      }
      baseStep := Some(s);
      var d, last := CommonDenominator(s);
      aev := aev[last := Frac(Wrap(Times(def.steps[last].mult.n, Quotient(d, def.steps[last].mult.d))), d)];
      var big := s as int;
      ghost var top := aev[last];
      while big >= 0
        invariant -1 <= big <= s && |aev| == |def.steps| && aevDone && baseStep == Some(s)
        invariant last > s ==> aev[last] == top
        invariant forall k :: s < k < last ==> aev[k] == old(aev)[k]
        invariant forall k :: big < k <= s ==> EvaluatedAt(aev, k, d)
      {
        ghost var before := aev;
        SetAevR(big, d);
        forall k | big - 1 < k <= s ensures EvaluatedAt(aev, k, d) {
          if k > big { assert EvaluatedAt(before, k, d); }
        }
        big := big - 1;
      }
    }

    /** A step up to the base has the value the step below gives it. */
    predicate EvaluatedAt(a: seq<Frac>, k: nat, d: nat)
      requires k < |a| == |def.steps|
    {
      var n :=
        if k + 1 < |def.steps| && def.steps[k + 1].plain then Wrap(Times(a[k + 1].n, def.steps[k + 1].mult.n)) else d;
      a[k] == Frac(n, d)
    }

    ghost predicate Evaluated(b: nat)
      requires b < |aev| == |def.steps|
      requires forall k :: 0 <= k < |def.steps| ==> def.steps[k].mult.d > 0
      reads this
    {
      var d, last := Denominators(def.steps, b), |def.steps| - 1;
      && (forall k :: 0 <= k <= b ==> EvaluatedAt(aev, k, d))
      && (b < last ==> aev[last] == Frac(Wrap(Times(def.steps[last].mult.n, Quotient(d, def.steps[last].mult.d))), d))
    }

    /** The values found are those of Scale, over one denominator. */
    lemma {:induction false} AevsAreScales(b: nat, k: nat)
      requires def.BaseNearEnd(b) && |aev| == |def.steps| && k < |def.steps| && Evaluated(b)
      requires def.Below(b).d <= INT_MAX
      ensures aev[k] == Frac(Wrap(def.Scale(b, k)), def.Below(b).d)
      decreases |def.steps| - k
    {
      def.OneDenominator(b);
      if k <= b {
        assert EvaluatedAt(aev, k, def.Below(b).d);
        if k + 1 < |def.steps| && def.steps[k + 1].plain {
          AevsAreScales(b, k + 1);
          WrapTimes(def.Scale(b, k + 1), def.steps[k + 1].mult.n);
        } else {
          assert def.Below(b).d < U64;
        }
      } else {
        assert Times(def.steps[k].mult.n, Quotient(def.steps[k].mult.d, def.steps[k].mult.d)) == def.steps[k].mult.n;
      }
    }
  }

  lemma {:induction false} Regroup(x: nat, y: nat, z: nat)
    ensures Times(x, Times(y, z)) == Times(Times(x, y), z)
  {
  }

  // ---------- Signs ----------

  /** A sign of a whole count of a step. */
  datatype Digit = Digit(step: nat, count: nat)

  /** The largest count nsb_wrapup_step makes a sign for: its loop runs at least once. */
  function MaxCount(mult: nat): nat { if mult > 2 then mult - 1 else 1 }

  /** Signs as the parser accepts them: strictly descending steps, counts that have a sign. */
  predicate Descending(steps: seq<Step>, ds: seq<Digit>) {
    && (forall i :: 0 <= i < |ds| ==> ds[i].step < |steps| && 1 <= ds[i].count <= MaxCount(steps[ds[i].step].mult.n))
    && (forall i :: 0 < i < |ds| ==> ds[i - 1].step < ds[i].step)
  }

  /** The value in units of the last step. */
  function DigitValue(steps: seq<Step>, ds: seq<Digit>): nat
    requires forall i :: 0 <= i < |ds| ==> ds[i].step < |steps|
  {
    if ds == [] then 0
    else Times(ds[0].count, Per(steps, ds[0].step, |steps| - 1)) + DigitValue(steps, ds[1..])
  }

  /** A count for every step, read down the steps: so many of each makes so many times its radix of the next. */
  function ReadDown(steps: seq<Step>, counts: seq<nat>): nat
    requires |counts| <= |steps|
  {
    if counts == [] then 0
    else
      var k := |counts| - 1;
      ReadDown(steps, counts[..k]) * steps[k].mult.n + counts[k]
  }

  /** What the counts from step k on are worth. */
  function WorthFrom(steps: seq<Step>, counts: seq<nat>, k: nat): nat
    requires |counts| == |steps| && k <= |steps|
    decreases |steps| - k
  {
    if k == |steps| then 0 else Times(counts[k], Per(steps, k, |steps| - 1)) + WorthFrom(steps, counts, k + 1)
  }

  lemma {:induction false} ReadDownSplit(steps: seq<Step>, counts: seq<nat>, k: nat)
    requires |counts| == |steps| && k < |steps|
    ensures Times(ReadDown(steps, counts[..k + 1]), Per(steps, k, |steps| - 1)) + WorthFrom(steps, counts, k + 1) ==
            WorthFrom(steps, counts, 0)
  {
    var n, r := |steps| - 1, ReadDown(steps, counts[..k]);
    assert counts[..k + 1][..k] == counts[..k];
    OneMoreDown(r, steps[k].mult.n, counts[k], Per(steps, k, n));
    if k > 0 { ReadDownSplit(steps, counts, k - 1); }
  }

  lemma {:induction false} OneMoreDown(r: nat, m: nat, c: nat, p: nat)
    ensures Times(r * m + c, p) == Times(r, Times(p, m)) + Times(c, p)
    ensures Times(0 * m + c, p) == Times(c, p)
  {
    assert (r * m + c) * p == (r * m) * p + c * p;
    assert (r * m) * p == r * (p * m);
  }

  /** No counts on the steps k..m. */
  lemma {:induction false} NothingBetween(steps: seq<Step>, counts: seq<nat>, k: nat, m: nat)
    requires |counts| == |steps| && k <= m <= |steps| && forall s :: k <= s < m ==> counts[s] == 0
    ensures WorthFrom(steps, counts, k) == WorthFrom(steps, counts, m)
    decreases m - k
  {
    if k < m { NothingBetween(steps, counts, k + 1, m); }
  }

  /** The digits are the counts from step k on that are not nothing. */
  predicate Counted(ds: seq<Digit>, counts: seq<nat>, k: nat) {
    && (forall i :: 0 <= i < |ds| ==> k <= ds[i].step < |counts| && counts[ds[i].step] == ds[i].count)
    && (forall i, j :: 0 <= i < j < |ds| ==> ds[i].step < ds[j].step)
    && forall s :: k <= s < |counts| && counts[s] != 0 ==> exists i :: 0 <= i < |ds| && ds[i].step == s
  }

  /** The value of digits is what their counts, and nothing on the other steps, read as on the way down. */
  lemma {:induction false} DigitsReadDown(steps: seq<Step>, ds: seq<Digit>, counts: seq<nat>)
    requires |counts| == |steps| > 0 && Counted(ds, counts, 0)
    ensures DigitValue(steps, ds) == ReadDown(steps, counts)
  {
    var n := |steps| - 1;
    ReadDownSplit(steps, counts, n);
    assert counts[..n + 1] == counts && Per(steps, n, n) == 1;
    DigitsAreWorth(steps, ds, counts, 0);
  }

  lemma {:induction false} DigitsAreWorth(steps: seq<Step>, ds: seq<Digit>, counts: seq<nat>, k: nat)
    requires |counts| == |steps| && k <= |steps| && Counted(ds, counts, k)
    ensures DigitValue(steps, ds) == WorthFrom(steps, counts, k)
    decreases |ds|
  {
    if ds == [] {
      NothingBetween(steps, counts, k, |steps|);
    } else {
      var s, rest := ds[0].step, ds[1..];
      NothingBetween(steps, counts, k, s);
      forall t | s + 1 <= t < |counts| && counts[t] != 0 ensures exists i :: 0 <= i < |rest| && rest[i].step == t {
        var i :| 0 <= i < |ds| && ds[i].step == t;
        assert rest[i - 1].step == t;
      }
      DigitsAreWorth(steps, rest, counts, s + 1);
    }
  }

  /** Every step but the first has a radix of two or more. */
  predicate ProperRadices(steps: seq<Step>) {
    forall k :: 0 < k < |steps| ==> steps[k].mult.n >= 2
  }

  lemma {:induction false} DescendingTail(steps: seq<Step>, ds: seq<Digit>)
    requires Descending(steps, ds) && ds != []
    ensures Descending(steps, ds[1..])
    ensures |ds| > 1 ==> ds[0].step < ds[1..][0].step
  {
    assert forall i :: 0 < i < |ds[1..]| ==> ds[1..][i - 1] == ds[i] && ds[1..][i] == ds[i + 1];
  }

  lemma {:induction false} ProductLess(c: nat, m: nat, p: nat)
    requires c < m
    ensures Times(c, p) + p <= Times(m, p)
  {
    assert (c + 1) * p <= m * p;
  }

  /** Signs below a step are worth less than one of it. */
  lemma {:induction false} BelowTop(steps: seq<Step>, ds: seq<Digit>, t: nat)
    requires ProperRadices(steps) && Descending(steps, ds)
    requires t < |steps| && (ds != [] ==> t < ds[0].step)
    ensures DigitValue(steps, ds) < Per(steps, t, |steps| - 1)
    decreases |ds|
  {
    var n := |steps| - 1;
    PerPositive(steps, t, n);
    if ds != [] {
      var s := ds[0].step;
      DescendingTail(steps, ds);
      BelowTop(steps, ds[1..], s);
      PerGrows(steps, t, s - 1, n);
      ProductLess(ds[0].count, steps[s].mult.n, Per(steps, s, n));
      Swap(Per(steps, s, n), steps[s].mult.n);
    }
  }

  lemma {:induction false} Swap(x: nat, y: nat)
    ensures Times(x, y) == Times(y, x)
  {
  }

  /** A number is worth less than the radix of its top step (two where the radix is less) times its unit. */
  lemma {:induction false} ValueBound(steps: seq<Step>, ds: seq<Digit>)
    requires ProperRadices(steps) && Descending(steps, ds) && ds != []
    ensures var s := ds[0].step;
            DigitValue(steps, ds) < Times(MaxCount(steps[s].mult.n) + 1, Per(steps, s, |steps| - 1))
  {
    DescendingTail(steps, ds);
    BelowTop(steps, ds[1..], ds[0].step);
    ProductLess(ds[0].count, MaxCount(steps[ds[0].step].mult.n) + 1, Per(steps, ds[0].step, |steps| - 1));
  }

  /** The number with the higher top step, or with more of the same one, is worth more. */
  lemma {:induction false} HigherTop(steps: seq<Step>, ds: seq<Digit>, es: seq<Digit>)
    requires ProperRadices(steps) && Descending(steps, ds) && Descending(steps, es) && ds != []
    requires es == [] || ds[0].step < es[0].step || (ds[0].step == es[0].step && ds[0].count > es[0].count)
    ensures DigitValue(steps, ds) > DigitValue(steps, es)
  {
    var s, n := ds[0].step, |steps| - 1;
    PerPositive(steps, s, n);
    Positive(ds[0].count, Per(steps, s, n));
    if es != [] {
      if s < es[0].step {
        BelowTop(steps, es, s);
      } else {
        DescendingTail(steps, es);
        BelowTop(steps, es[1..], s);
        ProductLess(es[0].count, ds[0].count, Per(steps, s, n));
      }
    }
  }

  /** Different numbers have different values. */
  lemma {:induction false} ValuesDiffer(steps: seq<Step>, ds: seq<Digit>, es: seq<Digit>)
    requires ProperRadices(steps) && Descending(steps, ds) && Descending(steps, es)
    requires DigitValue(steps, ds) == DigitValue(steps, es)
    ensures ds == es
    decreases |ds|
  {
    if ds == [] {
      if es != [] { HigherTop(steps, es, ds); }
    } else if es == [] || ds[0].step < es[0].step || (ds[0].step == es[0].step && ds[0].count > es[0].count) {
      HigherTop(steps, ds, es);
    } else if es[0].step < ds[0].step || es[0].count > ds[0].count {
      HigherTop(steps, es, ds);
    } else {
      DescendingTail(steps, ds);
      DescendingTail(steps, es);
      ValuesDiffer(steps, ds[1..], es[1..]);
      assert ds == [ds[0]] + ds[1..] && es == [es[0]] + es[1..];
    }
  }

  ghost predicate Unambiguous(steps: seq<Step>) {
    forall ds, es ::
      Descending(steps, ds) && Descending(steps, es) && DigitValue(steps, ds) == DigitValue(steps, es) ==> ds == es
  }

  /** And only then: a radix of one makes two signs of one value. */
  lemma {:induction false} UnambiguousIffProper(steps: seq<Step>)
    requires forall k :: 0 <= k < |steps| ==> steps[k].mult.n > 0 && steps[k].mult.d == 1
    ensures Unambiguous(steps) <==> ProperRadices(steps)
  {
    if ProperRadices(steps) {
      forall ds, es | Descending(steps, ds) && Descending(steps, es) && DigitValue(steps, ds) == DigitValue(steps, es)
        ensures ds == es
      {
        ValuesDiffer(steps, ds, es);
      }
    } else {
      var k :| 0 < k < |steps| && steps[k].mult.n < 2;
      RadixOfOne(steps, k);
    }
  }

  /** One of a step and one of the step below it, where that has a radix of one. */
  lemma {:induction false} RadixOfOne(steps: seq<Step>, k: nat)
    requires 0 < k < |steps| && steps[k].mult.n == 1
    ensures var ds, es := [Digit(k - 1, 1)], [Digit(k, 1)];
            Descending(steps, ds) && Descending(steps, es) && DigitValue(steps, ds) == DigitValue(steps, es) && ds != es
  {
    var ds, es := [Digit(k - 1, 1)], [Digit(k, 1)];
    assert ds[1..] == [] && es[1..] == [];
    assert Per(steps, k - 1, |steps| - 1) == Per(steps, k, |steps| - 1);
    assert ds[0] != es[0];
  }
}
