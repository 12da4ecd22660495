/** Building the signs of a system and the registry that finds them by their text: ns_build. */
module InstanceRegistry {
  import opened Common
  import opened Fractions
  import opened NumberSystems

  /** The instances with one text, in order. */
  function WithText(all: seq<NsInst>, text: string): seq<NsInst> {
    if all == [] then []
    else WithText(all[..|all| - 1], text) + if all[|all| - 1].def.text == text then [all[|all| - 1]] else []
  }

  lemma {:induction false} WithTextAppend(all: seq<NsInst>, i: NsInst, text: string)
    ensures WithText(all + [i], text) == WithText(all, text) + if i.def.text == text then [i] else []
  {
    assert (all + [i])[..|all|] == all;
  }

  /** Different instances from repr, all with text t. */
  predicate IsChain(chain: seq<NsInst>, t: string, repr: set<NsInst>) {
    && chain != []
    && (forall k :: 0 <= k < |chain| ==> chain[k] in repr && chain[k].def.text == t)
    && forall j, k :: 0 <= j < k < |chain| ==> chain[j] != chain[k]
  }

  /** The ir_next links run through chain from its head to null, and the head's ir_last is its end. */
  ghost predicate Linked(chain: seq<NsInst>, t: string, repr: set<NsInst>)
    requires IsChain(chain, t, repr)
    reads repr
  {
    && (forall k :: 0 <= k < |chain| - 1 ==> chain[k].irNext == chain[k + 1])
    && chain[|chain| - 1].irNext == null
    && chain[0].irLast == chain[|chain| - 1]
  }

  function ChainOf(chains: map<string, seq<NsInst>>, t: string): seq<NsInst> {
    if t in chains then chains[t] else []
  }

  /** The chains are the instances sorted by text. */
  ghost predicate Indexes(chains: map<string, seq<NsInst>>, all: seq<NsInst>) {
    forall t :: WithText(all, t) == ChainOf(chains, t)
  }

  lemma {:induction false} IndexesAppend(chains: map<string, seq<NsInst>>, all: seq<NsInst>, i: NsInst)
    requires Indexes(chains, all)
    ensures Indexes(chains[i.def.text := ChainOf(chains, i.def.text) + [i]], all + [i])
  {
    forall t ensures WithText(all + [i], t) == ChainOf(chains[i.def.text := ChainOf(chains, i.def.text) + [i]], t) {
      WithTextAppend(all, i, t);
    }
  }

  class Registry {
    var ir: map<string, NsInst>                // text to the head of its chain
    ghost var all: seq<NsInst>                 // every instance, in the order registered
    ghost var chains: map<string, seq<NsInst>>
    ghost var repr: set<NsInst>

    constructor ()
      ensures Valid() && all == [] && repr == {}
    {
      ir, all, chains, repr := map[], [], map[], {};
    }

    /** The heads of the chains and the links in them. */
    ghost predicate ChainsOk()
      reads this, repr
    {
      && chains.Keys == ir.Keys
      && forall t :: t in chains ==> IsChain(chains[t], t, repr) && ir[t] == chains[t][0] && Linked(chains[t], t, repr)
    }

    ghost predicate Valid()
      reads this, repr
    {
      && ChainsOk()
      && Indexes(chains, all)
    }

    /** Link i in after the end of the chain of r. */
    method Append(r: NsInst, i: NsInst, ghost chain: seq<NsInst>)
      requires IsChain(chain, i.def.text, repr) && r == chain[0]
      requires Linked(chain, i.def.text, repr) && i !in repr && i.irNext == null
      modifies chain[0], chain[|chain| - 1]
      ensures IsChain(chain + [i], i.def.text, repr + {i}) && Linked(chain + [i], i.def.text, repr + {i})
    {
      if r.irLast.irNext != null {
        assert false;  // the source's "r->ir_last->ir_next not null" cannot happen
      } else {
        r.irLast.irNext := i;
        r.irLast := i;
      }
    }

    /** nsb_inst_register: the new instance goes to the end of its text's chain. */
    method Register(i: NsInst)
      requires Valid() && i !in repr && i.irNext == null && i.irLast == null
      modifies this, repr, i
      ensures Valid() && all == old(all) + [i] && repr == old(repr) + {i}
    {
      IndexesAppend(chains, all, i);
      Link(i, ChainOf(chains, i.def.text));
      all := all + [i];
    }

    method Link(i: NsInst, ghost chain: seq<NsInst>)
      requires ChainsOk() && i !in repr && i.irNext == null && i.irLast == null
      requires chain == ChainOf(chains, i.def.text)
      modifies this`ir, this`chains, this`repr, repr, i
      ensures ChainsOk() && chains == old(chains)[i.def.text := chain + [i]] && repr == old(repr) + {i}
    {
      if i.def.text in ir {
        Append(ir[i.def.text], i, chain);
      } else {
        i.irLast := i;
        ir := ir[i.def.text := i];
      }
      OthersLinked(i.def.text);
      Wider(i);
      Enter(i, chain + [i]);
    }

    /** The new chain takes its place among the others. */
    ghost method Enter(i: NsInst, chain: seq<NsInst>)
      requires IsChain(chain, i.def.text, repr + {i}) && Linked(chain, i.def.text, repr + {i})
      requires ir.Keys == chains.Keys + {i.def.text} && ir[i.def.text] == chain[0]
      requires forall t :: t in chains && t != i.def.text ==>
                 IsChain(chains[t], t, repr + {i}) && ir[t] == chains[t][0] && Linked(chains[t], t, repr + {i})
      modifies this`chains, this`repr
      ensures ChainsOk() && chains == old(chains)[i.def.text := chain] && repr == old(repr) + {i}
    {
      chains := chains[i.def.text := chain];
      repr := repr + {i};
    }

    /** Chains of other texts are linked as they were. */
    twostate lemma OthersLinked(text: string)
      requires old(ChainsOk()) && chains == old(chains) && repr == old(repr)
      requires forall j :: j in repr && j.def.text != text ==> j.irNext == old(j.irNext) && j.irLast == old(j.irLast)
      ensures forall t :: t in chains && t != text ==> Linked(chains[t], t, repr)
    {
      forall t | t in chains && t != text ensures Linked(chains[t], t, repr) {
        assert old(Linked(chains[t], t, repr));
        assert IsChain(chains[t], t, repr);
      }
    }

    /** Being linked does not depend on what else there is. */
    lemma {:induction false} Wider(i: NsInst)
      requires forall t :: t in chains ==> IsChain(chains[t], t, repr)
      ensures forall t :: t in chains ==> IsChain(chains[t], t, repr + {i})
      ensures forall t :: t in chains && IsChain(chains[t], t, repr) && Linked(chains[t], t, repr) ==>
              Linked(chains[t], t, repr + {i})
    {
    }

    /** What the parser does with a text: from the hashed head along ir_next. */
    method Chain(text: string) returns (chain: seq<NsInst>)
      requires Valid()
      ensures chain == WithText(all, text)
    {
      chain := [];
      if text !in ir { return; }
      ghost var c := chains[text];
      assert Linked(c, text, repr);
      var jp: NsInst? := ir[text];
      while jp != null
        invariant |chain| <= |c| && chain == c[..|chain|]
        invariant jp == if |chain| < |c| then c[|chain|] else null
        decreases |c| - |chain|
      {
        chain := chain + [jp];
        jp := jp.irNext;
      }
    }
  }

  // ---------- Signs made up for the steps of a system ----------

  /** fixed_n. */
  const FIXED_N := ["0", "1", "2", "3", "4", "5", "6", "7", "8", "9", "10"]
  const N_FIXED := 11

  function SignText(m: nat, unit: string): string
    requires m < N_FIXED
  {
    FIXED_N[m] + "(" + unit + ")"
  }

  /** The text of a sign tells its count and its unit. */
  lemma {:induction false} SignTextTells(m: nat, u: string, n: nat, v: string)
    requires m < N_FIXED && n < N_FIXED && SignText(m, u) == SignText(n, v)
    ensures m == n && u == v
  {
    var s := SignText(m, u);
    assert s[0] == FIXED_N[m][0] == FIXED_N[n][0];
    assert |FIXED_N[m]| == (if m == 10 then 2 else 1) && |FIXED_N[n]| == (if n == 10 then 2 else 1);
    assert s[1] == if m == 10 then '0' else '(';
    assert s[1] == if n == 10 then '0' else '(';
    var k := |FIXED_N[m]| + 1;
    assert s[k..|s| - 1] == u && s[k..|s| - 1] == v;
  }

  /** A sign the code makes up for so many of a step with a whole radix. */
  predicate MadeUp(i: Inst) {
    && i.step < |i.sys.steps| && i.sys.steps[i.step].mult.d == 1 && i.axis.None?
    && i.count.d == 1 && 1 <= i.count.n <= MaxCount(i.sys.steps[i.step].mult.n) && i.count.n < N_FIXED
    && i.text == SignText(i.count.n, i.sys.steps[i.step].unit)
  }

  /** strchr, as an index; the length if there is none. */
  function IndexOf(s: string, c: char): (k: nat)
    ensures k <= |s| && (k < |s| ==> s[k] == c) && c !in s[..k]
  {
    if s == [] || s[0] == c then 0
    else
      assert s[..1 + IndexOf(s[1..], c)] == [s[0]] + s[1..][..IndexOf(s[1..], c)];
      1 + IndexOf(s[1..], c)
  }

  /** atoi of a text that begins with a digit: the number its digits make. */
  function Atoi(s: string, n: nat): nat
    decreases |s|
  {
    if s != "" && '0' <= s[0] <= '9' then Atoi(s[1..], 10 * n + (s[0] - '0') as nat) else n
  }

  /** What nsb_inst_frac reads off a unit: its fraction, if there is a parenthesis after the slash. */
  function PartOf(unit: string): Option<Frac> {
    var k := IndexOf(unit, '/');
    if k < |unit| && IndexOf(unit[k + 1..], '(') < |unit[k + 1..]| then
      Some(Frac(Atoi(unit, 0), Atoi(unit[k + 1..], 0)))
    else None
  }

  predicate IsPart(s: Step) { s.axis.None? && '/' in s.unit }

  /** The counts of a step for which signs are made up. */
  function SignsOf(s: Step): nat { if s.axis.None? && !IsPart(s) && s.mult.d == 1 then MaxCount(s.mult.n) else 0 }

  /** The code has words for ten at most. */
  predicate Makeable(s: Step) { SignsOf(s) < N_FIXED }

  /** A sign whose text is the unit is added, without a look whether there is one. */
  predicate Blind(s: Step) { s.axis.Some? || (IsPart(s) && PartOf(s.unit).Some?) }

  function BlindSign(sys: Sys, j: nat): Inst
    requires j < |sys.steps| && Blind(sys.steps[j])
  {
    var s := sys.steps[j];
    Inst(s.unit, sys, j, if s.axis.Some? then Frac(0, 0) else PartOf(s.unit).value, s.axis)
  }

  /** Signs for up to m of step j, but for texts that have one. */
  function CountSigns(sys: Sys, j: nat, m: nat, texts: set<string>): seq<Inst>
    requires j < |sys.steps| && m < N_FIXED
  {
    if m == 0 then []
    else
      var g := SignText(m, sys.steps[j].unit);
      CountSigns(sys, j, m - 1, texts) + if g in texts then [] else [Inst(g, sys, j, Frac(m, 1), None)]
  }

  /** The signs nsb_wrapup_step adds when the system has these texts. */
  function StepSigns(sys: Sys, j: nat, texts: set<string>): seq<Inst>
    requires j < |sys.steps| && Makeable(sys.steps[j])
  {
    if Blind(sys.steps[j]) then [BlindSign(sys, j)] else CountSigns(sys, j, SignsOf(sys.steps[j]), texts)
  }

  function TextsOf(signs: seq<Inst>): (r: set<string>)
    ensures forall k :: 0 <= k < |signs| ==> signs[k].text in r
  {
    set k | 0 <= k < |signs| :: signs[k].text
  }

  /** The signs nsb_wrapup adds for the steps before n. */
  function AllSigns(sys: Sys, n: nat, texts: set<string>): seq<Inst>
    requires n <= |sys.steps| && forall j :: 0 <= j < n ==> Makeable(sys.steps[j])
  {
    if n == 0 then []
    else
      var front := AllSigns(sys, n - 1, texts);
      front + StepSigns(sys, n - 1, texts + TextsOf(front))
  }

  lemma {:induction false} TextsJoin(a: seq<Inst>, b: seq<Inst>)
    ensures TextsOf(a + b) == TextsOf(a) + TextsOf(b)
  {
    forall t | t in TextsOf(a) + TextsOf(b) ensures t in TextsOf(a + b) {
      if t in TextsOf(a) {
        var k :| 0 <= k < |a| && a[k].text == t;
        assert (a + b)[k].text == t;
      } else {
        var k :| 0 <= k < |b| && b[k].text == t;
        assert (a + b)[|a| + k].text == t;
      }
    }
  }

  /** Whole steps get a sign for each count, unless the text has one. */
  lemma {:induction false} CountsHaveSigns(sys: Sys, j: nat, m: nat, texts: set<string>, c: nat)
    requires j < |sys.steps| && 1 <= c <= m < N_FIXED
    ensures SignText(c, sys.steps[j].unit) in texts + TextsOf(CountSigns(sys, j, m, texts))
  {
    hide SignText;
    var g := SignText(m, sys.steps[j].unit);
    TextsJoin(CountSigns(sys, j, m - 1, texts), if g in texts then [] else [Inst(g, sys, j, Frac(m, 1), None)]);
    if c < m {
      CountsHaveSigns(sys, j, m - 1, texts, c);
    } else if g !in texts {
      assert [Inst(g, sys, j, Frac(m, 1), None)][0].text == g;
    }
  }

  /** Every count below a whole radix, and one at least, has a sign afterwards: its digits, and the unit in
      parentheses. */
  lemma {:induction false} EveryCountHasSign(sys: Sys, n: nat, texts: set<string>, j: nat, c: nat, text: string)
    requires j < n <= |sys.steps| && (forall i :: 0 <= i < n ==> Makeable(sys.steps[i]))
    requires var s := sys.steps[j]; s.axis.None? && '/' !in s.unit && s.mult.d == 1 && (c == 1 || 1 < c < s.mult.n)
    requires c <= 10
    requires text == (if c < 10 then ["0123456789"[c]] else "10") + "(" + sys.steps[j].unit + ")"
    ensures text in texts + TextsOf(AllSigns(sys, n, texts))
  {
    hide StepSigns, TextsOf, Makeable;
    var front := AllSigns(sys, n - 1, texts);
    assert Makeable(sys.steps[n - 1]);
    TextsJoin(front, StepSigns(sys, n - 1, texts + TextsOf(front)));
    if j < n - 1 {
      EveryCountHasSign(sys, n - 1, texts, j, c, text);
    } else {
      SignTextReads(c, sys.steps[j].unit);
      WholeStep(sys, j, texts + TextsOf(front));
      CountsHaveSigns(sys, j, SignsOf(sys.steps[j]), texts + TextsOf(front), c);
    }
  }

  /** A step with an axis has a sign by its unit, and so has one whose unit is a fraction. */
  lemma {:induction false} EveryUnitHasSign(sys: Sys, n: nat, texts: set<string>, j: nat, p: string, q: string,
      u: string) returns (k: nat)
    requires j < n <= |sys.steps| && (forall i :: 0 <= i < n ==> Makeable(sys.steps[i]))
    requires sys.steps[j].axis.Some? || (AllDigits(p) && AllDigits(q) && sys.steps[j].unit == p + "/" + q + "(" + u)
    ensures k < |AllSigns(sys, n, texts)|
    ensures AllSigns(sys, n, texts)[k].step == j && AllSigns(sys, n, texts)[k].text == sys.steps[j].unit
  {
    hide StepSigns, TextsOf, Makeable;
    var front := AllSigns(sys, n - 1, texts);
    assert Makeable(sys.steps[n - 1]);
    if j < n - 1 {
      k := EveryUnitHasSign(sys, n - 1, texts, j, p, q, u);
    } else {
      k := |front|;
      BlindStep(sys, j, texts + TextsOf(front), p, q, u);
    }
  }

  lemma {:induction false} BlindStep(sys: Sys, j: nat, texts: set<string>, p: string, q: string, u: string)
    requires j < |sys.steps| && Makeable(sys.steps[j])
    requires sys.steps[j].axis.Some? || (AllDigits(p) && AllDigits(q) && sys.steps[j].unit == p + "/" + q + "(" + u)
    ensures var signs := StepSigns(sys, j, texts);
            |signs| == 1 && signs[0].step == j && signs[0].text == sys.steps[j].unit
  {
    hide PartOf, AllDigits, Makeable;
    if sys.steps[j].axis.None? { PartReads(p, q, u); }
  }

  lemma {:induction false} WholeStep(sys: Sys, j: nat, texts: set<string>)
    requires j < |sys.steps| && Makeable(sys.steps[j])
    requires var s := sys.steps[j]; s.axis.None? && '/' !in s.unit && s.mult.d == 1
    ensures SignsOf(sys.steps[j]) == MaxCount(sys.steps[j].mult.n) < N_FIXED
    ensures StepSigns(sys, j, texts) == CountSigns(sys, j, SignsOf(sys.steps[j]), texts)
  {
  }

  lemma {:induction false} CountsMadeUp(sys: Sys, j: nat, m: nat, texts: set<string>)
    requires j < |sys.steps| && sys.steps[j].mult.d == 1 && m <= MaxCount(sys.steps[j].mult.n) && m < N_FIXED
    ensures forall i :: i in CountSigns(sys, j, m, texts) ==> i.sys == sys && i.step == j && MadeUp(i) && i.count.n <= m
  {
    hide SignText;
    if m > 0 { CountsMadeUp(sys, j, m - 1, texts); }
  }

  /** A sign is made up by count, or stands for a step whose unit is its text. */
  predicate SignOf(sys: Sys, i: Inst) {
    && i.sys == sys && i.step < |sys.steps|
    && if Blind(sys.steps[i.step]) then i == BlindSign(sys, i.step) else MadeUp(i) && SignsOf(sys.steps[i.step]) > 0
  }

  lemma {:induction false} StepSignsMade(sys: Sys, j: nat, texts: set<string>)
    requires j < |sys.steps| && Makeable(sys.steps[j])
    ensures forall i :: i in StepSigns(sys, j, texts) ==> SignOf(sys, i) && i.step == j
  {
    if !Blind(sys.steps[j]) {
      if SignsOf(sys.steps[j]) > 0 { CountsMadeUp(sys, j, SignsOf(sys.steps[j]), texts); }
    }
  }

  lemma {:induction false} SignsAreMadeUp(sys: Sys, n: nat, texts: set<string>)
    requires n <= |sys.steps| && forall j :: 0 <= j < n ==> Makeable(sys.steps[j])
    ensures forall i :: i in AllSigns(sys, n, texts) ==> SignOf(sys, i) && i.step < n
  {
    hide StepSigns, SignOf, Makeable;
    if n > 0 {
      SignsAreMadeUp(sys, n - 1, texts);
      assert Makeable(sys.steps[n - 1]);
      StepSignsMade(sys, n - 1, texts + TextsOf(AllSigns(sys, n - 1, texts)));
    }
  }

  /** What a text of digits says. */
  function Decimal(p: string): nat {
    if p == "" || !('0' <= p[|p| - 1] <= '9') then 0 else 10 * Decimal(p[..|p| - 1]) + (p[|p| - 1] - '0') as nat
  }

  predicate AllDigits(p: string) { forall k :: 0 <= k < |p| ==> '0' <= p[k] <= '9' }

  /** atoi reads the digits a text begins with. */
  lemma {:induction false} AtoiReads(pre: string, p: string, rest: string)
    requires AllDigits(pre) && AllDigits(p) && (rest == "" || !('0' <= rest[0] <= '9'))
    ensures Atoi(p + rest, Decimal(pre)) == Decimal(pre + p)
    decreases |p|
  {
    hide Atoi, Decimal;
    if p == "" {
      assert p + rest == rest && pre + p == pre;
      AtoiEnds(rest, Decimal(pre));
    } else {
      var more := pre + [p[0]];
      assert p + rest == [p[0]] + (p[1..] + rest) && more + p[1..] == pre + p;
      AtoiMore(p[0], p[1..] + rest, Decimal(pre));
      DecimalMore(pre, p[0]);
      AtoiReads(more, p[1..], rest);
    }
  }

  lemma {:induction false} AtoiEnds(rest: string, n: nat)
    requires rest == "" || !('0' <= rest[0] <= '9')
    ensures Atoi(rest, n) == n
  {
  }

  lemma {:induction false} AtoiMore(c: char, rest: string, n: nat)
    requires '0' <= c <= '9'
    ensures Atoi([c] + rest, n) == Atoi(rest, 10 * n + (c - '0') as nat)
  {
    assert ([c] + rest)[1..] == rest;
  }

  lemma {:induction false} DecimalMore(pre: string, c: char)
    requires '0' <= c <= '9'
    ensures Decimal(pre + [c]) == 10 * Decimal(pre) + (c - '0') as nat
  {
    assert (pre + [c])[..|pre|] == pre;
  }

  /** The text of a sign by count: its digits, and the unit in parentheses. */
  lemma {:induction false} SignTextReads(c: nat, unit: string)
    requires c <= 10
    ensures SignText(c, unit) == (if c < 10 then ["0123456789"[c]] else "10") + "(" + unit + ")"
    ensures Atoi(SignText(c, unit), 0) == c
  {
    FixedWord(c);
    hide Decimal, AllDigits, Atoi;
    var p, rest := FIXED_N[c], "(" + unit + ")";
    AtoiReads("", p, rest);
    Joined(p, "(", unit, ")");
    assert rest[0] == '(' && "" + p == p;
  }

  lemma {:induction false} FixedWord(c: nat)
    requires c <= 10
    ensures FIXED_N[c] == if c < 10 then ["0123456789"[c]] else "10"
    ensures AllDigits(FIXED_N[c]) && Decimal(FIXED_N[c]) == c
    ensures AllDigits("") && Decimal("") == 0
  {
    var p := FIXED_N[c];
    if c == 10 { assert p[..1] == "1"; }
  }

  lemma {:induction false} Joined(a: string, b: string, c: string, d: string)
    ensures a + b + c + d == a + (b + c + d) == a + (b + (c + d))
  {
  }

  /** The numbers before and after the slash. */
  lemma {:induction false} PartReads(p: string, q: string, u: string)
    requires AllDigits(p) && AllDigits(q)
    ensures var unit := p + "/" + q + "(" + u; '/' in unit && PartOf(unit) == Some(Frac(Decimal(p), Decimal(q)))
  {
    hide AllDigits, Decimal, Atoi;
    var d := q + (['('] + u);
    AtoiUntil(p, '/', d);
    AtoiUntil(q, '(', u);
    Spelt(p, q, u);
    SlashAt(p, d, '/');
    SlashAt(q, u, '(');
    hide IndexOf;
  }

  lemma {:induction false} Spelt(p: string, q: string, u: string)
    ensures p + "/" + q + "(" + u == p + (['/'] + (q + (['('] + u)))
  {
  }

  lemma {:induction false} SlashAt(p: string, d: string, c: char)
    ensures var s := p + ([c] + d); |p| < |s| && s[|p|] == c && s[|p| + 1..] == d
  {
  }

  /** Digits up to a character that is none. */
  lemma {:induction false} AtoiUntil(p: string, c: char, rest: string)
    requires AllDigits(p) && !('0' <= c <= '9')
    ensures var s := p + ([c] + rest); IndexOf(s, c) == |p| && Atoi(s, 0) == Decimal(p)
  {
    var s := p + ([c] + rest);
    assert s[..|p|] == p && s[|p|] == c;
    AtoiReads("", p, [c] + rest);
    assert "" + p == p;
  }

  /** What a sign of step s says. Where the step has an axis the text is its unit, and the letter of the axis
      goes with it. Where the unit is a fraction the text is the unit, and the count that fraction. Otherwise the
      text is the count, in digits, and the unit in parentheses, for a count below the radix or for one. */
  ghost predicate Says(i: Inst, s: Step) {
    if s.axis.Some? then i.text == s.unit && i.axis == s.axis
    else
      && i.axis.None?
      && if '/' in s.unit then
           && i.text == s.unit
           && forall p, q, u :: AllDigits(p) && AllDigits(q) && s.unit == p + "/" + q + "(" + u ==>
                i.count == Frac(Decimal(p), Decimal(q))
         else
           && s.mult.d == i.count.d == 1 && 1 <= i.count.n <= 10 && (i.count.n == 1 || i.count.n < s.mult.n)
           && i.text == (if i.count.n < 10 then ["0123456789"[i.count.n]] else "10") + "(" + s.unit + ")"
           && Atoi(i.text, 0) == i.count.n
  }

  /** Every sign of a system says so. */
  lemma {:induction false} SignsSay(sys: Sys, n: nat, texts: set<string>)
    requires n <= |sys.steps| && forall j :: 0 <= j < n ==> Makeable(sys.steps[j])
    ensures forall i :: i in AllSigns(sys, n, texts) ==> i.sys == sys && i.step < n && Says(i, sys.steps[i.step])
  {
    hide AllSigns, Says, Makeable, Blind, MadeUp;
    SignsAreMadeUp(sys, n, texts);
    forall i | i in AllSigns(sys, n, texts) ensures i.sys == sys && i.step < n && Says(i, sys.steps[i.step]) {
      SignSays(sys, i);
    }
  }

  lemma {:induction false} SignSays(sys: Sys, i: Inst)
    requires SignOf(sys, i)
    ensures Says(i, sys.steps[i.step])
  {
    hide SignText;
    var s := sys.steps[i.step];
    if s.axis.None? && '/' in s.unit {
      forall p, q, u | AllDigits(p) && AllDigits(q) && s.unit == p + "/" + q + "(" + u
        ensures PartOf(s.unit) == Some(Frac(Decimal(p), Decimal(q)))
      {
        PartReads(p, q, u);
      }
    } else if s.axis.None? {
      SignTextReads(i.count.n, s.unit);
    }
  }

  /** Signs with a text each, none of which was there. */
  predicate Fresh(signs: seq<Inst>, texts: set<string>) {
    && (forall k :: 0 <= k < |signs| ==> signs[k].text !in texts)
    && forall j, k :: 0 <= j < k < |signs| ==> signs[j].text != signs[k].text
  }

  lemma {:induction false} FreshJoin(a: seq<Inst>, b: seq<Inst>, texts: set<string>)
    ensures Fresh(a + b, texts) <==> Fresh(a, texts) && Fresh(b, texts + TextsOf(a))
  {
    var c := a + b;
    if Fresh(c, texts) {
      forall k | 0 <= k < |a| ensures a[k].text !in texts { assert c[k] == a[k]; }
      forall j, k | 0 <= j < k < |a| ensures a[j].text != a[k].text { assert c[j] == a[j] && c[k] == a[k]; }
      forall j, k | 0 <= j < |a| && 0 <= k < |b| ensures a[j].text != b[k].text {
        assert c[j] == a[j] && c[|a| + k] == b[k];
      }
      forall k | 0 <= k < |b| ensures b[k].text !in texts + TextsOf(a) { assert c[|a| + k] == b[k]; }
      forall j, k | 0 <= j < k < |b| ensures b[j].text != b[k].text { assert c[|a| + j] == b[j] && c[|a| + k] == b[k]; }
    }
    if Fresh(a, texts) && Fresh(b, texts + TextsOf(a)) {
      forall j, k | 0 <= j < k < |c| ensures c[j].text != c[k].text {
        if k >= |a| { assert b[k - |a|].text !in texts + TextsOf(a); }
      }
    }
  }

  /** No step's unit is added as a text the system has already. */
  predicate NoClash(sys: Sys, n: nat, texts: set<string>)
    requires n <= |sys.steps| && forall j :: 0 <= j < n ==> Makeable(sys.steps[j])
  {
    forall j :: 0 <= j < n && Blind(sys.steps[j]) ==> sys.steps[j].unit !in texts + TextsOf(AllSigns(sys, j, texts))
  }

  lemma {:induction false} CountsFresh(sys: Sys, j: nat, m: nat, texts: set<string>)
    requires j < |sys.steps| && m < N_FIXED
    ensures Fresh(CountSigns(sys, j, m, texts), texts)
    ensures forall k :: 0 <= k < |CountSigns(sys, j, m, texts)| ==>
              var i := CountSigns(sys, j, m, texts)[k];
              1 <= i.count.n <= m && i.text == SignText(i.count.n, sys.steps[j].unit)
  {
    hide SignText;
    if m > 0 {
      CountsFresh(sys, j, m - 1, texts);
      var front, u := CountSigns(sys, j, m - 1, texts), sys.steps[j].unit;
      forall k | 0 <= k < |front| ensures front[k].text != SignText(m, u) {
        if front[k].text == SignText(m, u) { SignTextTells(front[k].count.n, u, m, u); }
      }
    }
  }

  /** The signs of a system are one to a text if and only if no unit of a step with an axis, or that is a fraction,
      is a text already: the code adds those without a look. */
  lemma {:induction false} FreshIffNoClash(sys: Sys, n: nat, texts: set<string>)
    requires n <= |sys.steps| && forall j :: 0 <= j < n ==> Makeable(sys.steps[j])
    ensures Fresh(AllSigns(sys, n, texts), texts) <==> NoClash(sys, n, texts)
  {
    hide AllSigns, Fresh, NoClash, StepSigns, Makeable, Blind, TextsOf;
    if n == 0 {
      NothingFresh(sys, texts);
    } else {
      var front := AllSigns(sys, n - 1, texts);
      FreshIffNoClash(sys, n - 1, texts);
      AllSignsMore(sys, n, texts);
      FreshJoin(front, StepSigns(sys, n - 1, texts + TextsOf(front)), texts);
      StepFresh(sys, n - 1, texts + TextsOf(front));
      NoClashMore(sys, n, texts);
    }
  }

  lemma {:induction false} NothingFresh(sys: Sys, texts: set<string>)
    ensures Fresh(AllSigns(sys, 0, texts), texts) && NoClash(sys, 0, texts)
  {
  }

  lemma {:induction false} AllSignsMore(sys: Sys, n: nat, texts: set<string>)
    requires 0 < n <= |sys.steps| && forall j :: 0 <= j < n ==> Makeable(sys.steps[j])
    ensures var front := AllSigns(sys, n - 1, texts);
            AllSigns(sys, n, texts) == front + StepSigns(sys, n - 1, texts + TextsOf(front))
  {
    hide StepSigns;
  }

  lemma {:induction false} NoClashMore(sys: Sys, n: nat, texts: set<string>)
    requires 0 < n <= |sys.steps| && forall j :: 0 <= j < n ==> Makeable(sys.steps[j])
    ensures NoClash(sys, n, texts) <==>
            NoClash(sys, n - 1, texts) &&
            (Blind(sys.steps[n - 1]) ==> sys.steps[n - 1].unit !in texts + TextsOf(AllSigns(sys, n - 1, texts)))
  {
    hide AllSigns, Blind;
  }

  lemma {:induction false} StepFresh(sys: Sys, j: nat, texts: set<string>)
    requires j < |sys.steps| && Makeable(sys.steps[j])
    ensures Fresh(StepSigns(sys, j, texts), texts) <==> (Blind(sys.steps[j]) ==> sys.steps[j].unit !in texts)
  {
    if Blind(sys.steps[j]) {
      assert StepSigns(sys, j, texts) == [BlindSign(sys, j)] && [BlindSign(sys, j)][0].text == sys.steps[j].unit;
    } else {
      CountsFresh(sys, j, SignsOf(sys.steps[j]), texts);
    }
  }

  /** A system that is given a sign for its half by name, and has the half as a step: two signs with one text. */
  lemma {:induction false} HalfTwice(sys: Sys, half: string)
    requires half == "1/2(as)"
    requires sys.steps == [Step("as", Frac(10, 1), true, None), Step(half, Frac(2, 1), false, None)]
    ensures Makeable(sys.steps[0]) && Makeable(sys.steps[1]) && !NoClash(sys, 2, {half})
    ensures !Fresh(AllSigns(sys, 2, {half}), {half})
  {
    assert half[1] == '/' && '/' in half && "as"[0] == 'a' && "as"[1] == 's' && '/' !in "as";
    var k := IndexOf(half, '/');
    assert half[..2][1] == '/';
    assert k == 1;
    var rest := half[2..];
    assert rest[1] == '(' && rest[..2][1] == '(';
    assert IndexOf(rest, '(') < |rest|;
    assert Blind(sys.steps[1]);
    FreshIffNoClash(sys, 2, {half});
  }

  /** One more count. */
  lemma {:induction false} OneMoreCount(sys: Sys, j: nat, m: nat, texts: set<string>)
    requires j < |sys.steps| && 0 < m < N_FIXED
    ensures var had, g := CountSigns(sys, j, m - 1, texts), SignText(m, sys.steps[j].unit);
            var signs := if g in texts + TextsOf(had) then [] else [Inst(g, sys, j, Frac(m, 1), None)];
            CountSigns(sys, j, m, texts) == had + signs && TextsOf(had + signs) == TextsOf(had) + TextsOf(signs)
  {
    hide SignText;
    var had, u := CountSigns(sys, j, m - 1, texts), sys.steps[j].unit;
    CountsFresh(sys, j, m - 1, texts);
    if SignText(m, u) in TextsOf(had) {
      var k :| 0 <= k < |had| && had[k].text == SignText(m, u);
      SignTextTells(had[k].count.n, u, m, u);
    }
    TextsJoin(had,
              if SignText(m, u) in texts + TextsOf(had) then [] else [Inst(SignText(m, u), sys, j, Frac(m, 1), None)]);
  }

  lemma {:induction false} OneText(i: Inst)
    ensures TextsOf([i]) == {i.text} && TextsOf([]) == {}
  {
    assert [i][0] == i;
  }

  lemma {:induction false} DefsMore(all: seq<NsInst>, i: NsInst)
    ensures Defs(all + [i]) == Defs(all) + [i.def]
  {
  }

  /** The signs of a system, by text. */
  class Builder {
    const sys: Sys
    const reg: Registry
    var byText: map<string, NsInst>   // sys->i

    constructor (sys: Sys, reg: Registry)
      ensures this.sys == sys && this.reg == reg && byText == map[]
    {
      this.sys, this.reg, byText := sys, reg, map[];
    }

    /** These signs have been added to those there were, and their texts to the texts of the system. */
    ghost predicate Added(before: seq<Inst>, texts: set<string>, signs: seq<Inst>)
      reads this, reg, reg.repr
    {
      reg.Valid() && Defs(reg.all) == before + signs && byText.Keys == texts + TextsOf(signs)
    }

    lemma {:induction false} AddedTells(before: seq<Inst>, texts: set<string>, signs: seq<Inst>)
      requires Added(before, texts, signs)
      ensures reg.Valid() && Defs(reg.all) == before + signs && byText.Keys == texts + TextsOf(signs)
    {
    }

    lemma {:induction false} AddedJoin(before: seq<Inst>, texts: set<string>, a: seq<Inst>, b: seq<Inst>)
      requires Added(before + a, texts + TextsOf(a), b)
      ensures Added(before, texts, a + b)
    {
      TextsJoin(a, b);
      assert (before + a) + b == before + (a + b);
    }

    /** nsb_inst_add. */
    method InstAdd(def: Inst)
      requires reg.Valid()
      modifies this, reg, reg.repr
      ensures Added(old(Defs(reg.all)), old(byText.Keys), [def]) && fresh(reg.repr - old(reg.repr))
    {
      var i := new NsInst(def);
      byText := byText[def.text := i];
      DefsMore(reg.all, i);
      OneText(def);
      reg.Register(i);
    }

    /** nsb_auto_inst_g and nsb_inst_g; false where the source gives up. */
    method AutoInst(m: nat, j: nat) returns (ok: bool)
      requires reg.Valid() && j < |sys.steps|
      modifies this, reg, reg.repr
      ensures ok <==> m < N_FIXED
      ensures ok ==>
                var g := SignText(m, sys.steps[j].unit);
                Added(old(Defs(reg.all)), old(byText.Keys),
                      if g in old(byText) then [] else [Inst(g, sys, j, Frac(m, 1), None)])
      ensures reg.Valid() && fresh(reg.repr - old(reg.repr))
    {
      hide SignText;
      if m >= N_FIXED { return false; }
      var i := Inst(SignText(m, sys.steps[j].unit), sys, j, Frac(m, 1), None);
      OneText(i);
      if i.text !in byText { InstAdd(i); }
      return true;
    }

    /** One turn of the loop over the counts of a step. */
    method OneCount(m: nat, j: nat, ghost before: seq<Inst>, ghost texts: set<string>) returns (ok: bool)
      requires j < |sys.steps| && 0 < m <= N_FIXED && Added(before, texts, CountSigns(sys, j, m - 1, texts))
      modifies this, reg, reg.repr
      ensures ok <==> m < N_FIXED
      ensures ok ==> Added(before, texts, CountSigns(sys, j, m, texts))
      ensures reg.Valid() && fresh(reg.repr - old(reg.repr))
    {
      hide SignText, Added, CountSigns;
      ghost var had := CountSigns(sys, j, m - 1, texts);
      AddedTells(before, texts, had);
      ok := AutoInst(m, j);
      if ok {
        OneMoreCount(sys, j, m, texts);
        ghost var g := SignText(m, sys.steps[j].unit);
        AddedJoin(before, texts, had, if g in texts + TextsOf(had) then [] else [Inst(g, sys, j, Frac(m, 1), None)]);
      }
    }

    /** The loop of nsb_wrapup_step over the counts of a step with a whole radix; it runs at least once. */
    method CountInsts(j: nat) returns (ok: bool)
      requires reg.Valid() && j < |sys.steps| && SignsOf(sys.steps[j]) > 0
      modifies this, reg, reg.repr
      ensures ok <==> Makeable(sys.steps[j])
      ensures ok ==> Added(old(Defs(reg.all)), old(byText.Keys), StepSigns(sys, j, old(byText.Keys)))
      ensures reg.Valid() && fresh(reg.repr - old(reg.repr))
    {
      hide SignText, Added, CountSigns, StepSigns;
      ghost var before, texts := Defs(reg.all), byText.Keys;
      var i, m := sys.steps[j].mult.n, 1;
      SignsCounted(j, texts);
      NoCounts(j);
      ok := OneCount(m, j, before, texts);
      m := m + 1;
      while ok && m < i
        invariant reg.Valid() && fresh(reg.repr - old(reg.repr)) && 2 <= m && (m <= i || m == 2)
        invariant ok ==> m <= N_FIXED && Added(before, texts, CountSigns(sys, j, m - 1, texts))
        invariant !ok ==> MaxCount(i) >= N_FIXED
        decreases i - m, ok
      {
        ok := OneCount(m, j, before, texts);
        if ok { m := m + 1; }
      }
    }

    lemma {:induction false} NoCounts(j: nat)
      requires reg.Valid() && j < |sys.steps|
      ensures Added(Defs(reg.all), byText.Keys, CountSigns(sys, j, 0, byText.Keys))
    {
    }

    lemma {:induction false} SignsCounted(j: nat, texts: set<string>)
      requires j < |sys.steps| && SignsOf(sys.steps[j]) > 0
      ensures SignsOf(sys.steps[j]) == MaxCount(sys.steps[j].mult.n)
      ensures Makeable(sys.steps[j]) ==> StepSigns(sys, j, texts) == CountSigns(sys, j, SignsOf(sys.steps[j]), texts)
    {
    }

    /** nsb_inst_frac: nothing without a parenthesis after the slash. */
    method InstFrac(j: nat)
      requires reg.Valid() && j < |sys.steps| && IsPart(sys.steps[j])
      modifies this, reg, reg.repr
      ensures Added(old(Defs(reg.all)), old(byText.Keys), StepSigns(sys, j, old(byText.Keys)))
      ensures fresh(reg.repr - old(reg.repr))
    {
      var buf := sys.steps[j].unit;
      var slash := IndexOf(buf, '/');
      HasIndex(buf, '/');
      var d := buf[slash + 1..];
      if IndexOf(d, '(') < |d| {
        InstAdd(Inst(buf, sys, j, Frac(Atoi(buf, 0), Atoi(d, 0)), None));
      } else {
        OneText(Inst(buf, sys, j, Frac(0, 0), None));
      }
    }

    lemma {:induction false} HasIndex(s: string, c: char)
      requires c in s
      ensures IndexOf(s, c) < |s|
    {
      assert s[..|s|] == s;
    }

    /** nsb_wrapup_step. */
    method WrapupStep(j: nat) returns (ok: bool)
      requires reg.Valid() && j < |sys.steps|
      modifies this, reg, reg.repr
      ensures ok <==> Makeable(sys.steps[j])
      ensures ok ==> Added(old(Defs(reg.all)), old(byText.Keys), StepSigns(sys, j, old(byText.Keys)))
      ensures reg.Valid() && fresh(reg.repr - old(reg.repr))
    {
      ok := true;
      var s := sys.steps[j];
      if s.axis.Some? {
        InstAdd(Inst(s.unit, sys, j, Frac(0, 0), s.axis));  // nsb_inst_u: its count is not set
      } else if '/' in s.unit {
        InstFrac(j);
      } else if s.mult.d == 1 {
        ok := CountInsts(j);
      } else {
        OneText(Inst(s.unit, sys, j, Frac(0, 0), None));
      }
    }

    lemma {:induction false} NothingYet(before: seq<Inst>, texts: set<string>)
      requires reg.Valid() && before == Defs(reg.all) && texts == byText.Keys
      ensures Added(before, texts, AllSigns(sys, 0, texts))
    {
      OneText(Inst("", sys, 0, Frac(0, 0), None));
    }

    /** nsb_wrapup over the steps. */
    method Wrapup() returns (ok: bool)
      requires reg.Valid()
      modifies this, reg, reg.repr
      ensures ok <==> forall s :: s in sys.steps ==>
                s.axis.Some? || '/' in s.unit || s.mult.d != 1 || s.mult.n <= 11
      ensures ok ==>
                && (forall j :: 0 <= j < |sys.steps| ==> Makeable(sys.steps[j]))
                && Added(old(Defs(reg.all)), old(byText.Keys), AllSigns(sys, |sys.steps|, old(byText.Keys)))
      ensures reg.Valid()
    {
      hide StepSigns, Makeable, Added, AllSigns;
      ghost var before, texts := Defs(reg.all), byText.Keys;
      ok := true;
      var j := 0;
      NothingYet(before, texts);
      while j < |sys.steps| && ok
        invariant 0 <= j <= |sys.steps| && reg.Valid() && fresh(reg.repr - old(reg.repr))
        invariant ok ==> forall k :: 0 <= k < j ==> Makeable(sys.steps[k])
        invariant ok ==> Added(before, texts, AllSigns(sys, j, texts))
        invariant !ok ==> exists k :: 0 <= k < |sys.steps| && !Makeable(sys.steps[k])
        decreases |sys.steps| - j, ok
      {
        ghost var had := AllSigns(sys, j, texts);
        AddedTells(before, texts, had);
        ok := WrapupStep(j);
        if ok {
          AllSignsMore(sys, j + 1, texts);
          AddedJoin(before, texts, had, StepSigns(sys, j, texts + TextsOf(had)));
          j := j + 1;
        }
      }
      forall s | s in sys.steps { TenAtMost(s); }
    }
  }

  lemma {:induction false} TenAtMost(s: Step)
    ensures Makeable(s) <==> s.axis.Some? || '/' in s.unit || s.mult.d != 1 || s.mult.n <= 11
  {
  }
}
