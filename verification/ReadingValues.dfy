/** From the signs the builder makes up to what the candidates of the parser are worth. */
module ReadingValues {
  import opened Fractions
  import opened NumberSystems
  import opened NumberValues
  import Built = InstanceRegistry
  import opened NumberReading

  // ---------- The registry as the parser sees it ----------

  /** No two signs of one system have one text. */
  predicate OneTextEach(signs: seq<Inst>) {
    forall j, k :: 0 <= j < k < |signs| && signs[j].sys.name == signs[k].sys.name ==> signs[j].text != signs[k].text
  }

  /** A system given some signs and built keeps this so if and only if the signs it is given have a text each and no
      unit that is added without a look is a text already. */
  lemma {:induction false} OneMoreSystem(before: seq<Inst>, given: seq<Inst>, sys: Sys)
    requires OneTextEach(before) && (forall i :: i in before ==> i.sys.name != sys.name)
    requires forall i :: i in given ==> i.sys == sys
    requires forall j :: 0 <= j < |sys.steps| ==> Built.Makeable(sys.steps[j])
    ensures var signs := Built.AllSigns(sys, |sys.steps|, Built.TextsOf(given));
            OneTextEach(before + (given + signs)) <==>
            Built.Fresh(given, {}) && Built.NoClash(sys, |sys.steps|, Built.TextsOf(given))
  {
    var n, texts := |sys.steps|, Built.TextsOf(given);
    var signs := Built.AllSigns(sys, n, texts);
    Built.SignsAreMadeUp(sys, n, texts);
    assert forall i :: i in signs ==> i.sys == sys;
    OneTextJoin(before, given + signs, sys);
    Built.FreshJoin(given, signs, {});
    assert {} + texts == texts;
    Built.FreshIffNoClash(sys, n, texts);
  }

  lemma {:induction false} OneTextJoin(before: seq<Inst>, more: seq<Inst>, sys: Sys)
    requires OneTextEach(before) && (forall i :: i in before ==> i.sys.name != sys.name)
    requires forall k :: 0 <= k < |more| ==> more[k].sys == sys
    ensures OneTextEach(before + more) <==> Built.Fresh(more, {})
  {
    var all, n := before + more, |before|;
    if OneTextEach(all) {
      forall j, k | 0 <= j < k < |more| ensures more[j].text != more[k].text {
        assert all[n + j] == more[j] && all[n + k] == more[k];
      }
    }
    forall j | 0 <= j < n ensures all[j] == before[j] && all[j].sys.name != sys.name { assert before[j] in before; }
    assert forall k :: n <= k < |all| ==> all[k] == more[k - n];
  }

  function SeenRegistry(chains: map<string, seq<NsInst>>): Registry {
    map t | t in chains :: Defs(chains[t])
  }

  /** The signs with one text, in order. */
  function Texted(signs: seq<Inst>, t: string): seq<Inst> {
    if signs == [] then []
    else Texted(signs[..|signs| - 1], t) + if signs[|signs| - 1].text == t then [signs[|signs| - 1]] else []
  }

  lemma {:induction false} ChainIsTexted(all: seq<NsInst>, t: string)
    ensures Defs(Built.WithText(all, t)) == Texted(Defs(all), t)
  {
    hide Defs, Texted, Built.WithText;
    if all == [] {
      NothingTexted(t);
    } else {
      var front, i := all[..|all| - 1], all[|all| - 1];
      ChainIsTexted(front, t);
      assert all == front + [i];
      Built.DefsMore(front, i);
      Built.WithTextAppend(front, i, t);
      TextedMore(Defs(front), i.def, t);
      if i.def.text == t {
        Built.DefsMore(Built.WithText(front, t), i);
      } else {
        assert Built.WithText(front, t) + [] == Built.WithText(front, t);
      }
    }
  }

  lemma {:induction false} NothingTexted(t: string)
    ensures Defs(Built.WithText([], t)) == Texted(Defs([]), t)
  {
  }

  lemma {:induction false} TextedMore(signs: seq<Inst>, i: Inst, t: string)
    ensures Texted(signs + [i], t) == Texted(signs, t) + if i.text == t then [i] else []
  {
    assert (signs + [i])[..|signs|] == signs;
  }

  lemma {:induction false} TextedHas(signs: seq<Inst>, t: string, i: Inst)
    ensures i in Texted(signs, t) <==> i in signs && i.text == t
  {
    if signs != [] {
      TextedHas(signs[..|signs| - 1], t, i);
      assert signs == signs[..|signs| - 1] + [signs[|signs| - 1]];
    }
  }

  lemma {:induction false} ApartMore(chain: seq<Inst>, i: Inst)
    ensures Apart(chain + [i]) <==> Apart(chain) && forall j :: j in chain ==> j.sys.name != i.sys.name
  {
    var c := chain + [i];
    if Apart(c) {
      forall j, k | 0 <= j < k < |chain| ensures chain[j].sys.name != chain[k].sys.name {
        assert c[j] == chain[j] && c[k] == chain[k];
      }
      forall j | j in chain ensures j.sys.name != i.sys.name {
        var k :| 0 <= k < |chain| && chain[k] == j;
        assert c[k] == j && c[|chain|] == i;
      }
    }
  }

  /** Signs with this text are of different systems. */
  predicate ApartIn(signs: seq<Inst>, t: string) {
    forall j, k :: 0 <= j < k < |signs| && signs[j].text == t && signs[k].text == t ==>
        signs[j].sys.name != signs[k].sys.name
  }

  lemma {:induction false} TextedApart(signs: seq<Inst>, t: string)
    ensures Apart(Texted(signs, t)) <==> ApartIn(signs, t)
  {
    if signs != [] {
      var front, i := signs[..|signs| - 1], signs[|signs| - 1];
      TextedApart(front, t);
      ApartInMore(front, i, t);
      assert signs == front + [i];
      hide Apart, ApartIn;
      if i.text == t {
        ApartMore(Texted(front, t), i);
        forall j ensures j in Texted(front, t) <==> j in front && j.text == t { TextedHas(front, t, j); }
      } else {
        assert Texted(signs, t) == Texted(front, t);
      }
    }
  }

  lemma {:induction false} ApartInMore(front: seq<Inst>, i: Inst, t: string)
    ensures ApartIn(front + [i], t) <==>
            ApartIn(front, t) && (i.text == t ==> forall j :: j in front && j.text == t ==> j.sys.name != i.sys.name)
  {
    var c := front + [i];
    if ApartIn(c, t) {
      forall j, k | 0 <= j < k < |front| && front[j].text == t && front[k].text == t
          ensures front[j].sys.name != front[k].sys.name {
        assert c[j] == front[j] && c[k] == front[k];
      }
      forall j | j in front && j.text == t && i.text == t ensures j.sys.name != i.sys.name {
        var k :| 0 <= k < |front| && front[k] == j;
        assert c[k] == j && c[|front|] == i;
      }
    }
  }

  /** A text has one sign per system throughout the registry if and only if no two signs registered for one system
      have one text. */
  lemma {:induction false} BuiltIsOneEach(reg: Built.Registry)
    requires reg.Valid()
    ensures var r := SeenRegistry(reg.chains);
            (forall t :: t in r ==> Apart(r[t])) <==> OneTextEach(Defs(reg.all))
  {
    var r: Registry, signs := SeenRegistry(reg.chains), Defs(reg.all);
    forall t ensures Texted(signs, t) == ChainOf(r, t) {
      ChainIsTexted(reg.all, t);
      assert Built.WithText(reg.all, t) == Built.ChainOf(reg.chains, t);
    }
    hide Apart, ApartIn, OneTextEach;
    forall t ensures Apart(ChainOf(r, t)) <==> ApartIn(signs, t) { TextedApart(signs, t); }
    NothingApart();
    OneTextIsApart(signs);
    forall t ensures t in r ==> ChainOf(r, t) == r[t] {}
    if forall t :: t in r ==> Apart(r[t]) {
      forall t ensures ApartIn(signs, t) { assert Apart(ChainOf(r, t)); }
    }
    if forall t :: ApartIn(signs, t) {
      forall t | t in r ensures Apart(r[t]) { assert ApartIn(signs, t) && ChainOf(r, t) == r[t]; }
    }
  }

  lemma {:induction false} OneTextIsApart(signs: seq<Inst>)
    ensures OneTextEach(signs) <==> forall t :: ApartIn(signs, t)
  {
    if forall t :: ApartIn(signs, t) {
      forall j, k | 0 <= j < k < |signs| && signs[j].sys.name == signs[k].sys.name
          ensures signs[j].text != signs[k].text {
        assert ApartIn(signs, signs[j].text);
      }
    }
  }

  lemma {:induction false} NothingApart()
    ensures Apart([])
  {
  }

  // ---------- Candidates as digits ----------

  /** A candidate read by signs made up by count, all of its system, and by their texts. */
  predicate AutoSigns(c: Number) {
    forall k :: 0 <= k < |c.steps| ==>
      c.steps[k].inst.sys == c.sys && Built.MadeUp(c.steps[k].inst) && c.steps[k].inst.text == c.steps[k].tok.text
  }

  /** The signs registered for a system are found under their texts, and are made up. */
  predicate MadeUpIn(reg: Registry, sys: Sys) {
    forall t, k :: t in reg && 0 <= k < |reg[t]| && reg[t][k].sys.name == sys.name ==>
      reg[t][k].sys == sys && reg[t][k].text == t && Built.MadeUp(reg[t][k])
  }

  /** Such a system's candidates are all read so. */
  lemma {:induction false} MadeUpInAuto(reg: Registry, w: seq<Tok>, c: Number)
    requires MadeUpIn(reg, c.sys) && c in Survivors(reg, w)
    ensures AutoSigns(c)
  {
    hide Survivors, SignToks;
    SurvivorsRead(reg, w, c);
    SurvivorsSpell(reg, w, c);
    var rd, ts := Insts(c), SignToks(w);
    assert rd[0] == c.steps[0].inst;
    forall k | 0 <= k < |c.steps|
      ensures c.steps[k].inst.sys == c.sys && Built.MadeUp(c.steps[k].inst) &&
              c.steps[k].inst.text == c.steps[k].tok.text
    {
      OneName(reg, ts, rd, k);
      assert rd[k] == c.steps[k].inst && Toks(c)[k] == c.steps[k].tok && rd[k] in ChainOf(reg, ts[k].text);
      var j :| 0 <= j < |reg[ts[k].text]| && reg[ts[k].text][j] == rd[k];
    }
  }

  /** The signs of a candidate are counts on strictly descending steps of its system. */
  lemma {:induction false} CandidateDigits(reg: Registry, w: seq<Tok>, c: Number)
    requires AutoSigns(c) && c in Survivors(reg, w) && OneUnitEach(c.sys.steps)
    ensures Descending(c.sys.steps, Digits(Insts(c))) && Insts(c) != []
  {
    hide Survivors, SignToks, StepOk, OneUnitEach, DetsFit, ChainOf;
    SurvivorsRead(reg, w, c);
    var rd := Insts(c);
    forall k | 0 < k < |rd| ensures rd[k - 1].step < rd[k].step {
      assert rd[k - 1] == c.steps[k - 1].inst && rd[k] == c.steps[k].inst;
      StepOkIsLower(rd[k - 1], rd[k]);
    }
  }

  function Texts(ts: seq<Tok>): (r: seq<string>)
    ensures |r| == |ts| && forall k :: 0 <= k < |ts| ==> r[k] == ts[k].text
  {
    seq(|ts|, k requires 0 <= k < |ts| => ts[k].text)
  }

  /** In one system texts and digits tell each other. */
  lemma {:induction false} TextsAreDigits(c: Number, d: Number)
    requires AutoSigns(c) && AutoSigns(d) && c.sys == d.sys && OneUnitEach(c.sys.steps)
    ensures Texts(Toks(c)) == Texts(Toks(d)) <==> Digits(Insts(c)) == Digits(Insts(d))
  {
    hide OneUnitEach;
    var v, w, rd, se := Toks(c), Toks(d), Digits(Insts(c)), Digits(Insts(d));
    if |v| == |w| {
      forall k | 0 <= k < |v| ensures v[k].text == w[k].text <==> rd[k] == se[k] {
        SignIsDigit(c.steps[k].inst, d.steps[k].inst);
      }
      if Texts(v) == Texts(w) {
        forall k | 0 <= k < |v| ensures rd[k] == se[k] { assert Texts(v)[k] == Texts(w)[k]; }
      }
      if rd == se {
        forall k | 0 <= k < |v| ensures Texts(v)[k] == Texts(w)[k] { assert rd[k] == se[k]; }
      }
    } else {
      assert |Texts(v)| == |v| && |Texts(w)| == |w| && |rd| == |v| && |se| == |w|;
    }
  }

  lemma {:induction false} SignIsDigit(i: Inst, j: Inst)
    requires i.sys == j.sys && OneUnitEach(i.sys.steps) && Built.MadeUp(i) && Built.MadeUp(j)
    ensures i.text == j.text <==> i.step == j.step && i.count.n == j.count.n
  {
    if i.text == j.text {
      Built.SignTextTells(i.count.n, i.sys.steps[i.step].unit, j.count.n, j.sys.steps[j.step].unit);
    }
  }

  /** In a system with proper radices two strings of made-up signs that the parser accepts are worth the same if and
      only if they are the same: c and d are what is left of the words v and w in one system. */
  lemma {:induction false} SameValueSameSigns(reg: Registry, v: seq<Tok>, c: Number, w: seq<Tok>, d: Number)
    requires AutoSigns(c) && AutoSigns(d) && c in Survivors(reg, v) && d in Survivors(reg, w) && c.sys == d.sys
    requires OneUnitEach(c.sys.steps) && ProperRadices(c.sys.steps)
    ensures Descending(c.sys.steps, Digits(Insts(c))) && Descending(c.sys.steps, Digits(Insts(d)))
    ensures DigitValue(c.sys.steps, Digits(Insts(c))) == DigitValue(c.sys.steps, Digits(Insts(d)))
            <==> Texts(SignToks(v)) == Texts(SignToks(w))
  {
    hide Survivors, OneUnitEach, ProperRadices, DigitValue, AutoSigns, SignToks;
    CandidateDigits(reg, v, c);
    CandidateDigits(reg, w, d);
    SurvivorsSpell(reg, v, c);
    SurvivorsSpell(reg, w, d);
    TextsAreDigits(c, d);
    if DigitValue(c.sys.steps, Digits(Insts(c))) == DigitValue(c.sys.steps, Digits(Insts(d))) {
      ValuesDiffer(c.sys.steps, Digits(Insts(c)), Digits(Insts(d)));
    }
  }

  /** And a candidate is worth less than the radix of its top step times its unit. */
  lemma {:induction false} CandidateBound(reg: Registry, w: seq<Tok>, c: Number)
    requires AutoSigns(c) && c in Survivors(reg, w) && OneUnitEach(c.sys.steps) && ProperRadices(c.sys.steps)
    ensures var steps, ds := c.sys.steps, Digits(Insts(c));
            && Descending(steps, ds) && ds != []
            && 0 < DigitValue(steps, ds)
            && var s := ds[0].step;
            DigitValue(steps, ds) < Times(MaxCount(steps[s].mult.n) + 1, Per(steps, s, |steps| - 1))
  {
    hide Survivors, AutoSigns;
    CandidateDigits(reg, w, c);
    ValueBound(c.sys.steps, Digits(Insts(c)));
    HigherTop(c.sys.steps, Digits(Insts(c)), []);
  }

  /** The same said of values: the signs of c and of d have one value only if they are one string of signs. */
  lemma {:induction false} SameReturnSameSigns(reg: Registry, v: seq<Tok>, c: Number, w: seq<Tok>, d: Number, b: nat,
      aev: Frac)
    requires AutoSigns(c) && AutoSigns(d) && c in Survivors(reg, v) && d in Survivors(reg, w) && c.sys == d.sys
    requires OneUnitEach(c.sys.steps) && ProperRadices(c.sys.steps) && c.sys.WholeRadices() && c.sys.BaseNearEnd(b)
    requires IsValue(c.sys, b, Insts(c), aev) && IsValue(c.sys, b, Insts(d), aev)
    ensures Texts(SignToks(v)) == Texts(SignToks(w))
  {
    hide Survivors, SignToks, OneUnitEach, ProperRadices, AutoSigns;
    SameValueSameSigns(reg, v, c, w, d);
    ValueOfDigits(c.sys, b, Insts(c), aev);
    ValueOfDigits(c.sys, b, Insts(d), aev);
    hide DigitValue, Digits, Insts, IsValue;
    Same(DigitValue(c.sys.steps, Digits(Insts(c))), DigitValue(c.sys.steps, Digits(Insts(d))), aev.d);
  }

  /** What nx_values_np wants of a number, shown of the signs of a candidate. */
  lemma {:induction false} CandidateIsWhole(reg: Registry, w: seq<Tok>, c: Number)
    requires AutoSigns(c) && c in Survivors(reg, w)
    ensures WholeNumber(c.sys, Insts(c))
  {
    hide Survivors, SignToks;
    SurvivorsRead(reg, w, c);
    forall k | 0 <= k < |c.steps| ensures Insts(c)[k] == c.steps[k].inst && Built.MadeUp(c.steps[k].inst) {}
  }

  /** nx_values_np on the made-up signs of a candidate, in a system with whole radices whose steps down to the base are
      plain: the value is the number its digits make of the last step, over the radix under the base, unless a sign
      counts the step under the base and its unit is a fraction of it. */
  method CandidateValue(ghost reg: Registry, ghost w: seq<Tok>, c: Number, sys: System, steps: seq<NsInst>, conv: nat,
      ghost b: nat)
    returns (aev: Frac, mev: Frac)
    requires AutoSigns(c) && c in Survivors(reg, w) && OneUnitEach(c.sys.steps)
    requires sys.def == c.sys && Defs(steps) == Insts(c) && |sys.aev| == |c.sys.steps|
    requires c.sys.BaseNearEnd(b) && c.sys.IsBase(b) && c.sys.WholeRadices()
    requires forall j :: 0 < j <= b ==> c.sys.steps[j].plain
    requires sys.aevDone ==> AevsFound(sys, b)
    requires WholeNumber(c.sys, Insts(c)) ==> Total(c.sys, b, Insts(c)) <= LONG_MAX
    requires c.sys.Scale(b, b) <= INT_MAX
    modifies sys, steps
    ensures Descending(c.sys.steps, Digits(Insts(c))) && LowestTerms(aev)
    ensures IsDigitValue(c.sys, b, Insts(c), aev) <==> DigitsCount(c.sys, b, Insts(c))
    ensures b + 1 == |c.sys.steps| ==> aev == Frac(DigitValue(c.sys.steps, Digits(Insts(c))), 1)
  {
    hide Survivors, OneUnitEach, AutoSigns, WholeNumber, Total, DigitValue, LowestTerms, Descending, IsDigitValue,
        DigitsCount, Insts;
    hide Sys.IsBase, Sys.WholeRadices, Sys.Scale, AevsFound;
    CandidateIsWhole(reg, w, c);
    CandidateDigits(reg, w, c);
    aev, mev := WholeRadixValue(sys, steps, conv, b);
  }
}
