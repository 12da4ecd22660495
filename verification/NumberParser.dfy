/** The number parser itself: nxp_numbers with its candidate objects and their flags. */
module NumberParser {
  import opened Common
  import opened Fractions
  import opened NumberSystems
  import opened NumberReading

  // ---------- Candidates ----------

  /** struct nx_number while it is being read. */
  class NxNumber {
    var invalid: bool
    const sys: Sys
    var steps: seq<Sign>
    var det: seq<Tok>
    var com: seq<Tok>
    var ass: seq<Tok>

    constructor (sys: Sys, first: Sign)
      ensures !invalid && View() == Number(sys, [first], [], [], [])
    {
      invalid := false;
      this.sys, steps, det, com, ass := sys, [first], [], [], [];
    }

    function View(): Number
      reads this
    {
      Number(sys, steps, det, com, ass)
    }
  }

  ghost predicate Shows(cand: seq<NxNumber>, cs: seq<Number>)
    reads cand
  {
    |cand| == |cs| && forall k :: 0 <= k < |cand| ==> cand[k].View() == cs[k]
  }

  predicate Distinct(cand: seq<NxNumber>) {
    forall j, k :: 0 <= j < k < |cand| ==> cand[j] != cand[k]
  }

  /** Different candidates, none marked invalid. */
  ghost predicate Live(cand: seq<NxNumber>, cs: seq<Number>)
    reads cand
  {
    Distinct(cand) && Shows(cand, cs) && forall k :: 0 <= k < |cand| ==> !cand[k].invalid
  }

  /** After an attempt to add a token: those that took it have it, the others are as they were and marked. */
  ghost predicate Tried(reg: Registry, cand: seq<NxNumber>, cs: seq<Number>, t: Tok, upto: nat)
    reads cand
  {
    && Distinct(cand) && |cand| == |cs| && upto <= |cs|
    && forall k :: 0 <= k < |cand| ==>
         if k < upto && Try(reg, cs[k], t).Some? then cand[k].View() == Try(reg, cs[k], t).value && !cand[k].invalid
         else cand[k].View() == cs[k] && (cand[k].invalid <==> k < upto)
  }

  /** nxp_sys_step_ok. */
  method SysStepOk(left: Inst, next: Inst) returns (ok: bool)
    requires left.step < |left.sys.steps| && next.step < |next.sys.steps|
    ensures ok <==>
            && left.sys.name == next.sys.name
            && exists s :: left.step < s < |left.sys.steps| && left.sys.steps[s].unit == next.sys.steps[next.step].unit
  {
    if left.sys.name == next.sys.name {
      var s := left.step + 1;
      while s < |left.sys.steps|
        invariant left.step < s <= |left.sys.steps|
        invariant forall k :: left.step < k < s ==> left.sys.steps[k].unit != next.sys.steps[next.step].unit
      {
        if left.sys.steps[s].unit == next.sys.steps[next.step].unit { return true; }
        s := s + 1;
      }
    }
    return false;
  }

  predicate ChainOk(chain: seq<Inst>) { forall k :: 0 <= k < |chain| ==> chain[k].step < |chain[k].sys.steps| }

  predicate NumberOk(c: Number) {
    c.steps != [] && c.steps[|c.steps| - 1].inst.step < |c.steps[|c.steps| - 1].inst.sys.steps|
  }

  predicate NumbersOk(cs: seq<Number>) { forall k :: 0 <= k < |cs| ==> NumberOk(cs[k]) }

  /** nxp_candidates_inst. */
  method CandidatesInst(t: Tok, chain: seq<Inst>) returns (cand: seq<NxNumber>)
    ensures Live(cand, Start(t, chain)) && forall k :: 0 <= k < |cand| ==> fresh(cand[k])
  {
    cand := [];
    for i := 0 to |chain|
      invariant |cand| == i && Distinct(cand)
      invariant forall k :: 0 <= k < i ==> fresh(cand[k]) && !cand[k].invalid && cand[k].View() == Start(t, chain)[k]
    {
      var c := new NxNumber(chain[i].sys, Sign(t, chain[i]));
      cand := cand + [c];
    }
  }

  /** The inner loop of nxp_add_inst: the first sign that fits, if any, is added to the candidate. */
  method TryInst(ghost reg: Registry, c: NxNumber, t: Tok, chain: seq<Inst>) returns (fits: bool)
    requires IsStep(t) && chain == ChainOf(reg, t.text) && ChainOk(chain) && NumberOk(c.View())
    modifies c
    ensures fits == Try(reg, old(c.View()), t).Some?
    ensures c.View() == if fits then Try(reg, old(c.View()), t).value else old(c.View())
    ensures c.invalid == if fits then old(c.invalid) else true
  {
    ghost var v := c.View();
    var left := c.steps[|c.steps| - 1].inst;
    var jp := 0;
    while jp < |chain|
      invariant 0 <= jp <= |chain| && forall k :: 0 <= k < jp ==> !Fits(v, chain[k])
      invariant c.View() == v && c.invalid == old(c.invalid)
    {
      var below := SysStepOk(left, chain[jp]);
      if c.sys.name == chain[jp].sys.name && below { break; }
      jp := jp + 1;
    }
    FirstFitIs(v, chain, jp);
    if jp < |chain| {
      c.steps := c.steps + [Sign(t, chain[jp])];
      return true;
    }
    c.invalid := true;
    return false;
  }

  lemma {:induction false} FirstFitIs(c: Number, chain: seq<Inst>, j: nat)
    requires j <= |chain| && (j < |chain| ==> Fits(c, chain[j])) && forall k :: 0 <= k < j ==> !Fits(c, chain[k])
    ensures FirstFit(c, chain) == j
  {
  }

  lemma {:induction false} NextNothing(reg: Registry, t: Tok)
    ensures Next(reg, [], t) == []
  {
  }

  lemma {:induction false} NextOne(reg: Registry, cs: seq<Number>, t: Tok, i: nat)
    requires i < |cs|
    ensures var d := Try(reg, cs[i], t);
            Next(reg, cs[..i + 1], t) == Next(reg, cs[..i], t) + if d.Some? then [d.value] else []
  {
    hide Try;
    assert cs[..i + 1][..i] == cs[..i];
  }

  /** nxp_add_inst. */
  method AddInst(ghost reg: Registry, cand: seq<NxNumber>, t: Tok, chain: seq<Inst>, ghost cs: seq<Number>)
      returns (ok: nat)
    requires IsStep(t) && chain == ChainOf(reg, t.text) && ChainOk(chain) && Live(cand, cs) && NumbersOk(cs)
    modifies cand
    ensures Tried(reg, cand, cs, t, |cs|)
    ensures ok == 0 <==> Next(reg, cs, t) == []
  {
    hide Try, Next;
    ok := 0;
    assert cs[..0] == [];
    NextNothing(reg, t);
    for i := 0 to |cand|
      invariant Tried(reg, cand, cs, t, i)
      invariant ok == 0 <==> Next(reg, cs[..i], t) == []
    {
      NextOne(reg, cs, t, i);
      var fits := TryInst(reg, cand[i], t, chain);
      if fits { ok := ok + 1; }
    }
    assert cs[..|cand|] == cs;
  }

  /** nxp_add_det for one candidate, whose determinative is replaced. */
  method TryDet(ghost reg: Registry, c: NxNumber, t: Tok) returns (fits: bool)
    requires IsDet(t) && (HasDet(c.sys, t) ==> c.det == [])
    modifies c
    ensures fits == Try(reg, old(c.View()), t).Some?
    ensures c.View() == if fits then Try(reg, old(c.View()), t).value else old(c.View())
    ensures c.invalid == if fits then old(c.invalid) else true
  {
    var xtok := if t.text != "" && t.text[0] == '{' then t.text else "{" + t.text + "}";
    fits := c.sys.det.Some? && c.sys.det.value == xtok;
    if fits {
      c.det := [Tok(xtok, ND)];
    } else {
      c.invalid := true;
    }
  }

  /** nxp_add_det, where no determinative is replaced. */
  method AddDet(ghost reg: Registry, cand: seq<NxNumber>, t: Tok, ghost cs: seq<Number>) returns (ok: nat)
    requires IsDet(t) && Live(cand, cs) && !Disturbs(cs, t)
    modifies cand
    ensures Tried(reg, cand, cs, t, |cs|)
    ensures ok == 0 <==> Next(reg, cs, t) == []
  {
    hide Try, Next;
    ok := 0;
    assert cs[..0] == [];
    NextNothing(reg, t);
    for i := 0 to |cand|
      invariant Tried(reg, cand, cs, t, i)
      invariant ok == 0 <==> Next(reg, cs[..i], t) == []
    {
      NextOne(reg, cs, t, i);
      assert cand[i].View() == cs[i];
      var fits := TryDet(reg, cand[i], t);
      if fits { ok := ok + 1; }
    }
    assert cs[..|cand|] == cs;
  }

  /** nxp_remove_invalid: the candidates that took the token, in order. It writes a terminator after them in an
      array of as many places as there were candidates: there is a place for it exactly if some candidate was
      marked. */
  method RemoveInvalid(ghost reg: Registry, cand: seq<NxNumber>, ghost t: Tok, ghost cs: seq<Number>)
      returns (kept: seq<NxNumber>)
    requires Tried(reg, cand, cs, t, |cs|)
    ensures Live(kept, Next(reg, cs, t))
    ensures forall k :: 0 <= k < |kept| ==> kept[k] in cand
    ensures |kept| < |cand| <==> exists k :: 0 <= k < |cand| && cand[k].invalid
  {
    hide Try, Next;
    kept := [];
    assert cs[..0] == [];
    NextNothing(reg, t);
    ghost var from: seq<nat> := [];
    for i := 0 to |cand|
      invariant |from| == |kept| <= i && forall k :: 0 <= k < |kept| ==> from[k] < i && kept[k] == cand[from[k]]
      invariant forall j, k :: 0 <= j < k < |from| ==> from[j] < from[k]
      invariant Shows(kept, Next(reg, cs[..i], t)) && forall k :: 0 <= k < |kept| ==> !kept[k].invalid
      invariant |kept| < i <==> exists k :: 0 <= k < i && cand[k].invalid
    {
      NextOne(reg, cs, t, i);
      if !cand[i].invalid {
        kept := kept + [cand[i]];
        from := from + [i];
      }
    }
    assert cs[..|cand|] == cs;
  }

  /** One ten and one unit after it, which its one candidate takes: what is left fills all the places there are, and
      the terminator goes after them. */
  method NoPlaceLeft() returns (places: nat, kept: seq<NxNumber>)
    ensures |kept| == places == 1
  {
    var sys := Sys("Sd", [Step("u", Frac(6, 1), true, None), Step("dish", Frac(10, 1), true, None)], None, None);
    var ten, one := Inst("1(u)", sys, 0, Frac(1, 1), None), Inst("1(dish)", sys, 1, Frac(1, 1), None);
    var t, u := Tok("1(u)", NG), Tok("1(dish)", NG);
    ghost var reg: Registry, cs := map["1(dish)" := [one]], Start(t, [ten]);
    assert ChainOf(reg, u.text) == [one];
    assert StepOk(ten, one) by { assert sys.steps[1].unit == one.sys.steps[one.step].unit; }
    assert Fits(cs[0], one) && FirstFit(cs[0], [one]) == 0 && Try(reg, cs[0], u).Some?;
    var cand := CandidatesInst(t, [ten]);
    places := |cand|;
    var good := AddInst(reg, cand, u, [one], cs);
    NextOne(reg, cs, u, 0);
    assert cs[..1] == cs && Next(reg, cs[..0], u) == [];
    kept := RemoveInvalid(reg, cand, u, cs);
  }

  /** The outcome of an attempt that good candidates came through. If there are none, no candidate has changed,
      marked or not. */
  ghost predicate Attempted(reg: Registry, cand: seq<NxNumber>, cs: seq<Number>, t: Tok, good: nat)
    reads cand
  {
    && (good == 0 <==> Next(reg, cs, t) == [])
    && if good > 0 then Tried(reg, cand, cs, t, |cs|) else Distinct(cand) && Shows(cand, cs)
  }

  lemma {:induction false} TriedIsAttempted(reg: Registry, cand: seq<NxNumber>, cs: seq<Number>, t: Tok, good: nat)
    requires Tried(reg, cand, cs, t, |cs|) && (good == 0 <==> Next(reg, cs, t) == [])
    ensures Attempted(reg, cand, cs, t, good)
  {
    hide Try, Next;
    if good == 0 {
      forall k | 0 <= k < |cs| ensures Try(reg, cs[k], t).None? {
        if Try(reg, cs[k], t).Some? { NextHas(reg, cs, t, cs[k]); }
      }
    }
  }

  /** The marks are taken off again. */
  method ClearInvalid(cand: seq<NxNumber>, ghost cs: seq<Number>)
    requires Distinct(cand) && Shows(cand, cs)
    modifies cand
    ensures Live(cand, cs)
  {
    for i := 0 to |cand|
      invariant Shows(cand, cs) && forall k :: 0 <= k < i ==> !cand[k].invalid
    {
      cand[i].invalid := false;
    }
  }

  /** nxp_append_step: the token goes beside every candidate. */
  method AppendBeside(ghost reg: Registry, cand: seq<NxNumber>, t: Tok, ghost cs: seq<Number>)
    requires IsSide(t) && Live(cand, cs)
    modifies cand
    ensures Live(cand, Next(reg, cs, t))
  {
    hide Next;
    SideNext(reg, cs, t);
    for i := 0 to |cand|
      invariant Distinct(cand) && |cand| == |cs|
      invariant forall k :: 0 <= k < |cand| ==>
                !cand[k].invalid && cand[k].View() == if k < i then Next(reg, cs, t)[k] else cs[k]
    {
      if t.kind.NC? || t.kind.GC? {
        cand[i].com := cand[i].com + [t];
      } else if t.kind.NA? {
        cand[i].ass := cand[i].ass + [t];
      } else {
        cand[i].det := cand[i].det + [t];
      }
    }
  }

  // ---------- Tokens ----------

  datatype Result = NoNum(tok: Tok) | BadNum(tok: Tok) | Nums(nums: seq<NxNumber>)

  ghost predicate Matches(r: Result, e: Entry, kept: set<NxNumber>)
    reads kept
  {
    match r
    case NoNum(t) => e == Other(t)
    case BadNum(t) => e == Stray(t)
    case Nums(nums) => e.Num? && (forall k :: 0 <= k < |nums| ==> nums[k] in kept) && ShowsIn(nums, e.cands, kept)
  }

  ghost predicate ShowsIn(nums: seq<NxNumber>, cs: seq<Number>, kept: set<NxNumber>)
    requires forall k :: 0 <= k < |nums| ==> nums[k] in kept
    reads kept
  {
    |nums| == |cs| && forall k :: 0 <= k < |nums| ==> nums[k].View() == cs[k]
  }

  /** Candidates and their order after Start and Extend stay well-formed. */
  lemma {:induction false} StartOk(t: Tok, chain: seq<Inst>)
    requires ChainOk(chain)
    ensures NumbersOk(Start(t, chain))
  {
  }

  lemma {:induction false} NextOk(reg: Registry, cs: seq<Number>, t: Tok)
    requires ChainOk(ChainOf(reg, t.text)) && NumbersOk(cs)
    ensures NumbersOk(Next(reg, cs, t))
  {
    hide Next;
    var es := Next(reg, cs, t);
    forall k | 0 <= k < |es| ensures NumberOk(es[k]) {
      var d := NextFrom(reg, cs, t, es[k]);
      var j :| 0 <= j < |cs| && cs[j] == d;
      assert NumberOk(cs[j]);
    }
  }

  class Parser {
    const reg: Registry
    var results: seq<Result>
    ghost var entries: seq<Entry>    // what the results show
    ghost var kept: set<NxNumber>    // the candidates in them

    constructor (reg: Registry)
      ensures this.reg == reg && Valid() && entries == [] && kept == {}
    {
      this.reg := reg;
      results, entries, kept := [], [], {};
    }

    ghost predicate Valid()
      reads this, kept
    {
      |results| == |entries| && forall k :: 0 <= k < |results| ==> Matches(results[k], entries[k], kept)
    }

    /** nxp_unxnum, nxp_badnum and one turn of nxp_nonnums. */
    method AddPlain(t: Tok, number: bool)
      requires Valid()
      modifies this`results, this`entries
      ensures Valid() && entries == old(entries) + [if number then Stray(t) else Other(t)]
      ensures |results| == |old(results)| + 1
    {
      results := results + [if number then BadNum(t) else NoNum(t)];
      entries := entries + [if number then Stray(t) else Other(t)];
    }

    /** nxp_stash_result. */
    method StashResult(cand: seq<NxNumber>, ghost cs: seq<Number>)
      requires Valid() && Live(cand, cs) && cs != []
      modifies this`results, this`entries, this`kept
      ensures Valid() && entries == old(entries) + [Num(cs)]
      ensures kept == old(kept) + (set k | 0 <= k < |cand| :: cand[k])
      ensures |results| == |old(results)| + 1
    {
      ghost var was := kept;
      kept := kept + (set k | 0 <= k < |cand| :: cand[k]);
      results := results + [Nums(cand)];
      entries := entries + [Num(cs)];
      forall k | 0 <= k < |old(results)| ensures Matches(results[k], entries[k], kept) {
        assert Matches(old(results)[k], old(entries)[k], was);
      }
    }

    /** The candidates being read: live, well-formed, and none of them in the results. */
    ghost predicate Reading(cand: seq<NxNumber>, cs: seq<Number>)
      reads this, cand
    {
      Live(cand, cs) && NumbersOk(cs) && forall k :: 0 <= k < |cand| ==> cand[k] !in kept
    }

    /** nxp_last_has_Sa, and the test in nxp_merge_unit: the last result is a number with a candidate in the S
        system of that axis. */
    method LastHasS(axis: char) returns (has: bool)
      requires Valid()
      ensures has <==>
              && entries != [] && entries[|entries| - 1].Num?
              && exists c :: c in entries[|entries| - 1].cands &&
                   |c.sys.name| > 1 && c.sys.name[0] == 'S' && c.sys.name[1] == axis
    {
      has := false;
      if |results| > 0 && results[|results| - 1].Nums? {
        var nu := results[|results| - 1].nums;
        ghost var cs := entries[|entries| - 1].cands;
        assert Matches(results[|results| - 1], entries[|entries| - 1], kept);
        for i := 0 to |nu|
          invariant forall k :: 0 <= k < i ==> !IsS(cs[k].sys, axis)
        {
          assert nu[i].View() == cs[i];
          if |nu[i].sys.name| > 1 && nu[i].sys.name[0] == 'S' && nu[i].sys.name[1] == axis {
            assert cs[i] in cs;
            return true;
          }
        }
      } else if |results| > 0 {
        assert Matches(results[|results| - 1], entries[|entries| - 1], kept);
      }
    }

    /** A token met with no number open. */
    method Open(t: Tok) returns (cand: seq<NxNumber>, ghost cs: seq<Number>)
      requires Valid() && RegistryOk(reg) && !t.kind.NN? && !Merges(reg, entries, t)
      modifies this`results, this`entries
      ensures Valid() && Reading(cand, cs) && forall k :: 0 <= k < |cand| ==> fresh(cand[k])
      ensures State(entries, cs) == Begin(reg, State(old(entries), []), t)
    {
      cand, cs := [], [];
      if t.kind.NG? || t.kind.NF? {
        if t.text in reg {
          var sa := LastHasS('a');
          if IsC(reg[t.text][0]) && sa {
            assert false;  // nxp_implicit_gur
          } else {
            cs := Start(t, reg[t.text]);
            cand := CandidatesInst(t, reg[t.text]);
            StartOk(t, reg[t.text]);
          }
        } else {
          AddPlain(t, true);
        }
      } else if t.kind.NW? {
        var merged := false;
        if t.text in reg && reg[t.text][0].axis.Some? {
          merged := LastHasS(reg[t.text][0].axis.value);
        }
        if merged {
          assert false;  // nxp_merge_unit
        } else {
          AddPlain(t, true);
        }
      } else if !t.kind.NZ? {
        AddPlain(t, true);
      }
    }

    /** A number read so far, after an attempt to add a token to its candidates. */
    method Settle(cand: seq<NxNumber>, good: nat, ghost t: Tok, ghost cs: seq<Number>)
        returns (next: seq<NxNumber>, ghost cs2: seq<Number>)
      requires Valid() && RegistryOk(reg) && NumbersOk(cs) && cs != [] && Attempted(reg, cand, cs, t, good)
      requires forall k :: 0 <= k < |cand| ==> cand[k] !in kept
      modifies this`results, this`entries, this`kept, cand
      ensures Valid() && Reading(next, cs2) && forall k :: 0 <= k < |next| ==> next[k] in cand
      ensures if good > 0 then State(entries, cs2) == State(old(entries), Next(reg, cs, t)) && kept == old(kept)
              else
                && State(entries, cs2) == Stashed(State(old(entries), cs))
                && kept == old(kept) + (set k | 0 <= k < |cand| :: cand[k])
    {
      hide Try, Next, Matches;
      if good > 0 {
        ChainIsOk(t);
        next := RemoveInvalid(reg, cand, t, cs);
        NextOk(reg, cs, t);
        cs2 := Next(reg, cs, t);
      } else {
        ClearMarks(cand, cs);
        StashResult(cand, cs);
        next, cs2 := [], [];
      }
    }

    /** The candidates are in no result, so taking the marks off leaves the results alone. */
    method ClearMarks(cand: seq<NxNumber>, ghost cs: seq<Number>)
      requires Valid() && Distinct(cand) && Shows(cand, cs) && forall k :: 0 <= k < |cand| ==> cand[k] !in kept
      modifies cand
      ensures Valid() && Live(cand, cs)
    {
      ClearInvalid(cand, cs);
    }

    /** A token met with a number open; one that no candidate takes ends the number and is not consumed. */
    method GoOn(cand: seq<NxNumber>, t: Tok, ghost cs: seq<Number>)
        returns (next: seq<NxNumber>, used: bool, ghost cs2: seq<Number>)
      requires Valid() && RegistryOk(reg) && !t.kind.NN? && Reading(cand, cs) && cand != [] && !Disturbs(cs, t)
      modifies this`results, this`entries, this`kept, cand
      ensures Valid() && Reading(next, cs2) && forall k :: 0 <= k < |next| ==> next[k] in cand
      ensures used == (t.kind.NZ? || Next(reg, cs, t) != [])
      ensures State(entries, cs2) == if used then Feed(reg, State(old(entries), cs), t)
              else Stashed(State(old(entries), cs))
      ensures forall c :: c in kept ==> c in old(kept) || c in cand
    {
      hide Next, Try, Survivors, Matches, Disturbs;
      next, used, cs2 := cand, true, cs;
      ChainIsOk(t);
      if t.kind.ND? || (t.kind.NW? && t.text == "gur") {
        var good := AddDet(reg, cand, t, cs);
        TriedIsAttempted(reg, cand, cs, t, good);
        next, cs2 := Settle(cand, good, t, cs);
        used := good > 0;
      } else if t.kind.NC? || t.kind.GC? || t.kind.NA? || t.kind.GW? {
        AppendBeside(reg, cand, t, cs);
        SideNext(reg, cs, t);
        NextOk(reg, cs, t);
        cs2 := Next(reg, cs, t);
      } else if t.kind.NZ? {
        StashResult(cand, cs);
        next, cs2 := [], [];
      } else {
        var good := AddStep(cand, t, cs);
        next, cs2 := Settle(cand, good, t, cs);
        used := good > 0;
      }
    }

    lemma {:induction false} ChainIsOk(t: Tok)
      requires RegistryOk(reg)
      ensures ChainOk(ChainOf(reg, t.text))
    {
    }

    /** nxp_add_step. */
    method AddStep(cand: seq<NxNumber>, t: Tok, ghost cs: seq<Number>) returns (good: nat)
      requires Valid() && RegistryOk(reg) && IsStep(t) && Reading(cand, cs)
      modifies cand
      ensures Valid() && Attempted(reg, cand, cs, t, good)
    {
      hide Next, Try, Matches;
      good := 0;
      if t.text in reg {
        ChainIsOk(t);
        good := AddInst(reg, cand, t, reg[t.text], cs);
        TriedIsAttempted(reg, cand, cs, t, good);
      } else {
        NextNone(cs, t);
      }
    }

    /** A token that is no sign extends nothing. */
    lemma {:induction false} NextNone(cs: seq<Number>, t: Tok)
      requires IsStep(t) && t.text !in reg
      ensures Next(reg, cs, t) == []
    {
      if cs != [] { NextNone(cs[..|cs| - 1], t); }
    }

    /** One turn of nxp_numbers: the token is consumed, or it closes the number being read and is met again. */
    method Turn(cand: seq<NxNumber>, t: Tok, ghost cs: seq<Number>)
        returns (next: seq<NxNumber>, used: bool, ghost cs2: seq<Number>)
      requires Valid() && RegistryOk(reg) && !t.kind.NN? && Reading(cand, cs) && Clear(reg, State(entries, cs), t)
      modifies this`results, this`entries, this`kept, cand
      ensures Valid() && Reading(next, cs2) && (forall k :: 0 <= k < |next| ==> fresh(next[k]) || next[k] in cand)
      ensures if used then State(entries, cs2) == Feed(reg, State(old(entries), cs), t)
              else
                && cand != [] && next == []
                && Feed(reg, State(old(entries), cs), t) == Feed(reg, State(entries, cs2), t)
                && Clear(reg, State(entries, cs2), t)
      ensures forall c :: c in kept ==> c in old(kept) || c in cand
    {
      hide Next, Survivors, Begin, Merges;
      LiveNone(cand, cs);
      if cand == [] {
        next, cs2 := Open(t);
        used := true;
      } else {
        next, used, cs2 := GoOn(cand, t, cs);
      }
    }

    /** nxp_numbers over the tokens start..to: each turn consumes a token or closes the number being read. */
    method Numbers(toks: seq<string>, nptoks: array<TokType>, start: nat, to: int, ghost ts: seq<Tok>)
      requires Valid() && RegistryOk(reg) && start - 1 <= to < |toks| == |ts| == nptoks.Length
      requires forall k :: start <= k <= to ==> ts[k] == Tok(toks[k], nptoks[k]) && !ts[k].kind.NN?
      requires ClearFrom(reg, State(entries, []), ts[start..to + 1])
      modifies this`results, this`entries, this`kept
      ensures Valid() && entries == Stashed(FeedFrom(reg, State(old(entries), []), ts[start..to + 1])).entries
      ensures forall c :: c in kept ==> c in old(kept) || fresh(c)
    {
      hide Feed, FeedFrom, Begin, Clear, ClearFrom, Live, NumbersOk, RegistryOk, Valid, Matches;
      var from := start;
      var cand: seq<NxNumber> := [];
      ghost var cs: seq<Number> := [];
      ghost var goal := FeedFrom(reg, State(entries, []), ts[start..to + 1]);
      ReadingNone();
      while from <= to
        invariant start <= from <= to + 1
        invariant Valid() && Reading(cand, cs)
        invariant forall k :: 0 <= k < |cand| ==> fresh(cand[k])
        invariant forall c :: c in kept ==> c in old(kept) || fresh(c)
        invariant FeedFrom(reg, State(entries, cs), ts[from..to + 1]) == goal
        invariant ClearFrom(reg, State(entries, cs), ts[from..to + 1])
        decreases 2 * (to - from + 1) + if cand != [] then 1 else 0
      {
        FeedNext(reg, State(entries, cs), ts, from, to + 1);
        ClearNext(reg, State(entries, cs), ts, from, to + 1);
        var used: bool;
        cand, used, cs := Turn(cand, Tok(toks[from], nptoks[from]), cs);
        FeedNext(reg, State(entries, cs), ts, from, to + 1);
        ClearNext(reg, State(entries, cs), ts, from, to + 1);
        if used { from := from + 1; }
      }
      FeedNone(reg, State(entries, cs), ts, from);
      LiveNone(cand, cs);
      if cand != [] { StashResult(cand, cs); }
    }

    lemma {:induction false} ReadingNone()
      ensures Reading([], [])
    {
    }
  }

  lemma {:induction false} LiveNone(cand: seq<NxNumber>, cs: seq<Number>)
    requires Live(cand, cs)
    ensures cand == [] <==> cs == []
  {
  }

  /** FeedAll from the front. */
  function FeedFrom(reg: Registry, st: State, ts: seq<Tok>): State
    decreases |ts|
  {
    if ts == [] then st else FeedFrom(reg, Feed(reg, st, ts[0]), ts[1..])
  }

  /** Every token is read as Feed has it. */
  predicate ClearFrom(reg: Registry, st: State, ts: seq<Tok>)
    decreases |ts|
  {
    ts == [] || (Clear(reg, st, ts[0]) && ClearFrom(reg, Feed(reg, st, ts[0]), ts[1..]))
  }

  lemma {:induction false} ClearNext(reg: Registry, st: State, ts: seq<Tok>, a: nat, b: nat)
    requires a < b <= |ts|
    ensures ClearFrom(reg, st, ts[a..b]) <==>
            Clear(reg, st, ts[a]) && ClearFrom(reg, Feed(reg, st, ts[a]), ts[a + 1..b])
  {
    hide Feed, Clear;
    assert ts[a..b][1..] == ts[a + 1..b];
  }

  lemma {:induction false} FeedNext(reg: Registry, st: State, ts: seq<Tok>, a: nat, b: nat)
    requires a < b <= |ts|
    ensures FeedFrom(reg, st, ts[a..b]) == FeedFrom(reg, Feed(reg, st, ts[a]), ts[a + 1..b])
  {
    hide Feed;
    assert ts[a..b][1..] == ts[a + 1..b];
  }

  lemma {:induction false} FeedNone(reg: Registry, st: State, ts: seq<Tok>, a: nat)
    requires a <= |ts|
    ensures FeedFrom(reg, st, ts[a..a]) == st
  {
  }
}
