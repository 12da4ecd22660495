/** What reading a run of number tokens comes to, on values: candidate systems and where numbers end. */
module NumberReading {
  import opened Common
  import opened NumberSystems

  datatype TokType = NN | NG | NF | NB | NW | NV | ND | NC | NA | NZ | NE | GC | GW | NO

  datatype Tok = Tok(text: string, kind: TokType)

  type Registry = map<string, seq<Inst>>

  predicate RegistryOk(reg: Registry) {
    forall t :: t in reg ==> reg[t] != [] && forall k :: 0 <= k < |reg[t]| ==> reg[t][k].step < |reg[t][k].sys.steps|
  }

  datatype Sign = Sign(tok: Tok, inst: Inst)

  /** A candidate reading of the tokens of one number. */
  datatype Number = Number(sys: Sys, steps: seq<Sign>, det: seq<Tok>, com: seq<Tok>, ass: seq<Tok>)

  datatype Entry = Other(tok: Tok) | Stray(tok: Tok) | Num(cands: seq<Number>)

  /** nxp_sys_step_ok: next is a step of the same system further down. */
  predicate StepOk(left: Inst, next: Inst) {
    && left.sys.name == next.sys.name
    && next.step < |next.sys.steps|
    && exists s :: left.step < s < |left.sys.steps| && left.sys.steps[s].unit == next.sys.steps[next.step].unit
  }

  predicate OneUnitEach(steps: seq<Step>) {
    forall i, j :: 0 <= i < j < |steps| ==> steps[i].unit != steps[j].unit
  }

  /** In a system whose steps have different units that is any lower step. */
  lemma {:induction false} StepOkIsLower(left: Inst, next: Inst)
    requires left.sys == next.sys && left.step < |left.sys.steps| && next.step < |left.sys.steps|
    requires OneUnitEach(left.sys.steps)
    ensures StepOk(left, next) <==> left.step < next.step
  {
    var u := left.sys.steps;
    assert forall s :: left.step < s < |u| && u[s].unit == u[next.step].unit ==> s == next.step;
    if left.step < next.step { assert u[next.step].unit == next.sys.steps[next.step].unit; }
  }

  predicate Starts(kind: TokType) { kind.NG? || kind.NF? }

  predicate IsCom(t: Tok) { t.kind.NC? || t.kind.GC? }

  predicate IsAss(t: Tok) { t.kind.NA? }

  predicate IsGurWord(t: Tok) { t.kind.GW? }

  /** Tokens kept beside a number and not read as a step of it. */
  predicate IsSide(t: Tok) { IsCom(t) || IsAss(t) || IsGurWord(t) }

  /** A determinative, or the word gur where it stands for one. */
  predicate IsDet(t: Tok) { t.kind.ND? || (t.kind.NW? && t.text == "gur") }

  function Braced(text: string): string {
    if text != "" && text[0] == '{' then text else "{" + text + "}"
  }

  /** A determinative as the code stores it. */
  function DetTok(t: Tok): Tok { Tok(Braced(t.text), ND) }

  predicate HasDet(sys: Sys, t: Tok) { sys.det == Some(Braced(t.text)) }

  /** The first candidates for a token: one for each of its signs. */
  function Start(t: Tok, chain: seq<Inst>): (r: seq<Number>)
    ensures |r| == |chain|
    ensures forall k :: 0 <= k < |chain| ==> r[k] == Number(chain[k].sys, [Sign(t, chain[k])], [], [], [])
  {
    seq(|chain|, k requires 0 <= k < |chain| => Number(chain[k].sys, [Sign(t, chain[k])], [], [], []))
  }

  predicate Fits(c: Number, i: Inst) {
    c.steps != [] && c.sys.name == i.sys.name && StepOk(c.steps[|c.steps| - 1].inst, i)
  }

  /** Index of the first sign of the chain that fits on the end of c. */
  function FirstFit(c: Number, chain: seq<Inst>): (j: nat)
    ensures j <= |chain|
    ensures j < |chain| ==> Fits(c, chain[j])
    ensures forall k :: 0 <= k < j ==> !Fits(c, chain[k])
  {
    if chain == [] || Fits(c, chain[0]) then 0 else 1 + FirstFit(c, chain[1..])
  }

  function ChainOf(reg: Registry, text: string): seq<Inst> {
    if text in reg then reg[text] else []
  }

  /** Candidate c with one more token, if it can take it: beside it, as its determinative, or as a step. */
  function Try(reg: Registry, c: Number, t: Tok): Option<Number> {
    if IsDet(t) then
      if HasDet(c.sys, t) then Some(c.(det := c.det + [DetTok(t)])) else None
    else if IsCom(t) then Some(c.(com := c.com + [t]))
    else if IsAss(t) then Some(c.(ass := c.ass + [t]))
    else if IsGurWord(t) then Some(c.(det := c.det + [t]))
    else
      var chain := ChainOf(reg, t.text);
      var j := FirstFit(c, chain);
      if j < |chain| then Some(c.(steps := c.steps + [Sign(t, chain[j])])) else None
  }

  /** The candidates that can take the token, with it. */
  function Next(reg: Registry, cs: seq<Number>, t: Tok): seq<Number> {
    if cs == [] then []
    else
      var d := Try(reg, cs[|cs| - 1], t);
      Next(reg, cs[..|cs| - 1], t) + if d.Some? then [d.value] else []
  }

  /** Tokens kept beside go to every candidate. */
  lemma {:induction false} SideNext(reg: Registry, cs: seq<Number>, t: Tok)
    requires IsSide(t)
    ensures |Next(reg, cs, t)| == |cs|
    ensures forall k :: 0 <= k < |cs| ==> Try(reg, cs[k], t) == Some(Next(reg, cs, t)[k])
  {
    if cs != [] { SideNext(reg, cs[..|cs| - 1], t); }
  }

  // ---------- Token by token ----------

  /** Results so far, and the candidates of the number being read ([] for none). */
  datatype State = State(entries: seq<Entry>, cands: seq<Number>)

  function Stashed(st: State): State {
    if st.cands == [] then st else State(st.entries + [Num(st.cands)], [])
  }

  function Begin(reg: Registry, st: State, t: Tok): State {
    if t.kind.NN? then st.(entries := st.entries + [Other(t)])
    else if t.kind.NZ? then st
    else if Starts(t.kind) && t.text in reg then st.(cands := Start(t, reg[t.text]))
    else st.(entries := st.entries + [Stray(t)])
  }

  /** Reading one more token. One that no candidate can take ends the number and is read again. */
  function Feed(reg: Registry, st: State, t: Tok): State {
    if st.cands == [] || t.kind.NN? || t.kind.NZ? then Begin(reg, Stashed(st), t)
    else
      var next := Next(reg, st.cands, t);
      if next != [] then st.(cands := next) else Begin(reg, Stashed(st), t)
  }

  function FeedAll(reg: Registry, st: State, ts: seq<Tok>): State {
    if ts == [] then st else Feed(reg, FeedAll(reg, st, ts[..|ts| - 1]), ts[|ts| - 1])
  }

  /** The whole stream read as one. */
  function ReadAll(reg: Registry, ts: seq<Tok>): seq<Entry> {
    Stashed(FeedAll(reg, State([], []), ts)).entries
  }

  // ---------- What a token of each kind does ----------

  /** Places of cs, in order. */
  predicate Places(idx: seq<nat>, cs: seq<Number>) {
    (forall m :: 0 <= m < |idx| ==> idx[m] < |cs|) && forall l, m :: 0 <= l < m < |idx| ==> idx[l] < idx[m]
  }

  /** The candidates that can take a token are left, in order. */
  lemma {:induction false} TakersLeft(reg: Registry, cs: seq<Number>, t: Tok) returns (idx: seq<nat>)
    ensures Places(idx, cs) && |idx| == |Next(reg, cs, t)|
    ensures forall k: nat :: k < |cs| ==> (k in idx <==> Try(reg, cs[k], t).Some?)
    ensures forall m :: 0 <= m < |idx| ==> Try(reg, cs[idx[m]], t) == Some(Next(reg, cs, t)[m])
  {
    hide Try;
    if cs == [] {
      idx := [];
    } else {
      idx := TakersLeft(reg, cs[..|cs| - 1], t);
      if Try(reg, cs[|cs| - 1], t).Some? { idx := idx + [|cs| - 1]; }
    }
  }

  /** A commodity of either kind, an NA token and a gur word go beside every candidate of the number being read,
      and it stays open. */
  lemma {:induction false} TokenBeside(reg: Registry, es: seq<Entry>, cs: seq<Number>, t: Tok)
    requires cs != [] && (t.kind == NC || t.kind == GC || t.kind == NA || t.kind == GW)
    ensures var st := Feed(reg, State(es, cs), t);
            && st.entries == es && |st.cands| == |cs|
            && forall k :: 0 <= k < |cs| ==>
                 var c := cs[k];
                 st.cands[k] == if t.kind == NC || t.kind == GC then c.(com := c.com + [t])
                                else if t.kind == NA then c.(ass := c.ass + [t])
                                else c.(det := c.det + [t])
  {
    hide Next;
    SideNext(reg, cs, t);
  }

  /** A determinative, the word gur being one, is kept, in braces, by the candidates whose system has it; if there
      are none the number ends before it. */
  lemma {:induction false} TokenIsDet(reg: Registry, es: seq<Entry>, cs: seq<Number>, t: Tok, braced: string)
      returns (idx: seq<nat>)
    requires cs != [] && (t.kind == ND || (t.kind == NW && t.text == "gur"))
    requires braced == if t.text != "" && t.text[0] == '{' then t.text else "{" + t.text + "}"
    ensures Places(idx, cs) && forall k: nat :: k < |cs| ==> (k in idx <==> cs[k].sys.det == Some(braced))
    ensures var st := Feed(reg, State(es, cs), t);
            if idx == [] then st == State(es + [Num(cs), Stray(t)], [])
            else
              && st.entries == es && |st.cands| == |idx|
              && forall m :: 0 <= m < |idx| ==>
                   st.cands[m] == cs[idx[m]].(det := cs[idx[m]].det + [Tok(braced, ND)])
  {
    hide Next;
    idx := TakersLeft(reg, cs, t);
  }

  /** Sign i counts a step further down the system in which c is being read. */
  predicate CountsBelow(c: Number, i: Inst) {
    && c.steps != [] && i.sys.name == c.sys.name
    && var last := c.steps[|c.steps| - 1].inst;
    && i.sys.name == last.sys.name && i.step < |i.sys.steps|
    && exists s :: last.step < s < |last.sys.steps| && last.sys.steps[s].unit == i.sys.steps[i.step].unit
  }

  /** d is c with the first of the signs that counts a step below. */
  predicate TakesFirst(c: Number, t: Tok, signs: seq<Inst>, d: Number) {
    exists j ::
      && 0 <= j < |signs| && CountsBelow(c, signs[j]) && d == c.(steps := c.steps + [Sign(t, signs[j])])
      && forall i :: 0 <= i < j ==> !CountsBelow(c, signs[i])
  }

  /** Any other token is a step for the candidates that have a sign of it below their last, which get the first such
      sign. If there are none the number ends, and the token is met with no number open. */
  lemma {:induction false} TokenIsStep(reg: Registry, es: seq<Entry>, cs: seq<Number>, t: Tok, signs: seq<Inst>)
      returns (idx: seq<nat>)
    requires cs != [] && t.kind in {NG, NF, NB, NW, NV, NE, NO} && (t.kind == NW ==> t.text != "gur")
    requires signs == if t.text in reg then reg[t.text] else []
    ensures Places(idx, cs)
    ensures forall k: nat :: k < |cs| ==> (k in idx <==> exists j :: 0 <= j < |signs| && CountsBelow(cs[k], signs[j]))
    ensures var st := Feed(reg, State(es, cs), t);
            if idx == [] then st == Feed(reg, State(es + [Num(cs)], []), t)
            else
              && st.entries == es && |st.cands| == |idx|
              && forall m :: 0 <= m < |idx| ==> TakesFirst(cs[idx[m]], t, signs, st.cands[m])
  {
    hide Next, FirstFit, Fits, CountsBelow;
    idx := TakersLeft(reg, cs, t);
    forall c, i ensures Fits(c, i) <==> CountsBelow(c, i) { FitsBelow(c, i); }
    forall k: nat | k < |cs| ensures k in idx <==> exists j :: 0 <= j < |signs| && CountsBelow(cs[k], signs[j]) {
      assert Try(reg, cs[k], t).Some? <==> FirstFit(cs[k], signs) < |signs|;
    }
    forall m | 0 <= m < |idx| ensures TakesFirst(cs[idx[m]], t, signs, Next(reg, cs, t)[m]) {
      var j := FirstFit(cs[idx[m]], signs);
      assert idx[m] in idx && CountsBelow(cs[idx[m]], signs[j]);
    }
  }

  lemma {:induction false} FitsBelow(c: Number, i: Inst)
    ensures Fits(c, i) <==> CountsBelow(c, i)
  {
  }

  /** Met with no number open, a token that has signs starts one if it is of type NG or NF; a plain word and any
      other token is a result of its own, but for one of type NZ. */
  lemma {:induction false} TokenAlone(reg: Registry, es: seq<Entry>, t: Tok)
    ensures var st := Feed(reg, State(es, []), t);
            if (t.kind == NG || t.kind == NF) && t.text in reg then
              && st.entries == es && |st.cands| == |reg[t.text]|
              && forall k :: 0 <= k < |st.cands| ==>
                   var i := reg[t.text][k];
                   st.cands[k] == Number(i.sys, [Sign(t, i)], [], [], [])
            else
              st == State(es + if t.kind == NN then [Other(t)] else if t.kind == NZ then [] else [Stray(t)], [])
  {
  }

  /** A plain word and an NZ token end the number. */
  lemma {:induction false} TokenEnds(reg: Registry, es: seq<Entry>, cs: seq<Number>, t: Tok)
    requires cs != [] && (t.kind == NN || t.kind == NZ)
    ensures Feed(reg, State(es, cs), t) == State(es + [Num(cs)] + if t.kind == NN then [Other(t)] else [], [])
  {
  }

  // ---------- Where the reading goes on otherwise ----------

  predicate IsC(i: Inst) { i.sys.name != [] && i.sys.name[0] == 'C' }

  predicate IsS(sys: Sys, axis: char) { |sys.name| > 1 && sys.name[0] == 'S' && sys.name[1] == axis }

  /** The last result is a number that can be read in the S system with that axis. */
  predicate EndsInS(es: seq<Entry>, axis: char) {
    es != [] && es[|es| - 1].Num? && exists c :: c in es[|es| - 1].cands && IsS(c.sys, axis)
  }

  /** A token met with no number open that would be joined with the number before it: by nxp_implicit_gur a sign
      of a C system, by nxp_merge_unit a unit word with an axis. */
  predicate Merges(reg: Registry, es: seq<Entry>, t: Tok) {
    t.text in reg && reg[t.text] != [] &&
    var head := reg[t.text][0];
    || (Starts(t.kind) && IsC(head) && EndsInS(es, 'a'))
    || (t.kind.NW? && head.axis.Some? && EndsInS(es, head.axis.value))
  }

  /** A token that would disturb a determinative already taken: another one replaces it, and a gur word is
      hung on the node that all candidates share. */
  predicate Disturbs(cs: seq<Number>, t: Tok) {
    || (IsDet(t) && exists k :: 0 <= k < |cs| && HasDet(cs[k].sys, t) && cs[k].det != [])
    || (IsGurWord(t) && |cs| > 1 && exists k, i :: 0 <= k < |cs| && 0 <= i < |cs[k].det| && cs[k].det[i].kind.ND?)
  }

  /** The token is read as Feed has it: the code's reading of it goes no other way. */
  predicate Clear(reg: Registry, st: State, t: Tok) {
    t.kind.NN? ||
    (&& !Disturbs(st.cands, t)
     && (st.cands == [] || (!t.kind.NZ? && Next(reg, st.cands, t) == []) ==> !Merges(reg, Stashed(st).entries, t)))
  }

  // ---------- What a number is ----------

  /** The candidates left after a word of tokens, read from its first. */
  function Survivors(reg: Registry, w: seq<Tok>): seq<Number> {
    if w == [] then []
    else
      var t := w[|w| - 1];
      if |w| == 1 then Start(t, ChainOf(reg, t.text)) else Next(reg, Survivors(reg, w[..|w| - 1]), t)
  }

  function Insts(c: Number): seq<Inst> { seq(|c.steps|, k requires 0 <= k < |c.steps| => c.steps[k].inst) }

  function Toks(c: Number): seq<Tok> { seq(|c.steps|, k requires 0 <= k < |c.steps| => c.steps[k].tok) }

  predicate IsStep(t: Tok) { !IsSide(t) && !IsDet(t) }

  /** The first token of a word and the later ones that are read as steps. */
  function SignToks(w: seq<Tok>): seq<Tok> {
    if w == [] then []
    else if |w| == 1 then w
    else SignToks(w[..|w| - 1]) + if IsStep(w[|w| - 1]) then [w[|w| - 1]] else []
  }

  function SideToks(w: seq<Tok>, side: Tok -> bool): seq<Tok> {
    if |w| <= 1 then []
    else SideToks(w[..|w| - 1], side) + if side(w[|w| - 1]) then [w[|w| - 1]] else []
  }

  /** The determinatives, in braces, and gur words of a word. */
  function DetToks(w: seq<Tok>): seq<Tok> {
    if |w| <= 1 then []
    else
      var t := w[|w| - 1];
      DetToks(w[..|w| - 1]) + if IsDet(t) then [DetTok(t)] else if IsGurWord(t) then [t] else []
  }

  /** The system has the determinatives of the word. */
  predicate DetsFit(sys: Sys, w: seq<Tok>) {
    forall k :: 0 < k < |w| && IsDet(w[k]) ==> HasDet(sys, w[k])
  }

  /** rd reads the tokens: each by one of its signs, strictly down the steps of one system. */
  predicate IsReading(reg: Registry, ts: seq<Tok>, rd: seq<Inst>) {
    && |rd| == |ts|
    && (forall k :: 0 <= k < |ts| ==> rd[k] in ChainOf(reg, ts[k].text))
    && forall k :: 0 < k < |rd| ==> StepOk(rd[k - 1], rd[k])
  }

  /** A candidate that takes a token comes from one that could. */
  lemma {:induction false} NextFrom(reg: Registry, cs: seq<Number>, t: Tok, c: Number) returns (d: Number)
    requires c in Next(reg, cs, t)
    ensures d in cs && Try(reg, d, t) == Some(c)
  {
    hide Try;
    var last := cs[|cs| - 1];
    if Try(reg, last, t) == Some(c) {
      d := last;
    } else {
      d := NextFrom(reg, cs[..|cs| - 1], t, c);
    }
  }

  lemma {:induction false} NextHas(reg: Registry, cs: seq<Number>, t: Tok, d: Number)
    requires d in cs && Try(reg, d, t).Some?
    ensures Try(reg, d, t).value in Next(reg, cs, t)
  {
    hide Try;
    var last := cs[|cs| - 1];
    if d != last {
      assert d in cs[..|cs| - 1];
      NextHas(reg, cs[..|cs| - 1], t, d);
    }
  }

  /** The last token of a word with more than one. */
  lemma {:induction false} SurvivorFrom(reg: Registry, w: seq<Tok>, c: Number) returns (d: Number)
    requires |w| > 1 && c in Survivors(reg, w)
    ensures d in Survivors(reg, w[..|w| - 1]) && Try(reg, d, w[|w| - 1]) == Some(c)
  {
    hide Next, Try;
    d := NextFrom(reg, Survivors(reg, w[..|w| - 1]), w[|w| - 1], c);
  }

  /** What taking a token does to the lists of a candidate. */
  lemma {:induction false} TryLists(reg: Registry, d: Number, t: Tok, c: Number)
    requires Try(reg, d, t) == Some(c)
    ensures Toks(c) == Toks(d) + if IsStep(t) then [t] else []
    ensures c.com == d.com + if IsCom(t) then [t] else []
    ensures c.ass == d.ass + if IsAss(t) then [t] else []
    ensures c.det == d.det + if IsDet(t) then [DetTok(t)] else if IsGurWord(t) then [t] else []
    ensures c.sys == d.sys && d.steps <= c.steps
  {
    hide FirstFit;
  }

  /** All candidates spell the tokens of the word. */
  lemma {:induction false} SurvivorsSpell(reg: Registry, w: seq<Tok>, c: Number)
    requires c in Survivors(reg, w)
    ensures Toks(c) == SignToks(w) && c.steps != []
    ensures c.com == SideToks(w, IsCom)
    ensures c.ass == SideToks(w, IsAss)
    ensures c.det == DetToks(w)
    decreases |w|
  {
    if |w| > 1 {
      hide Survivors, Try, Toks;
      var d := SurvivorFrom(reg, w, c);
      SurvivorsSpell(reg, w[..|w| - 1], d);
      TryLists(reg, d, w[|w| - 1], c);
    } else {
      assert Toks(c) == w;
    }
  }

  /** A reading of one more token. */
  lemma {:induction false} ReadOneMore(reg: Registry, ts: seq<Tok>, rd: seq<Inst>, t: Tok, i: Inst)
    requires rd != [] && |rd| == |ts|
    ensures IsReading(reg, ts + [t], rd + [i]) <==>
            IsReading(reg, ts, rd) && i in ChainOf(reg, t.text) && StepOk(rd[|rd| - 1], i)
  {
    hide ChainOf, StepOk;
    var us, r := ts + [t], rd + [i];
    if IsReading(reg, us, r) {
      forall k | 0 <= k < |ts| ensures rd[k] in ChainOf(reg, ts[k].text) { assert r[k] in ChainOf(reg, us[k].text); }
      forall k | 0 < k < |rd| ensures StepOk(rd[k - 1], rd[k]) { assert StepOk(r[k - 1], r[k]); }
      assert r[|rd|] in ChainOf(reg, us[|rd|].text) && StepOk(r[|rd| - 1], r[|rd|]);
    }
  }

  /** Taking a step adds a sign of the token that fits, taking another token none. */
  lemma {:induction false} TryInsts(reg: Registry, d: Number, t: Tok, c: Number) returns (i: Inst)
    requires Try(reg, d, t) == Some(c) && d.steps != []
    ensures c.steps != [] && c.steps[0] == d.steps[0] && c.sys == d.sys
    ensures if IsStep(t) then Insts(c) == Insts(d) + [i] && i in ChainOf(reg, t.text) &&
            StepOk(Insts(d)[|d.steps| - 1], i)
            else Insts(c) == Insts(d)
    ensures IsDet(t) ==> HasDet(d.sys, t)
  {
    hide StepOk;
    if IsStep(t) {
      i := ChainOf(reg, t.text)[FirstFit(d, ChainOf(reg, t.text))];
    } else {
      i := d.steps[0].inst;
    }
  }

  lemma {:induction false} DetsFitMore(sys: Sys, w: seq<Tok>)
    requires |w| > 1 && DetsFit(sys, w[..|w| - 1]) && (IsDet(w[|w| - 1]) ==> HasDet(sys, w[|w| - 1]))
    ensures DetsFit(sys, w)
  {
    hide HasDet;
    var v := w[..|w| - 1];
    forall k | 0 < k < |w| && IsDet(w[k]) ensures HasDet(sys, w[k]) {
      if k < |v| { assert v[k] == w[k]; }
    }
  }

  lemma {:induction false} SignToksMore(w: seq<Tok>)
    requires |w| > 1
    ensures SignToks(w) == SignToks(w[..|w| - 1]) + if IsStep(w[|w| - 1]) then [w[|w| - 1]] else []
  {
  }

  /** What a candidate left over is: a reading, in the system of its first sign. */
  predicate ReadsWord(reg: Registry, w: seq<Tok>, c: Number) {
    && c.steps != [] && c.sys == c.steps[0].inst.sys && |Insts(c)| == |SignToks(w)|
    && IsReading(reg, SignToks(w), Insts(c)) && DetsFit(c.sys, w)
  }

  lemma {:induction false} ReadsMore(reg: Registry, w: seq<Tok>, d: Number, c: Number)
    requires |w| > 1 && ReadsWord(reg, w[..|w| - 1], d) && Try(reg, d, w[|w| - 1]) == Some(c)
    ensures ReadsWord(reg, w, c)
  {
    hide Try, IsReading, StepOk, ChainOf, DetsFit, SignToks, IsStep, IsDet;
    var v, t := w[..|w| - 1], w[|w| - 1];
    var i := TryInsts(reg, d, t, c);
    SignToksMore(w);
    DetsFitMore(c.sys, w);
    if IsStep(t) {
      ReadOneMore(reg, SignToks(v), Insts(d), t, i);
    } else {
      assert SignToks(w) == SignToks(v);
    }
  }

  /** Every surviving candidate is a reading of its word, in the system of its first sign. */
  lemma {:induction false} SurvivorsRead(reg: Registry, w: seq<Tok>, c: Number)
    requires c in Survivors(reg, w)
    ensures ReadsWord(reg, w, c)
    decreases |w|
  {
    if |w| > 1 {
      hide Survivors, Try, ReadsWord;
      var d := SurvivorFrom(reg, w, c);
      SurvivorsRead(reg, w[..|w| - 1], d);
      ReadsMore(reg, w, d, c);
    } else {
      assert Insts(c) == [c.steps[0].inst];
    }
  }

  /** Signs of different systems. */
  predicate Apart(chain: seq<Inst>) {
    forall i, j :: 0 <= i < j < |chain| ==> chain[i].sys.name != chain[j].sys.name
  }

  /** One sign per system for each of the tokens. */
  predicate OneEach(reg: Registry, ts: seq<Tok>) {
    forall t :: t in ts ==> Apart(ChainOf(reg, t.text))
  }

  lemma {:induction false} OneName(reg: Registry, ts: seq<Tok>, rd: seq<Inst>, k: nat)
    requires IsReading(reg, ts, rd) && k < |rd|
    ensures rd[k].sys.name == rd[0].sys.name
  {
    if k > 0 { OneName(reg, ts, rd, k - 1); }
  }

  /** The sign a reading goes on with is the one the code picks. */
  lemma {:induction false} OnlyFit(reg: Registry, text: string, d: Number, i: Inst)
    requires Apart(ChainOf(reg, text)) && i in ChainOf(reg, text) && Fits(d, i)
    ensures var j := FirstFit(d, ChainOf(reg, text)); j < |ChainOf(reg, text)| && ChainOf(reg, text)[j] == i
  {
    var chain := ChainOf(reg, text);
    var k :| 0 <= k < |chain| && chain[k] == i;
    var j := FirstFit(d, chain);
    assert chain[j].sys.name == chain[k].sys.name;
  }

  /** With one sign per system for each of its texts every reading of the word, in a system with its
      determinatives, survives. */
  lemma {:induction false} ReadingsSurvive(reg: Registry, w: seq<Tok>, rd: seq<Inst>) returns (c: Number)
    requires OneEach(reg, SignToks(w)) && w != [] && rd != [] && IsReading(reg, SignToks(w), rd) &&
             DetsFit(rd[0].sys, w)
    ensures c in Survivors(reg, w) && Insts(c) == rd
    decreases |w|
  {
    var t := w[|w| - 1];
    if |w| == 1 {
      var chain := ChainOf(reg, t.text);
      assert rd[0] in ChainOf(reg, w[0].text);
      var k :| 0 <= k < |chain| && chain[k] == rd[0];
      c := Start(t, chain)[k];
      assert Insts(c) == rd;
    } else {
      hide Survivors, Try, Next, StepOk, IsReading, HasDet, Apart, SignToks;
      var v := w[..|w| - 1];
      assert forall k :: 0 < k < |v| ==> v[k] == w[k];
      SignToksMore(w);
      if IsStep(t) {
        assert SignToks(w)[|SignToks(w)| - 1] == t;
        var n := LastSign(reg, v, t, rd);
        var d := ReadingsSurvive(reg, v, rd[..n]);
        c := GoOn(reg, v, t, d, rd[n]);
      } else {
        var d := ReadingsSurvive(reg, v, rd);
        c := TakeBeside(reg, v, t, d);
      }
      OneMoreTok(reg, w);
    }
  }

  lemma {:induction false} OneMoreTok(reg: Registry, w: seq<Tok>)
    requires |w| > 1
    ensures Survivors(reg, w) == Next(reg, Survivors(reg, w[..|w| - 1]), w[|w| - 1])
  {
    hide Next;
  }

  /** A candidate takes a token that is no step, a determinative if its system has it. */
  lemma {:induction false} TakeBeside(reg: Registry, v: seq<Tok>, t: Tok, d: Number) returns (c: Number)
    requires d in Survivors(reg, v) && !IsStep(t) && d.steps != [] && (IsDet(t) ==> HasDet(Insts(d)[0].sys, t))
    ensures c in Next(reg, Survivors(reg, v), t) && Insts(c) == Insts(d)
  {
    hide Survivors, Next;
    SurvivorsRead(reg, v, d);
    assert Try(reg, d, t).Some?;
    NextHas(reg, Survivors(reg, v), t, d);
    c := Try(reg, d, t).value;
    assert Insts(c) == Insts(d);
  }

  lemma {:induction false} LastSign(reg: Registry, v: seq<Tok>, t: Tok, rd: seq<Inst>) returns (n: nat)
    requires v != [] && IsReading(reg, SignToks(v) + [t], rd)
    ensures 0 < n == |rd| - 1 && rd == rd[..n] + [rd[n]]
    ensures IsReading(reg, SignToks(v), rd[..n]) && rd[n] in ChainOf(reg, t.text) && StepOk(rd[..n][n - 1], rd[n])
  {
    SignToksNonEmpty(v);
    n := |rd| - 1;
    assert rd == rd[..n] + [rd[n]];
    ReadOneMore(reg, SignToks(v), rd[..n], t, rd[n]);
  }

  /** A candidate that reads all but the last token goes on with the last sign. */
  lemma {:induction false} GoOn(reg: Registry, v: seq<Tok>, t: Tok, d: Number, i: Inst) returns (c: Number)
    requires Apart(ChainOf(reg, t.text)) && d in Survivors(reg, v) && i in ChainOf(reg, t.text) && IsStep(t)
    requires Insts(d) != [] && StepOk(Insts(d)[|Insts(d)| - 1], i)
    ensures c in Next(reg, Survivors(reg, v), t) && Insts(c) == Insts(d) + [i]
  {
    hide Survivors, Next, StepOk, FirstFit, Apart;
    LastFits(reg, v, d, i);
    OnlyFit(reg, t.text, d, i);
    NextHas(reg, Survivors(reg, v), t, d);
    c := Try(reg, d, t).value;
    assert Insts(c) == Insts(d) + [i];
  }

  lemma {:induction false} LastFits(reg: Registry, v: seq<Tok>, d: Number, i: Inst)
    requires d in Survivors(reg, v) && Insts(d) != [] && StepOk(Insts(d)[|Insts(d)| - 1], i)
    ensures Fits(d, i)
  {
    hide Survivors, SignToks;
    var rd := Insts(d);
    SurvivorsRead(reg, v, d);
    OneName(reg, SignToks(v), rd, |rd| - 1);
    assert rd[0] == d.steps[0].inst && rd[|rd| - 1] == d.steps[|rd| - 1].inst;
  }

  lemma {:induction false} SignToksNonEmpty(w: seq<Tok>)
    requires w != []
    ensures SignToks(w) != []
  {
    if |w| > 1 { SignToksNonEmpty(w[..|w| - 1]); }
  }

  /** So the candidates left are exactly the readings of the word in systems with its determinatives. */
  lemma {:induction false} SurvivorsAreReadings(reg: Registry, w: seq<Tok>, rd: seq<Inst>)
    requires OneEach(reg, SignToks(w)) && w != [] && rd != []
    ensures IsReading(reg, SignToks(w), rd) && DetsFit(rd[0].sys, w) <==>
            exists c :: c in Survivors(reg, w) && Insts(c) == rd
  {
    hide Survivors, IsReading, DetsFit, OneEach;
    if IsReading(reg, SignToks(w), rd) && DetsFit(rd[0].sys, w) {
      var c := ReadingsSurvive(reg, w, rd);
    }
    if exists c :: c in Survivors(reg, w) && Insts(c) == rd {
      var c :| c in Survivors(reg, w) && Insts(c) == rd;
      SurvivorsRead(reg, w, c);
    }
  }

  // ---------- Registry order ----------

  function Heads(cs: seq<Number>): (r: seq<Inst>)
    requires AllStarted(cs)
    ensures |r| == |cs| && forall k :: 0 <= k < |cs| ==> r[k] == cs[k].steps[0].inst
  {
    seq(|cs|, k requires 0 <= k < |cs| => cs[k].steps[0].inst)
  }

  predicate AllStarted(cs: seq<Number>) { forall c :: c in cs ==> c.steps != [] }

  /** idx picks a out of b, in order. */
  ghost predicate Picks<T>(idx: seq<int>, a: seq<T>, b: seq<T>) {
    && |idx| == |a|
    && (forall k :: 0 <= k < |a| ==> 0 <= idx[k] < |b| && b[idx[k]] == a[k])
    && forall j, k :: 0 <= j < k < |idx| ==> idx[j] < idx[k]
  }

  /** a is b with some elements left out. */
  ghost predicate Within<T>(a: seq<T>, b: seq<T>) {
    exists idx :: Picks(idx, a, b)
  }

  lemma {:induction false} WithinTrans<T>(a: seq<T>, b: seq<T>, c: seq<T>)
    requires Within(a, b) && Within(b, c)
    ensures Within(a, c)
  {
    var p :| Picks(p, a, b);
    var q :| Picks(q, b, c);
    var r := seq(|p|, k requires 0 <= k < |p| => q[p[k]]);
    assert Picks(r, a, c);
  }

  lemma {:induction false} WithinSelf<T>(a: seq<T>)
    ensures Within(a, a)
  {
    var p := seq(|a|, k requires 0 <= k < |a| => k);
    assert Picks(p, a, a);
  }

  lemma {:induction false} WithinMore<T>(a: seq<T>, b: seq<T>, x: T)
    requires Within(a, b)
    ensures Within(a, b + [x]) && Within(a + [x], b + [x])
  {
    var p :| Picks(p, a, b);
    assert Picks(p, a, b + [x]);
    assert Picks(p + [|b|], a + [x], b + [x]);
  }

  lemma {:induction false} HeadsMore(cs: seq<Number>, c: Number)
    requires AllStarted(cs) && c.steps != []
    ensures AllStarted(cs + [c]) && Heads(cs + [c]) == Heads(cs) + [c.steps[0].inst]
  {
  }

  lemma {:induction false} NextKeepsOrder(reg: Registry, cs: seq<Number>, t: Tok)
    requires AllStarted(cs)
    ensures AllStarted(Next(reg, cs, t)) && Within(Heads(Next(reg, cs, t)), Heads(cs))
  {
    hide Heads, Within, Try;
    if cs == [] {
      WithinSelf(Heads(cs));
    } else {
      hide AllStarted;
      var front, c := cs[..|cs| - 1], cs[|cs| - 1];
      FrontStarted(cs);
      NextKeepsOrder(reg, front, t);
      HeadsMore(front, c);
      assert cs == front + [c];
      var d := Try(reg, c, t);
      if d.Some? {
        var i := TryInsts(reg, c, t, d.value);
        HeadsMore(Next(reg, front, t), d.value);
      } else {
        assert Next(reg, cs, t) == Next(reg, front, t);
      }
      WithinMore(Heads(Next(reg, front, t)), Heads(front), c.steps[0].inst);
    }
  }

  lemma {:induction false} FrontStarted(cs: seq<Number>)
    requires AllStarted(cs) && cs != []
    ensures AllStarted(cs[..|cs| - 1]) && cs[|cs| - 1].steps != []
  {
  }

  lemma {:induction false} StartInOrder(reg: Registry, t: Tok)
    ensures var cs := Start(t, ChainOf(reg, t.text)); AllStarted(cs) && Heads(cs) == ChainOf(reg, t.text)
  {
  }

  /** The candidates stay in the order in which their first signs are registered. */
  lemma {:induction false} SurvivorsInOrder(reg: Registry, w: seq<Tok>)
    requires w != []
    ensures AllStarted(Survivors(reg, w))
    ensures Within(Heads(Survivors(reg, w)), ChainOf(reg, w[0].text))
    decreases |w|
  {
    hide Survivors, Next, Heads, Within, AllStarted, ChainOf, Start;
    var t := w[|w| - 1];
    if |w| == 1 {
      FirstSurvivors(reg, w);
      StartInOrder(reg, t);
      WithinSelf(ChainOf(reg, t.text));
    } else {
      var cs := Survivors(reg, w[..|w| - 1]);
      SurvivorsInOrder(reg, w[..|w| - 1]);
      OneMoreTok(reg, w);
      NextKeepsOrder(reg, cs, t);
      WithinTrans(Heads(Next(reg, cs, t)), Heads(cs), ChainOf(reg, w[0].text));
    }
  }

  lemma {:induction false} FirstSurvivors(reg: Registry, w: seq<Tok>)
    requires |w| == 1
    ensures Survivors(reg, w) == Start(w[0], ChainOf(reg, w[0].text))
  {
  }
}
