/** nx_parse: runs of number tokens found in a stream, each read by nxp_numbers, the rest passed through. */
module NumberStream {
  import opened NumberReading
  import opened NumberSegments
  import opened NumberParser

  /** The lookup tables of token types, consulted in this order. */
  datatype Tables = Tables(nxt: map<string, TokType>, gc: map<string, TokType>, nc: map<string, TokType>,
      na: map<string, TokType>)

  /** nxp_tok_type. */
  function TypeOf(tabs: Tables, t: string): TokType {
    if t in tabs.nxt then tabs.nxt[t]
    else if t in tabs.gc then tabs.gc[t]
    else if t in tabs.nc then tabs.nc[t]
    else if t in tabs.na then tabs.na[t]
    else NN
  }

  /** The first of the four tables that has a token tells its type; a token in none of them is a plain word. */
  lemma {:induction false} FirstTableTells(tabs: Tables, t: string, tables: seq<map<string, TokType>>, k: nat)
    requires tables == [tabs.nxt, tabs.gc, tabs.nc, tabs.na] && k <= 4
    requires (k < 4 ==> t in tables[k]) && forall j :: 0 <= j < k ==> t !in tables[j]
    ensures TypeOf(tabs, t) == if k < 4 then tables[k][t] else NN
  {
    assert tables[0] == tabs.nxt && tables[1] == tabs.gc && tables[2] == tabs.nc && tables[3] == tabs.na;
  }

  function Typed(tabs: Tables, toks: seq<string>): (ts: seq<Tok>)
    ensures |ts| == |toks| && forall k :: 0 <= k < |toks| ==> ts[k] == Tok(toks[k], TypeOf(tabs, toks[k]))
  {
    seq(|toks|, k requires 0 <= k < |toks| => Tok(toks[k], TypeOf(tabs, toks[k])))
  }

  // ---------- Where the outer loop goes ----------

  /** The first token from here on that is not a plain word; the end if there is none. */
  function NextAt(ts: seq<Tok>, from: nat): (n: nat)
    requires from <= |ts|
    ensures from <= n <= |ts| && (forall k :: from <= k < n ==> ts[k].kind.NN?) && (n < |ts| ==> !ts[n].kind.NN?)
    decreases |ts| - from
  {
    if from == |ts| || !ts[from].kind.NN? then from else NextAt(ts, from + 1)
  }

  /** The first token from here on that ends a run of numbers; the end if there is none. */
  function StopAt(ts: seq<Tok>, from: nat): (n: nat)
    requires from <= |ts|
    ensures from <= n <= |ts| && (forall k :: from <= k < n ==> !Stops(ts[k])) && (n < |ts| ==> Stops(ts[n]))
    decreases |ts| - from
  {
    if from == |ts| || Stops(ts[from]) then from else StopAt(ts, from + 1)
  }

  /** Where nxp_last_num puts the end of the run; a stop at the very beginning counts as part of it. */
  function AfterLast(ts: seq<Tok>, from: nat): (n: nat)
    requires from < |ts|
    ensures n <= |ts|
  {
    var s := StopAt(ts, from);
    if s == 0 then 1 else s
  }

  /** One turn of nx_parse's loop, as far as its position goes. */
  function Advance(ts: seq<Tok>, start: nat): (n: nat)
    requires start <= |ts|
    ensures n <= |ts|
  {
    var next := NextAt(ts, start);
    if next == |ts| then |ts| else AfterLast(ts, next)
  }

  function After(ts: seq<Tok>, turns: nat): (n: nat)
    ensures n <= |ts|
  {
    if turns == 0 then 0 else Advance(ts, After(ts, turns - 1))
  }

  /** No NZ token after the first position. */
  predicate NoLaterNZ(ts: seq<Tok>) {
    forall k :: 1 <= k < |ts| ==> !ts[k].kind.NZ?
  }

  /** A run of numbers: it is not empty, and there is no plain word in it. */
  lemma {:induction false} RunOf(ts: seq<Tok>, a: nat)
    requires a < |ts| && !ts[a].kind.NN? && NoLaterNZ(ts)
    ensures a < AfterLast(ts, a) && forall k :: a <= k < AfterLast(ts, a) ==> !ts[k].kind.NN?
  {
  }

  lemma {:induction false} Moves(ts: seq<Tok>, start: nat)
    requires NoLaterNZ(ts) && start < |ts|
    ensures Advance(ts, start) > start
  {
    var next := NextAt(ts, start);
    if next < |ts| { assert StopAt(ts, next) == 0 || StopAt(ts, next) > next; }
  }

  lemma {:induction false} MovesOn(ts: seq<Tok>, turns: nat)
    requires NoLaterNZ(ts)
    ensures After(ts, turns) >= turns || After(ts, turns) == |ts|
  {
    if turns > 0 {
      MovesOn(ts, turns - 1);
      if After(ts, turns - 1) < |ts| { Moves(ts, After(ts, turns - 1)); }
    }
  }

  /** The loop never gets past an NZ token. */
  lemma {:induction false} HeldBack(ts: seq<Tok>, z: nat, turns: nat)
    requires 1 <= z < |ts| && ts[z].kind.NZ?
    ensures After(ts, turns) <= z
  {
    if turns > 0 {
      HeldBack(ts, z, turns - 1);
      var next := NextAt(ts, After(ts, turns - 1));
      assert next <= z && StopAt(ts, next) <= z;
    }
  }

  /** nx_parse comes to the end of the stream exactly if no NZ token stands after its first position. */
  lemma {:induction false} EndsIffNoLaterNZ(ts: seq<Tok>)
    ensures (exists turns: nat :: After(ts, turns) == |ts|) <==> NoLaterNZ(ts)
  {
    if NoLaterNZ(ts) {
      MovesOn(ts, |ts|);
    } else {
      var z :| 1 <= z < |ts| && ts[z].kind.NZ?;
      forall turns: nat ensures After(ts, turns) != |ts| { HeldBack(ts, z, turns); }
    }
  }

  /** A word and an NZ token after it: the loop stays where it is. */
  lemma {:induction false} NeverEnds(word: string, zero: string, turns: nat)
    ensures After([Tok(word, NN), Tok(zero, NZ)], turns) <= 1
  {
    HeldBack([Tok(word, NN), Tok(zero, NZ)], 1, turns);
  }

  // ---------- The methods ----------

  /** nxp_next_num. */
  method NextNum(tabs: Tables, toks: seq<string>, n: array<TokType>, start: nat) returns (r: int)
    requires start <= |toks| == n.Length
    modifies n
    ensures var next := NextAt(Typed(tabs, toks), start);
            && (if next < |toks| then r == next && n[next] == TypeOf(tabs, toks[next]) else r == -1)
            && forall k :: start <= k < next ==> n[k] == TypeOf(tabs, toks[k])
  {
    ghost var ts := Typed(tabs, toks);
    var from := start;
    while from < |toks|
      invariant start <= from <= |toks| && NextAt(ts, from) == NextAt(ts, start)
      invariant forall k :: start <= k < from ==> n[k] == TypeOf(tabs, toks[k])
    {
      n[from] := TypeOf(tabs, toks[from]);
      if !n[from].NN? { return from; }
      from := from + 1;
    }
    return -1;
  }

  /** nxp_last_num. */
  method LastNum(tabs: Tables, toks: seq<string>, n: array<TokType>, start: nat) returns (r: int)
    requires start < |toks| == n.Length
    modifies n
    ensures r + 1 == AfterLast(Typed(tabs, toks), start)
    ensures forall k :: start <= k <= r ==> n[k] == TypeOf(tabs, toks[k])
  {
    ghost var ts := Typed(tabs, toks);
    var from := start;
    while from < |toks|
      invariant start <= from <= |toks| && StopAt(ts, from) == StopAt(ts, start)
      invariant forall k :: start <= k < from ==> n[k] == TypeOf(tabs, toks[k])
    {
      n[from] := TypeOf(tabs, toks[from]);
      if n[from].NN? || n[from].NZ? {
        return if from > 0 then from - 1 else 0;
      }
      from := from + 1;
    }
    return from - 1;
  }

  /** nxp_nonnums. */
  method NonNums(p: Parser, toks: seq<string>, start: nat, to: nat, ghost ts: seq<Tok>)
    requires p.Valid() && start <= to <= |toks| == |ts|
    requires forall k :: start <= k < to ==> ts[k] == Tok(toks[k], NN)
    modifies p`results, p`entries
    ensures p.Valid() && State(p.entries, []) == FeedFrom(p.reg, State(old(p.entries), []), ts[start..to])
  {
    hide Feed, FeedFrom;
    var from := start;
    ghost var goal := FeedFrom(p.reg, State(p.entries, []), ts[start..to]);
    while from < to
      invariant start <= from <= to && p.Valid()
      invariant FeedFrom(p.reg, State(p.entries, []), ts[from..to]) == goal
    {
      FeedNext(p.reg, State(p.entries, []), ts, from, to);
      FeedWord(p.reg, p.entries, ts[from]);
      p.AddPlain(Tok(toks[from], NN), false);
      from := from + 1;
    }
    FeedNone(p.reg, State(p.entries, []), ts, to);
  }

  lemma {:induction false} FeedWord(reg: Registry, es: seq<Entry>, t: Tok)
    requires t.kind.NN?
    ensures Feed(reg, State(es, []), t) == State(es + [Other(t)], [])
  {
  }

  // ---------- Runs put together are the whole stream ----------

  lemma {:induction false} FeedSplit(reg: Registry, st: State, ts: seq<Tok>, a: nat, b: nat, c: nat)
    requires a <= b <= c <= |ts|
    ensures FeedFrom(reg, st, ts[a..c]) == FeedFrom(reg, FeedFrom(reg, st, ts[a..b]), ts[b..c])
    decreases b - a
  {
    hide Feed, FeedFrom;
    if a == b {
      FeedNone(reg, st, ts, a);
    } else {
      FeedNext(reg, st, ts, a, c);
      FeedNext(reg, st, ts, a, b);
      FeedSplit(reg, Feed(reg, st, ts[a]), ts, a + 1, b, c);
    }
  }

  lemma {:induction false} FeedOneMore(reg: Registry, st: State, ts: seq<Tok>)
    requires ts != []
    ensures FeedFrom(reg, st, ts) == Feed(reg, FeedFrom(reg, st, ts[..|ts| - 1]), ts[|ts| - 1])
  {
    hide Feed, FeedFrom;
    var n := |ts|;
    FeedSplit(reg, st, ts, 0, n - 1, n);
    assert ts[0..n] == ts && ts[0..n - 1] == ts[..n - 1];
    FeedNext(reg, FeedFrom(reg, st, ts[..n - 1]), ts, n - 1, n);
    FeedNone(reg, Feed(reg, FeedFrom(reg, st, ts[..n - 1]), ts[n - 1]), ts, n);
  }

  lemma {:induction false} FrontIsBack(reg: Registry, st: State, ts: seq<Tok>)
    ensures FeedFrom(reg, st, ts) == FeedAll(reg, st, ts)
    decreases |ts|
  {
    hide Feed;
    if ts != [] {
      FeedOneMore(reg, st, ts);
      FrontIsBack(reg, st, ts[..|ts| - 1]);
    }
  }

  lemma {:induction false} ClearSplit(reg: Registry, st: State, ts: seq<Tok>, a: nat, b: nat, c: nat)
    requires a <= b <= c <= |ts|
    ensures ClearFrom(reg, st, ts[a..c]) <==>
            ClearFrom(reg, st, ts[a..b]) && ClearFrom(reg, FeedFrom(reg, st, ts[a..b]), ts[b..c])
    decreases b - a
  {
    if a == b {
      FeedNone(reg, st, ts, a);
      assert ts[a..a] == [];
    } else {
      hide Feed, FeedFrom, Clear, ClearFrom;
      ClearNext(reg, st, ts, a, c);
      ClearNext(reg, st, ts, a, b);
      FeedNext(reg, st, ts, a, b);
      ClearSplit(reg, Feed(reg, st, ts[a]), ts, a + 1, b, c);
    }
  }

  /** ClearFrom says of every token that it is read as Feed has it after the tokens before it. */
  lemma {:induction false} ClearIsEach(reg: Registry, st: State, ts: seq<Tok>)
    ensures ClearFrom(reg, st, ts) <==> forall k :: 0 <= k < |ts| ==> Clear(reg, FeedAll(reg, st, ts[..k]), ts[k])
    decreases |ts|
  {
    hide Feed, FeedAll, Clear;
    if ts != [] {
      var n := |ts| - 1;
      var front, last := ts[..n], FeedFrom(reg, st, ts[..n]);
      ClearIsEach(reg, st, front);
      ClearSplit(reg, st, ts, 0, n, |ts|);
      assert ts[0..n] == front && ts[0..|ts|] == ts;
      ClearNext(reg, last, ts, n, |ts|);
      assert ts[n + 1..|ts|] == [] && ClearFrom(reg, Feed(reg, last, ts[n]), []);
      FrontIsBack(reg, st, front);
      assert forall k :: 0 <= k < n ==> front[..k] == ts[..k] && front[k] == ts[k];
    }
  }

  /** A word, or the end, closes an open number: it makes no difference if it was closed already. */
  lemma {:induction false} CloseEarly(reg: Registry, st: State, ts: seq<Tok>, a: nat)
    requires a <= |ts| && (st.cands == [] || a == |ts| || ts[a].kind.NN?)
    ensures Stashed(FeedFrom(reg, st, ts[a..])) == Stashed(FeedFrom(reg, Stashed(st), ts[a..]))
  {
    if a < |ts| && st.cands != [] {
      assert Feed(reg, st, ts[a]) == Feed(reg, Stashed(st), ts[a]);
    }
  }

  /** A run read by itself, then the rest. */
  lemma {:induction false} RunThenRest(reg: Registry, es: seq<Entry>, ts: seq<Tok>, a: nat, b: nat)
    requires RegistryOk(reg) && a < |ts| && !ts[a].kind.NN? && b == AfterLast(ts, a) && NoLaterNZ(ts) && a < b
    ensures var run := FeedFrom(reg, State(es, []), ts[a..b]);
            Stashed(FeedFrom(reg, State(es, []), ts[a..])) == Stashed(FeedFrom(reg, Stashed(run), ts[b..]))
  {
    hide Feed, FeedFrom;
    var n := |ts|;
    assert ts[a..n] == ts[a..] && ts[b..n] == ts[b..];
    FeedSplit(reg, State(es, []), ts, a, b, n);
    var run := FeedFrom(reg, State(es, []), ts[a..b]);
    if StopAt(ts, a) == 0 {
      FeedNext(reg, State(es, []), ts, 0, 1);
      FeedZero(reg, es, ts[0]);
      FeedNone(reg, State(es, []), ts, 1);
    }
    CloseEarly(reg, run, ts, b);
  }

  /** And if the stream is clear, so are the run and the rest. */
  lemma {:induction false} RunIsClear(reg: Registry, es: seq<Entry>, ts: seq<Tok>, a: nat, b: nat)
    requires a < |ts| && !ts[a].kind.NN? && b == AfterLast(ts, a) && NoLaterNZ(ts) && a < b
    requires ClearFrom(reg, State(es, []), ts[a..])
    ensures var run := FeedFrom(reg, State(es, []), ts[a..b]);
            ClearFrom(reg, State(es, []), ts[a..b]) && ClearFrom(reg, Stashed(run), ts[b..])
  {
    hide Feed, FeedFrom, ClearFrom;
    var n := |ts|;
    assert ts[a..n] == ts[a..] && ts[b..n] == ts[b..];
    ClearSplit(reg, State(es, []), ts, a, b, n);
    var run := FeedFrom(reg, State(es, []), ts[a..b]);
    if StopAt(ts, a) == 0 {
      FeedNext(reg, State(es, []), ts, 0, 1);
      FeedZero(reg, es, ts[0]);
      FeedNone(reg, State(es, []), ts, 1);
    }
    ClearEarly(reg, run, ts, b);
  }

  lemma {:induction false} ClearEarly(reg: Registry, st: State, ts: seq<Tok>, a: nat)
    requires a <= |ts| && (st.cands == [] || a == |ts| || ts[a].kind.NN?)
    ensures ClearFrom(reg, st, ts[a..]) <==> ClearFrom(reg, Stashed(st), ts[a..])
  {
    if a < |ts| && st.cands != [] {
      assert Feed(reg, st, ts[a]) == Feed(reg, Stashed(st), ts[a]);
    }
  }

  lemma {:induction false} FeedZero(reg: Registry, es: seq<Entry>, t: Tok)
    requires t.kind.NZ?
    ensures Feed(reg, State(es, []), t) == State(es, [])
  {
  }

  lemma {:induction false} WordsThenRest(reg: Registry, es: seq<Entry>, fs: seq<Entry>, ts: seq<Tok>, a: nat, b: nat)
    requires a <= b <= |ts| && State(fs, []) == FeedFrom(reg, State(es, []), ts[a..b])
    ensures FeedFrom(reg, State(es, []), ts[a..]) == FeedFrom(reg, State(fs, []), ts[b..])
    ensures ClearFrom(reg, State(es, []), ts[a..]) ==> ClearFrom(reg, State(fs, []), ts[b..])
  {
    hide Feed, FeedFrom, Clear, ClearFrom;
    ClearSplit(reg, State(es, []), ts, a, b, |ts|);
    assert ts[a..|ts|] == ts[a..] && ts[b..|ts|] == ts[b..];
    FeedSplit(reg, State(es, []), ts, a, b, |ts|);
  }

  /** An NZ token at the very beginning is dropped. */
  lemma {:induction false} ZeroDropped(reg: Registry, ts: seq<Tok>)
    requires ts != [] && ts[0].kind.NZ?
    ensures ReadAll(reg, ts) == ReadAll(reg, ts[1..])
  {
    hide Feed, FeedFrom, FeedAll;
    var init := State([], []);
    FeedNext(reg, init, ts, 0, |ts|);
    FeedZero(reg, [], ts[0]);
    assert ts[0..|ts|] == ts && ts[1..|ts|] == ts[1..];
    FrontIsBack(reg, init, ts);
    FrontIsBack(reg, init, ts[1..]);
  }

  /** There is room: no more entries than tokens, also when the first is dropped. */
  lemma {:induction false} Room(reg: Registry, ts: seq<Tok>)
    requires RegistryOk(reg) && NoLaterNZ(ts)
    ensures |ReadAll(reg, ts)| <= |ts|
  {
    hide ReadAll, AllHeld, RegistryOk;
    if ts != [] && ts[0].kind.NZ? {
      ZeroDropped(reg, ts);
      TokensConserved(reg, ts[1..]);
    } else {
      TokensConserved(reg, ts);
    }
  }

  /** What nx_parse can be given: no token is joined to the number before it or disturbs a determinative, and
      there is no NZ token on which it does not end. */
  predicate Readable(reg: Registry, ts: seq<Tok>) {
    NoLaterNZ(ts) && forall k :: 0 <= k < |ts| ==> Clear(reg, FeedAll(reg, State([], []), ts[..k]), ts[k])
  }

  /** nx_parse. */
  method NxParse(reg: Registry, tabs: Tables, toks: seq<string>) returns (p: Parser)
    requires RegistryOk(reg) && Readable(reg, Typed(tabs, toks))
    ensures fresh(p) && p.reg == reg && p.Valid()
    ensures p.entries == ReadAll(reg, Typed(tabs, toks)) && |p.results| <= |toks|
  {
    hide Feed, FeedFrom, FeedAll, Clear, ClearFrom, RegistryOk, StopAt, AfterLast;
    ghost var ts := Typed(tabs, toks);
    ClearIsEach(reg, State([], []), ts);
    p := new Parser(reg);
    var nptoks := new TokType[|toks|](_ => NN);
    var start := 0;
    ghost var goal := Stashed(FeedFrom(reg, State([], []), ts));
    assert ts[0..] == ts;
    while start < |toks|
      invariant start <= |toks| && p.Valid() && fresh(p.kept)
      invariant Stashed(FeedFrom(reg, State(p.entries, []), ts[start..])) == goal
      invariant ClearFrom(reg, State(p.entries, []), ts[start..])
      decreases |toks| - start
    {
      var next := NextNum(tabs, toks, nptoks, start);
      Moves(ts, start);
      if next >= 0 {
        ghost var es := p.entries;
        if start < next { NonNums(p, toks, start, next, ts); } else { FeedNone(reg, State(es, []), ts, start); }
        WordsThenRest(reg, es, p.entries, ts, start, next);
        var last := LastNum(tabs, toks, nptoks, next);
        RunOf(ts, next);
        RunThenRest(reg, p.entries, ts, next, last + 1);
        RunIsClear(reg, p.entries, ts, next, last + 1);
        p.Numbers(toks, nptoks, next, last, ts);
        start := last + 1;
      } else {
        ghost var es := p.entries;
        NonNums(p, toks, start, |toks|, ts);
        WordsThenRest(reg, es, p.entries, ts, start, |toks|);
        start := |toks|;
      }
    }
    assert ts[|ts|..] == ts[|ts|..|ts|];
    FeedNone(reg, State(p.entries, []), ts, |ts|);
    FrontIsBack(reg, State([], []), ts);
    Room(reg, ts);
  }
}
