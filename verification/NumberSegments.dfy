/** Where numbers begin and end in a stream of tokens, and that no token is lost. */
module NumberSegments {
  import opened NumberReading

  /** The token opens a number. */
  predicate Opens(reg: Registry, t: Tok) { Starts(t.kind) && t.text in reg }

  /** The token ends any number before it. */
  predicate Stops(t: Tok) { t.kind.NN? || t.kind.NZ? }

  /** Entry e is what the tokens a..b of ts read as. A number holds exactly the candidates that survive its
      tokens, and ends only where none of them can take the next one. */
  predicate Reads(reg: Registry, ts: seq<Tok>, e: Entry, a: nat, b: nat) {
    && a < b <= |ts|
    && match e
       case Other(t) => b == a + 1 && t == ts[a] && t.kind.NN?
       case Stray(t) => b == a + 1 && t == ts[a] && !Stops(t) && !Opens(reg, t)
       case Num(cs) =>
         && Opens(reg, ts[a]) && (forall k :: a < k < b ==> !Stops(ts[k]))
         && cs == Survivors(reg, ts[a..b]) && cs != []
         && (b < |ts| ==> Stops(ts[b]) || Survivors(reg, ts[a..b + 1]) == [])
  }

  /** The entries read ts up to the last of the cuts, one stretch after the other. */
  predicate Segments(reg: Registry, ts: seq<Tok>, es: seq<Entry>, cuts: seq<nat>) {
    && |cuts| == |es| + 1 && cuts[0] == 0
    && forall i :: 0 <= i < |es| ==> Reads(reg, ts, es[i], cuts[i], cuts[i + 1])
  }

  predicate NoStoppers(ts: seq<Tok>) { forall k :: 0 <= k < |ts| ==> !ts[k].kind.NZ? }

  /** How the state after n tokens stands to the segments so far. */
  predicate Tracks(reg: Registry, ts: seq<Tok>, st: State, n: nat, cuts: seq<nat>)
    requires n <= |ts|
  {
    && Segments(reg, ts, st.entries, cuts)
    && var m := cuts[|cuts| - 1];
    if st.cands == [] then m == n
    else
      && m < n && Opens(reg, ts[m]) && (forall k :: m < k < n ==> !Stops(ts[k]))
      && st.cands == Survivors(reg, ts[m..n])
  }

  lemma {:induction false} AddEntry(reg: Registry, ts: seq<Tok>, es: seq<Entry>, cuts: seq<nat>, e: Entry, b: nat)
    requires Segments(reg, ts, es, cuts) && Reads(reg, ts, e, cuts[|cuts| - 1], b)
    ensures Segments(reg, ts, es + [e], cuts + [b])
  {
    var fs, ds := es + [e], cuts + [b];
    forall i | 0 <= i < |fs| ensures Reads(reg, ts, fs[i], ds[i], ds[i + 1]) {
      if i < |es| { assert Reads(reg, ts, es[i], cuts[i], cuts[i + 1]); }
    }
  }

  /** Token n read with no number open. */
  lemma {:induction false} TrackBegin(reg: Registry, ts: seq<Tok>, st: State, n: nat, cuts: seq<nat>)
      returns (cuts2: seq<nat>)
    requires RegistryOk(reg) && n < |ts| && NoStoppers(ts) && st.cands == [] && Tracks(reg, ts, st, n, cuts)
    ensures Tracks(reg, ts, Begin(reg, st, ts[n]), n + 1, cuts2)
  {
    var t := ts[n];
    cuts2 := cuts;
    if t.kind.NN? {
      AddEntry(reg, ts, st.entries, cuts, Other(t), n + 1);
      cuts2 := cuts + [n + 1];
    } else if Opens(reg, t) {
      assert ts[n..n + 1] == [t];
    } else {
      AddEntry(reg, ts, st.entries, cuts, Stray(t), n + 1);
      cuts2 := cuts + [n + 1];
    }
  }

  /** The open number ends before token n. */
  lemma {:induction false} TrackStash(reg: Registry, ts: seq<Tok>, st: State, n: nat, cuts: seq<nat>)
      returns (cuts2: seq<nat>)
    requires n <= |ts| && Tracks(reg, ts, st, n, cuts)
    requires st.cands != [] && n < |ts| ==> Stops(ts[n]) || Survivors(reg, ts[cuts[|cuts| - 1]..n + 1]) == []
    ensures Tracks(reg, ts, Stashed(st), n, cuts2)
  {
    cuts2 := cuts;
    if st.cands != [] {
      AddEntry(reg, ts, st.entries, cuts, Num(st.cands), n);
      cuts2 := cuts + [n];
    }
  }

  lemma {:induction false} OneMoreToken(reg: Registry, ts: seq<Tok>, m: nat, n: nat)
    requires m < n < |ts|
    ensures Survivors(reg, ts[m..n + 1]) == Next(reg, Survivors(reg, ts[m..n]), ts[n])
  {
    hide Next;
    var w := ts[m..n + 1];
    assert w[..|w| - 1] == ts[m..n] && w[|w| - 1] == ts[n];
  }

  lemma {:induction false} TrackFeed(reg: Registry, ts: seq<Tok>, st: State, n: nat, cuts: seq<nat>)
      returns (cuts2: seq<nat>)
    requires RegistryOk(reg) && n < |ts| && NoStoppers(ts) && Tracks(reg, ts, st, n, cuts)
    ensures Tracks(reg, ts, Feed(reg, st, ts[n]), n + 1, cuts2)
  {
    hide Survivors, Next, Reads;
    var m := cuts[|cuts| - 1];
    if st.cands != [] { OneMoreToken(reg, ts, m, n); }
    if st.cands != [] && !Stops(ts[n]) && Survivors(reg, ts[m..n + 1]) != [] {
      cuts2 := cuts;
    } else {
      cuts2 := TrackStash(reg, ts, st, n, cuts);
      cuts2 := TrackBegin(reg, ts, Stashed(st), n, cuts2);
    }
  }

  lemma {:induction false} TrackAll(reg: Registry, ts: seq<Tok>, n: nat) returns (cuts: seq<nat>)
    requires RegistryOk(reg) && n <= |ts| && NoStoppers(ts)
    ensures Tracks(reg, ts, FeedAll(reg, State([], []), ts[..n]), n, cuts)
    decreases n
  {
    if n == 0 {
      cuts := [0];
    } else {
      assert ts[..n][..n - 1] == ts[..n - 1];
      cuts := TrackAll(reg, ts, n - 1);
      cuts := TrackFeed(reg, ts, FeedAll(reg, State([], []), ts[..n - 1]), n - 1, cuts);
    }
  }

  /** The results cut the stream into maximal readings. */
  lemma {:induction false} ReadAllSegments(reg: Registry, ts: seq<Tok>) returns (cuts: seq<nat>)
    requires RegistryOk(reg) && NoStoppers(ts)
    ensures Segments(reg, ts, ReadAll(reg, ts), cuts) && cuts[|cuts| - 1] == |ts|
  {
    assert ts[..|ts|] == ts;
    cuts := TrackAll(reg, ts, |ts|);
    cuts := TrackStash(reg, ts, FeedAll(reg, State([], []), ts), |ts|, cuts);
  }

  // ---------- There is no other way to cut it ----------

  lemma {:induction false} PrefixSurvives(reg: Registry, ts: seq<Tok>, a: nat, b: nat, c: nat)
    requires a < b <= c <= |ts| && Survivors(reg, ts[a..c]) != []
    ensures Survivors(reg, ts[a..b]) != []
    decreases c - b
  {
    hide Survivors;
    if b < c {
      OneMoreToken(reg, ts, a, c - 1);
      PrefixSurvives(reg, ts, a, b, c - 1);
    }
  }

  lemma {:induction false} OneReading(reg: Registry, ts: seq<Tok>, e: Entry, f: Entry, a: nat, b: nat, c: nat)
    requires Reads(reg, ts, e, a, b) && Reads(reg, ts, f, a, c)
    ensures e == f && b == c
  {
    hide Survivors;
    if e.Num? {
      if b < c { PrefixSurvives(reg, ts, a, b + 1, c); }
      if c < b { PrefixSurvives(reg, ts, a, c + 1, b); }
    }
  }

  lemma {:induction false} SameCuts(reg: Registry, ts: seq<Tok>, es: seq<Entry>, cuts: seq<nat>, fs: seq<Entry>,
      ds: seq<nat>, i: nat)
    requires Segments(reg, ts, es, cuts) && Segments(reg, ts, fs, ds) && i <= |es| && i <= |fs|
    ensures cuts[i] == ds[i] && es[..i] == fs[..i]
  {
    if i > 0 {
      SameCuts(reg, ts, es, cuts, fs, ds, i - 1);
      OneReading(reg, ts, es[i - 1], fs[i - 1], cuts[i - 1], cuts[i], ds[i]);
      assert es[..i] == es[..i - 1] + [es[i - 1]] && fs[..i] == fs[..i - 1] + [fs[i - 1]];
    }
  }

  /** So the segments determine the results: any list that cuts the stream so is the one the code gives. */
  lemma {:induction false} OnlySegments(reg: Registry, ts: seq<Tok>, es: seq<Entry>, cuts: seq<nat>)
    requires RegistryOk(reg) && NoStoppers(ts) && Segments(reg, ts, es, cuts) && cuts[|cuts| - 1] == |ts|
    ensures es == ReadAll(reg, ts)
  {
    var fs := ReadAll(reg, ts);
    var ds := ReadAllSegments(reg, ts);
    var i := if |es| < |fs| then |es| else |fs|;
    SameCuts(reg, ts, es, cuts, fs, ds, i);
    if i < |es| { CutsGrow(reg, ts, es, cuts, i); } else if i < |fs| { CutsGrow(reg, ts, fs, ds, i); }
    assert es[..i] == es && fs[..i] == fs;
  }

  lemma {:induction false} CutsGrow(reg: Registry, ts: seq<Tok>, es: seq<Entry>, cuts: seq<nat>, i: nat)
    requires Segments(reg, ts, es, cuts) && i < |es|
    ensures cuts[i] < cuts[i + 1] <= |ts|
  {
    assert Reads(reg, ts, es[i], cuts[i], cuts[i + 1]);
  }

  lemma {:induction false} AtLeastIndex(reg: Registry, ts: seq<Tok>, es: seq<Entry>, cuts: seq<nat>, i: nat)
    requires Segments(reg, ts, es, cuts) && i <= |es|
    ensures i <= cuts[i]
  {
    if i > 0 {
      AtLeastIndex(reg, ts, es, cuts, i - 1);
      assert Reads(reg, ts, es[i - 1], cuts[i - 1], cuts[i]);
    }
  }

  // ---------- Conservation ----------

  /** A determinative in its braces, any other token as it is. */
  function Normal(t: Tok): Tok { if IsDet(t) then DetTok(t) else t }

  function Normals(ts: seq<Tok>): (r: seq<Tok>)
    ensures |r| == |ts| && forall k :: 0 <= k < |ts| ==> r[k] == Normal(ts[k])
  {
    seq(|ts|, k requires 0 <= k < |ts| => Normal(ts[k]))
  }

  /** The tokens of an entry, determinatives in braces; those of a number are what its first candidate holds. */
  function Held(e: Entry): multiset<Tok> {
    match e
    case Other(t) => multiset{Normal(t)}
    case Stray(t) => multiset{Normal(t)}
    case Num(cs) =>
      if cs == [] then multiset{}
      else multiset(Toks(cs[0])) + multiset(cs[0].com) + multiset(cs[0].ass) + multiset(cs[0].det)
  }

  function AllHeld(es: seq<Entry>): multiset<Tok> {
    if es == [] then multiset{} else AllHeld(es[..|es| - 1]) + Held(es[|es| - 1])
  }

  lemma {:induction false} OneMore(s: seq<Tok>, t: Tok)
    ensures multiset(s + [t]) == multiset(s) + multiset{t} && s + [] == s
  {
  }

  function OneIf(b: bool, t: Tok): multiset<Tok> { if b then multiset{t} else multiset{} }

  /** Every token of a word is read, kept beside or taken as a determinative. */
  lemma {:induction false} WordHeld(w: seq<Tok>)
    requires w != [] ==> !IsDet(w[0])
    ensures multiset(Normals(w)) == multiset(SignToks(w)) + multiset(SideToks(w, IsCom))
                                    + multiset(SideToks(w, IsAss)) + multiset(DetToks(w))
  {
    if |w| > 1 {
      hide SignToks, SideToks, DetToks, OneIf;
      var v, t := w[..|w| - 1], w[|w| - 1];
      WordHeld(v);
      NormalsGrow(w);
      SignsGrow(w);
      SideGrows(w, IsCom);
      SideGrows(w, IsAss);
      DetsGrow(w);
      OneOfFour(t);
      FourSums(multiset(SignToks(v)), multiset(SideToks(v, IsCom)), multiset(SideToks(v, IsAss)), multiset(DetToks(v)),
               OneIf(IsStep(t), t), OneIf(IsCom(t), t), OneIf(IsAss(t), t), OneIf(IsDet(t) || IsGurWord(t), Normal(t)));
    } else if |w| == 1 {
      assert Normals(w) == w;
    }
  }

  lemma {:induction false} FourSums(a: multiset<Tok>, b: multiset<Tok>, c: multiset<Tok>, d: multiset<Tok>,
                                    p: multiset<Tok>, q: multiset<Tok>, r: multiset<Tok>, s: multiset<Tok>)
    ensures (a + b + c + d) + (p + q + r + s) == (a + p) + (b + q) + (c + r) + (d + s)
  {
  }

  lemma {:induction false} OneOfFour(t: Tok)
    ensures multiset{Normal(t)} ==
            OneIf(IsStep(t), t) + OneIf(IsCom(t), t) + OneIf(IsAss(t), t) + OneIf(IsDet(t) || IsGurWord(t), Normal(t))
  {
  }

  lemma {:induction false} NormalsGrow(w: seq<Tok>)
    requires w != []
    ensures multiset(Normals(w)) == multiset(Normals(w[..|w| - 1])) + multiset{Normal(w[|w| - 1])}
  {
    assert Normals(w) == Normals(w[..|w| - 1]) + [Normal(w[|w| - 1])];
  }

  lemma {:induction false} SignsGrow(w: seq<Tok>)
    requires |w| > 1
    ensures multiset(SignToks(w)) == multiset(SignToks(w[..|w| - 1])) + OneIf(IsStep(w[|w| - 1]), w[|w| - 1])
  {
    OneMore(SignToks(w[..|w| - 1]), w[|w| - 1]);
  }

  lemma {:induction false} SideGrows(w: seq<Tok>, side: Tok -> bool)
    requires |w| > 1
    ensures multiset(SideToks(w, side)) == multiset(SideToks(w[..|w| - 1], side)) + OneIf(side(w[|w| - 1]), w[|w| - 1])
  {
    OneMore(SideToks(w[..|w| - 1], side), w[|w| - 1]);
  }

  lemma {:induction false} DetsGrow(w: seq<Tok>)
    requires |w| > 1
    ensures var t := w[|w| - 1];
            multiset(DetToks(w)) == multiset(DetToks(w[..|w| - 1])) + OneIf(IsDet(t) || IsGurWord(t), Normal(t))
  {
    OneMore(DetToks(w[..|w| - 1]), Normal(w[|w| - 1]));
  }

  lemma {:induction false} HeldIsRead(reg: Registry, ts: seq<Tok>, e: Entry, a: nat, b: nat)
    requires Reads(reg, ts, e, a, b)
    ensures Held(e) == multiset(Normals(ts[a..b]))
  {
    match e
    case Other(t) => assert Normals(ts[a..b]) == [Normal(t)];
    case Stray(t) => assert Normals(ts[a..b]) == [Normal(t)];
    case Num(cs) =>
      SurvivorsSpell(reg, ts[a..b], cs[0]);
      WordHeld(ts[a..b]);
  }

  lemma {:induction false} SegmentsHold(reg: Registry, ts: seq<Tok>, es: seq<Entry>, cuts: seq<nat>, i: nat)
    requires Segments(reg, ts, es, cuts) && i <= |es|
    ensures cuts[i] <= |ts| && AllHeld(es[..i]) == multiset(Normals(ts[..cuts[i]]))
  {
    hide Reads, Held, AllHeld, Normals;
    if i == 0 {
      NothingHeld(es, ts);
    } else {
      SegmentsHold(reg, ts, es, cuts, i - 1);
      var a, b := cuts[i - 1], cuts[i];
      CutsGrow(reg, ts, es, cuts, i - 1);
      assert Reads(reg, ts, es[i - 1], a, b);
      HeldIsRead(reg, ts, es[i - 1], a, b);
      HeldOneMore(es, i - 1);
      NormalsJoin(ts, a, b);
    }
  }

  lemma {:induction false} NothingHeld(es: seq<Entry>, ts: seq<Tok>)
    ensures AllHeld(es[..0]) == multiset(Normals(ts[..0]))
  {
  }

  lemma {:induction false} HeldOneMore(es: seq<Entry>, i: nat)
    requires i < |es|
    ensures AllHeld(es[..i + 1]) == AllHeld(es[..i]) + Held(es[i])
  {
    hide Held;
    assert es[..i + 1][..i] == es[..i];
  }

  lemma {:induction false} NormalsJoin(ts: seq<Tok>, a: nat, b: nat)
    requires a <= b <= |ts|
    ensures multiset(Normals(ts[..b])) == multiset(Normals(ts[..a])) + multiset(Normals(ts[a..b]))
  {
    assert Normals(ts[..b]) == Normals(ts[..a]) + Normals(ts[a..b]);
  }

  /** No token is lost or made up, a determinative being put in braces, and there are never more results than
      tokens. */
  lemma {:induction false} TokensConserved(reg: Registry, ts: seq<Tok>)
    requires RegistryOk(reg) && NoStoppers(ts)
    ensures AllHeld(ReadAll(reg, ts)) == multiset(Normals(ts)) && |ReadAll(reg, ts)| <= |ts|
  {
    var es := ReadAll(reg, ts);
    var cuts := ReadAllSegments(reg, ts);
    SegmentsHold(reg, ts, es, cuts, |es|);
    AtLeastIndex(reg, ts, es, cuts, |es|);
    assert es[..|es|] == es && ts[..|ts|] == ts;
  }

  /** The tokens of an entry in order, where none is kept beside. */
  function Spelt(e: Entry): seq<Tok> {
    match e
    case Other(t) => [t]
    case Stray(t) => [t]
    case Num(cs) => if cs == [] then [] else Toks(cs[0])
  }

  lemma {:induction false} AllSigns(w: seq<Tok>)
    requires forall k :: 0 <= k < |w| ==> IsStep(w[k])
    ensures SignToks(w) == w
  {
    if |w| > 1 {
      AllSigns(w[..|w| - 1]);
      assert w == w[..|w| - 1] + [w[|w| - 1]];
    }
  }

  function AllSpelt(es: seq<Entry>): seq<Tok> {
    if es == [] then [] else AllSpelt(es[..|es| - 1]) + Spelt(es[|es| - 1])
  }

  lemma {:induction false} SpeltIsRead(reg: Registry, ts: seq<Tok>, e: Entry, a: nat, b: nat)
    requires Reads(reg, ts, e, a, b) && forall k :: 0 <= k < |ts| ==> IsStep(ts[k])
    ensures Spelt(e) == ts[a..b]
  {
    hide Survivors, SignToks;
    if e.Num? {
      SurvivorsSpell(reg, ts[a..b], e.cands[0]);
      AllSigns(ts[a..b]);
    }
  }

  lemma {:induction false} SegmentsSpell(reg: Registry, ts: seq<Tok>, es: seq<Entry>, cuts: seq<nat>, i: nat)
    requires Segments(reg, ts, es, cuts) && i <= |es| && forall k :: 0 <= k < |ts| ==> IsStep(ts[k])
    ensures cuts[i] <= |ts| && AllSpelt(es[..i]) == ts[..cuts[i]]
  {
    hide Reads, Spelt;
    if i > 0 {
      CutsGrow(reg, ts, es, cuts, i - 1);
      SegmentsSpell(reg, ts, es, cuts, i - 1);
      var a, b, e := cuts[i - 1], cuts[i], es[i - 1];
      assert Reads(reg, ts, e, a, b);
      SpeltIsRead(reg, ts, e, a, b);
      assert es[..i][..i - 1] == es[..i - 1];
      assert ts[..b] == ts[..a] + ts[a..b];
    }
  }

  /** Without tokens kept beside, the results spell the stream in order. */
  lemma {:induction false} TokensInOrder(reg: Registry, ts: seq<Tok>)
    requires RegistryOk(reg) && NoStoppers(ts) && forall k :: 0 <= k < |ts| ==> IsStep(ts[k])
    ensures AllSpelt(ReadAll(reg, ts)) == ts
  {
    var es := ReadAll(reg, ts);
    var cuts := ReadAllSegments(reg, ts);
    SegmentsSpell(reg, ts, es, cuts, |es|);
    assert es[..|es|] == es && ts[..|ts|] == ts;
  }
}
