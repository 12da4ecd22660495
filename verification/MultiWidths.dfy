/** Column widths for text entries that span several composite columns: one left-to-right pass. */
module MultiWidths {
  import opened SourceTiling

  /** A text entry: the column at position `at` of its line. */
  datatype Entry = Entry(line: seq<SouCol>, at: nat) {
    predicate Ok(comp: Composite) {
      at < |line| && forall k :: 0 <= k < |line| ==> line[k].composite < |comp.complexIndex|
    }

    function Width(): nat
      requires at < |line|
    {
      line[at].width
    }
  }

  /** struct FM: an entry whose width is not used up yet. */
  datatype Fm = Fm(lastCol: nat, widthLeft: int, index: nat)

  /** What an entry asks for: the columns start..last have room for width. */
  datatype Need = Need(start: nat, last: nat, width: int)

  function Min(a: nat, b: nat): nat { if a <= b then a else b }

  /** Where column k begins when columns have widths w, a column with a delimiter taking one more. */
  function Begin(w: seq<nat>, delim: seq<bool>, k: nat): nat
    requires k <= |w| == |delim|
  {
    if k == 0 then 0 else Begin(w, delim, k - 1) + w[k - 1] + if delim[k - 1] then 1 else 0
  }

  /** Room from the beginning of column s to the end of column e, without the delimiter after e. */
  function Room(w: seq<nat>, delim: seq<bool>, s: nat, e: nat): int
    requires s <= e < |w| == |delim|
  {
    Begin(w, delim, e) - Begin(w, delim, s) + w[e]
  }

  predicate Meets(w: seq<nat>, delim: seq<bool>, n: Need)
    requires |w| == |delim|
  {
    n.last < |w| ==> n.width <= Room(w, delim, Min(n.start, n.last), n.last)
  }

  predicate MeetsAll(w: seq<nat>, delim: seq<bool>, needs: seq<Need>)
    requires |w| == |delim|
  {
    forall n :: n in needs ==> Meets(w, delim, n)
  }

  /** No column begins later than it must: every layout from w0 on that meets the needs begins each
      column, and ends the last, at least there. */
  ghost predicate Least(w0: seq<nat>, delim: seq<bool>, needs: seq<Need>, w: seq<nat>, upto: nat)
    requires upto <= |w| == |w0| == |delim|
  {
    forall v, k :: Grown(w0, v) && MeetsAll(v, delim, needs) && 0 <= k <= upto ==>
      Begin(v, delim, k) >= Begin(w, delim, k)
  }

  /** The layout wanted: it grows from w0, meets every need, and is the least that does. */
  ghost predicate Solves(w0: seq<nat>, delim: seq<bool>, needs: seq<Need>, w: seq<nat>)
    requires |w0| == |delim|
  {
    Grown(w0, w) && MeetsAll(w, delim, needs) && Least(w0, delim, needs, w, |w|)
  }

  lemma {:induction false} BeginSame(v: seq<nat>, w: seq<nat>, delim: seq<bool>, k: nat)
    requires k <= |v| == |w| == |delim| && v[..k] == w[..k]
    ensures Begin(v, delim, k) == Begin(w, delim, k)
  {
    if k > 0 {
      assert v[..k - 1] == v[..k][..k - 1] == w[..k - 1];
      assert v[..k][k - 1] == w[..k][k - 1];
      BeginSame(v, w, delim, k - 1);
    }
  }

  lemma {:induction false} BeginGrows(w: seq<nat>, delim: seq<bool>, i: nat, k: nat)
    requires i <= k <= |w| == |delim|
    ensures Begin(w, delim, i) <= Begin(w, delim, k)
    decreases k - i
  {
    if i < k { BeginGrows(w, delim, i, k - 1); }
  }

  /** The conditions leave one layout only. */
  lemma {:induction false} SolutionIsUnique(w0: seq<nat>, delim: seq<bool>, needs: seq<Need>, v: seq<nat>, w: seq<nat>)
    requires |w0| == |delim| && Solves(w0, delim, needs, v) && Solves(w0, delim, needs, w)
    ensures v == w
  {
    forall j | 0 <= j < |w| ensures v[j] == w[j] {
      assert Begin(v, delim, j) == Begin(w, delim, j) && Begin(v, delim, j + 1) == Begin(w, delim, j + 1);
    }
  }

  // ---------- The entries and the list ----------

  /** The last column of the stretch of e's line that lies in e's complex, looked for from position i. */
  function LastOf(comp: Composite, e: Entry, i: nat): nat
    requires e.Ok(comp) && e.at <= i < |e.line|
    decreases |e.line| - i
  {
    if i + 1 == |e.line| ||
       comp.complexIndex[e.line[i + 1].composite] != comp.complexIndex[e.line[e.at].composite] then e.line[i].cindex
    else LastOf(comp, e, i + 1)
  }

  /** So it is the column of that complex after which the line ends or another complex begins. */
  lemma {:induction false} LastOfComplex(comp: Composite, e: Entry) returns (k: nat)
    requires e.Ok(comp)
    ensures e.at <= k < |e.line| && LastOf(comp, e, e.at) == e.line[k].cindex
    ensures forall i :: e.at <= i <= k ==>
              comp.complexIndex[e.line[i].composite] == comp.complexIndex[e.line[e.at].composite]
    ensures k + 1 < |e.line| ==>
              comp.complexIndex[e.line[k + 1].composite] != comp.complexIndex[e.line[e.at].composite]
  {
    k := e.at;
    while k + 1 < |e.line| && comp.complexIndex[e.line[k + 1].composite] == comp.complexIndex[e.line[e.at].composite]
      invariant e.at <= k < |e.line| && LastOf(comp, e, k) == LastOf(comp, e, e.at)
      invariant forall i :: e.at <= i <= k ==>
                  comp.complexIndex[e.line[i].composite] == comp.complexIndex[e.line[e.at].composite]
    {
      k := k + 1;
    }
  }

  /** Where the pass starts counting an entry's columns, its own composite column, and its last one. */
  datatype Extent = Extent(index: nat, cindex: nat, last: nat) {
    predicate InPlace() { cindex <= index && cindex <= last }

    /** What the pass takes an entry of that width to need, and what it needs in truth. */
    function PassNeed(width: nat): Need { Need(index, last, width) }
    function TrueNeed(width: nat): Need { Need(cindex, last, width) }
  }

  function ExtentOf(comp: Composite, e: Entry): Extent
    requires e.Ok(comp)
  {
    Extent(e.line[e.at].index, e.line[e.at].cindex, LastOf(comp, e, e.at))
  }

  predicate AllOk(comp: Composite, es: seq<Entry>) {
    forall i :: 0 <= i < |es| ==> es[i].Ok(comp)
  }

  function Needs(comp: Composite, es: seq<Entry>): (r: seq<Need>)
    requires AllOk(comp, es)
    ensures |r| == |es|
    ensures forall i :: 0 <= i < |es| ==> r[i] == ExtentOf(comp, es[i]).PassNeed(es[i].Width())
  {
    seq(|es|, i requires 0 <= i < |es| => ExtentOf(comp, es[i]).PassNeed(es[i].Width()))
  }

  /** What is left to place of n when the columns before c are done. */
  function Left(n: Need, w: seq<nat>, delim: seq<bool>, c: nat): Fm
    requires c <= |w| == |delim|
  {
    Fm(n.last, n.width - (Begin(w, delim, c) - Begin(w, delim, Min(n.start, c))), n.start)
  }

  /** The list before column c: the needs that do not end earlier. */
  function Waiting(needs: seq<Need>, w: seq<nat>, delim: seq<bool>, c: nat): seq<Fm>
    requires c <= |w| == |delim|
  {
    if needs == [] then []
    else
      var r := Waiting(needs[1..], w, delim, c);
      if needs[0].last >= c then [Left(needs[0], w, delim, c)] + r else r
  }

  lemma {:induction false} WaitingHas(needs: seq<Need>, w: seq<nat>, delim: seq<bool>, c: nat)
    requires c <= |w| == |delim|
    ensures forall f :: f in Waiting(needs, w, delim, c) ==>
            exists n :: n in needs && n.last >= c && f == Left(n, w, delim, c)
    ensures forall n :: n in needs && n.last >= c ==> Left(n, w, delim, c) in Waiting(needs, w, delim, c)
  {
    if needs != [] {
      WaitingHas(needs[1..], w, delim, c);
    }
  }

  lemma {:induction false} AdjustedNone(list: seq<Fm>, c: nat, step: nat)
    requires list == []
    ensures Adjusted(list, c, step) == []
  {
  }

  lemma {:induction false} AdjustedNext(list: seq<Fm>, c: nat, step: nat)
    requires list != []
    ensures var f, r := list[0], Adjusted(list[1..], c, step);
            Adjusted(list, c, step) ==
            if f.lastCol == c then r else [if f.index <= c then f.(widthLeft := f.widthLeft - step) else f] + r
  {
  }

  /** The list where it stands: its front, and the rest with its head. */
  lemma {:induction false} Around(done: seq<Fm>, rest: seq<Fm>)
    requires rest != []
    ensures var list, i := done + rest, |done|;
            && list[i] == rest[0] && list[..i] + list[i + 1..] == done + rest[1..] &&
                list == done + [rest[0]] + rest[1..]
            && forall f :: list[i := f] == done + [f] + rest[1..]
  {
  }

  lemma {:induction false} PassOver(done: seq<Fm>, f: Fm, rest: seq<Fm>, adjusted: seq<Fm>)
    ensures done + ([f] + adjusted) == (done + [f]) + adjusted && done + [f] + rest == (done + [f]) + rest
  {
  }

  /** adjust_multis on values. */
  function Adjusted(list: seq<Fm>, c: nat, step: nat): seq<Fm> {
    if list == [] then []
    else
      var r := Adjusted(list[1..], c, step);
      if list[0].lastCol == c then r
      else [if list[0].index <= c then list[0].(widthLeft := list[0].widthLeft - step) else list[0]] + r
  }

  /** Taking column c off an entry that spans it. */
  lemma {:induction false} LeftAdjusted(n: Need, v: seq<nat>, w: seq<nat>, delim: seq<bool>, c: nat)
    requires c < |v| == |w| == |delim| && v[..c] == w[..c]
    ensures var f := Left(n, v, delim, c);
            Left(n, w, delim, c + 1) ==
            if n.start <= c then f.(widthLeft := f.widthLeft - (w[c] + if delim[c] then 1 else 0)) else f
  {
    BeginSame(v, w, delim, c);
    var s := Min(n.start, c);
    assert v[..s] == v[..c][..s] == w[..s];
    BeginSame(v, w, delim, s);
  }

  lemma {:induction false} WaitingAdjusted(needs: seq<Need>, v: seq<nat>, w: seq<nat>, delim: seq<bool>, c: nat)
    requires c < |v| == |w| == |delim| && v[..c] == w[..c]
    ensures Adjusted(Waiting(needs, v, delim, c), c, w[c] + if delim[c] then 1 else 0) ==
            Waiting(needs, w, delim, c + 1)
  {
    if needs != [] {
      WaitingAdjusted(needs[1..], v, w, delim, c);
      LeftAdjusted(needs[0], v, w, delim, c);
      if needs[0].last >= c {
        var f, r := Left(needs[0], v, delim, c), Waiting(needs[1..], v, delim, c);
        assert ([f] + r)[0] == f && ([f] + r)[1..] == r;
      }
    }
  }

  class Layout {
    const composite: Composite
    const delim: seq<bool>         // of the composite columns
    var maxwidth: array<nat>
    var fmList: seq<Fm>

    constructor (composite: Composite, widths: seq<nat>)
      requires |widths| == |composite.delim|
      ensures this.composite == composite && delim == composite.delim
      ensures fresh(maxwidth) && maxwidth[..] == widths && fmList == []
    {
      this.composite, delim := composite, composite.delim;
      maxwidth := new nat[|widths|](i requires 0 <= i < |widths| => widths[i]);
      fmList := [];
    }

    /** fm_make_list: put an entry on the list, down to the last column of its complex. */
    method MakeList(e: Entry)
      requires e.Ok(composite)
      modifies this`fmList
      ensures var x := ExtentOf(composite, e); fmList == old(fmList) + [Fm(x.last, e.line[e.at].width, x.index)]
    {
      var i := e.at;
      while !(i + 1 == |e.line| ||
              composite.complexIndex[e.line[i + 1].composite] != composite.complexIndex[e.line[e.at].composite])
        invariant e.at <= i < |e.line| && LastOf(composite, e, i) == LastOf(composite, e, e.at)
      {
        i := i + 1;
      }
      fmList := fmList + [Fm(e.line[i].cindex, e.line[e.at].width, e.line[e.at].index)];
    }

    /** find_terminal_maxwidth over the list: the most that an entry ending in column c still needs. */
    method TerminalMaxwidth(c: nat) returns (t: nat)
      ensures forall f :: f in fmList && f.lastCol == c ==> f.widthLeft <= t
      ensures t == 0 || exists f :: f in fmList && f.lastCol == c && f.widthLeft == t
    {
      t := 0;
      for i := 0 to |fmList|
        invariant forall k :: 0 <= k < i && fmList[k].lastCol == c ==> fmList[k].widthLeft <= t
        invariant t == 0 || exists f :: f in fmList && f.lastCol == c && f.widthLeft == t
      {
        if fmList[i].lastCol == c && fmList[i].widthLeft > t {
          t := fmList[i].widthLeft;
        }
      }
    }

    /** adjust_multis: drop the entries that end in column c, take its width off those that span it. */
    method AdjustMultis(c: nat)
      requires c < maxwidth.Length == |delim|
      modifies this`fmList
      ensures fmList == Adjusted(old(fmList), c, maxwidth[c] + if delim[c] then 1 else 0)
    {
      hide Adjusted;
      ghost var step := maxwidth[c] + if delim[c] then 1 else 0;
      ghost var all, done, rest := fmList, [], fmList;
      assert fmList == done + rest;
      var i := 0;
      while i < |fmList|
        invariant i == |done| && fmList == done + rest
        invariant done + Adjusted(rest, c, step) == Adjusted(all, c, step)
        decreases |fmList| - i
      {
        var f := fmList[i];
        Around(done, rest);
        AdjustedNext(rest, c, step);
        if f.lastCol == c {
          fmList := fmList[..i] + fmList[i + 1..];
        } else {
          if f.index <= c {
            f := f.(widthLeft := f.widthLeft - (maxwidth[c] + if delim[c] then 1 else 0));
            fmList := fmList[i := f];
          }
          PassOver(done, f, rest[1..], Adjusted(rest[1..], c, step));
          done := done + [f];
          i := i + 1;
        }
        rest := rest[1..];
      }
      AdjustedNone(rest, c, step);
    }

    /** What holds before column c: the columns before it are settled, those from it on untouched. */
    ghost predicate Settled(w0: seq<nat>, needs: seq<Need>, c: nat)
      reads this, maxwidth
    {
      var w := maxwidth[..];
      && c <= |w0| == |delim| && Grown(w0, w) && w[c..] == w0[c..]
      && (forall n :: n in needs && n.last < c ==> Meets(w, delim, n))
      && Least(w0, delim, needs, w, c)
    }

    /** One turn of the loop of fix_multis. */
    method SettleColumn(c: nat, ghost w0: seq<nat>, ghost needs: seq<Need>)
      requires Settled(w0, needs, c) && c < |w0|
      requires fmList == Waiting(needs, maxwidth[..], delim, c)
      modifies this`fmList, maxwidth
      ensures Settled(w0, needs, c + 1)
      ensures fmList == Waiting(needs, maxwidth[..], delim, c + 1)
    {
      ghost var v := maxwidth[..];
      var terminal := TerminalMaxwidth(c);
      // the comparison with one less makes no difference: see NoExtraSpace
      if terminal > maxwidth[c] as int - (if delim[c] then 0 else 1) {
        maxwidth[c] := terminal;
      }
      ghost var w := maxwidth[..];
      assert w == v[c := if terminal > v[c] then terminal else v[c]];
      OneColumn(w0, delim, needs, v, w, c, terminal);
      WaitingAdjusted(needs, v, w, delim, c);
      AdjustMultis(c);
    }

    /** fix_multis. */
    method FixMultis(entries: seq<Entry>)
      requires maxwidth.Length == |delim| && fmList == []
      requires AllOk(composite, entries)
      modifies this`fmList, maxwidth
      ensures Solves(old(maxwidth[..]), delim, Needs(composite, entries), maxwidth[..])
    {
      hide Waiting, LastOf, Solves;
      ghost var w0, needs := maxwidth[..], Needs(composite, entries);
      for i := 0 to |entries|
        invariant |fmList| == i && maxwidth[..] == w0
        invariant forall k :: 0 <= k < i ==> fmList[k] == Fm(needs[k].last, needs[k].width, needs[k].start)
      {
        MakeList(entries[i]);
      }
      WaitingAtFirst(needs, w0, delim, fmList);
      assert maxwidth[0..] == maxwidth[..] == w0[0..];
      var c := 0;
      while c < maxwidth.Length && |fmList| > 0
        invariant Settled(w0, needs, c)
        invariant fmList == Waiting(needs, maxwidth[..], delim, c)
      {
        SettleColumn(c, w0, needs);
        c := c + 1;
      }
      Finish(w0, delim, needs, maxwidth[..], c);
    }
  }

  lemma {:induction false} WaitingAtFirst(needs: seq<Need>, w: seq<nat>, delim: seq<bool>, list: seq<Fm>)
    requires |w| == |delim| && |list| == |needs|
    requires forall k :: 0 <= k < |needs| ==> list[k] == Fm(needs[k].last, needs[k].width, needs[k].start)
    ensures list == Waiting(needs, w, delim, 0)
  {
    if needs != [] {
      WaitingAtFirst(needs[1..], w, delim, list[1..]);
      assert list == [list[0]] + list[1..];
    }
  }

  /** No other solution ends column c sooner. */
  lemma {:induction false} NoLess(w0: seq<nat>, delim: seq<bool>, needs: seq<Need>, v: seq<nat>, w: seq<nat>, c: nat,
      t: nat, u: seq<nat>)
    requires c < |w0| == |delim| && Grown(w0, v) && v[c..] == w0[c..]
    requires Least(w0, delim, needs, v, c)
    requires t == 0 || exists f :: f in Waiting(needs, v, delim, c) && f.lastCol == c && f.widthLeft == t
    requires w == v[c := if t > v[c] then t else v[c]] && Begin(w, delim, c) == Begin(v, delim, c)
    requires Grown(w0, u) && MeetsAll(u, delim, needs)
    ensures Begin(u, delim, c + 1) >= Begin(w, delim, c + 1)
  {
    WaitingHas(needs, v, delim, c);
    assert Begin(u, delim, c) >= Begin(v, delim, c);
    if t > v[c] {
      var f :| f in Waiting(needs, v, delim, c) && f.lastCol == c && f.widthLeft == t;
      var n :| n in needs && n.last >= c && f == Left(n, v, delim, c);
      assert Meets(u, delim, n);
      assert Begin(u, delim, Min(n.start, c)) >= Begin(v, delim, Min(n.start, c));
    } else {
      assert v[c] == v[c..][0] == w0[c..][0];
    }
  }

  /** Column c set to what its ending entries still need, or left as it was, is as small as it can be. */
  lemma {:induction false} OneColumn(w0: seq<nat>, delim: seq<bool>, needs: seq<Need>, v: seq<nat>, w: seq<nat>,
      c: nat, t: nat)
    requires c < |w0| == |delim| && Grown(w0, v) && v[c..] == w0[c..]
    requires forall n :: n in needs && n.last < c ==> Meets(v, delim, n)
    requires Least(w0, delim, needs, v, c)
    requires forall f :: f in Waiting(needs, v, delim, c) && f.lastCol == c ==> f.widthLeft <= t
    requires t == 0 || exists f :: f in Waiting(needs, v, delim, c) && f.lastCol == c && f.widthLeft == t
    requires w == v[c := if t > v[c] then t else v[c]]
    ensures Grown(w0, w) && w[c + 1..] == w0[c + 1..]
    ensures forall n :: n in needs && n.last < c + 1 ==> Meets(w, delim, n)
    ensures Least(w0, delim, needs, w, c + 1)
  {
    assert w[c + 1..] == v[c..][1..];
    WaitingHas(needs, v, delim, c);
    forall k | 0 <= k <= c ensures Begin(v, delim, k) == Begin(w, delim, k) {
      assert v[..k] == w[..k];
      BeginSame(v, w, delim, k);
    }
    forall n | n in needs && n.last < c + 1 ensures Meets(w, delim, n) {
      if n.last == c {
        assert Left(n, v, delim, c) in Waiting(needs, v, delim, c);
      } else {
        assert Meets(v, delim, n);
      }
    }
    forall u | Grown(w0, u) && MeetsAll(u, delim, needs) ensures Begin(u, delim, c + 1) >= Begin(w, delim, c + 1) {
      NoLess(w0, delim, needs, v, w, c, t, u);
    }
    forall u, k | Grown(w0, u) && MeetsAll(u, delim, needs) && 0 <= k <= c + 1
      ensures Begin(u, delim, k) >= Begin(w, delim, k)
    {
      if k <= c { assert Begin(u, delim, k) >= Begin(v, delim, k); }
    }
  }

  /** Once the list is empty the remaining columns can stay as they are. */
  lemma {:induction false} Finish(w0: seq<nat>, delim: seq<bool>, needs: seq<Need>, w: seq<nat>, c: nat)
    requires c <= |w0| == |delim| && Grown(w0, w) && w[c..] == w0[c..]
    requires c == |w0| || Waiting(needs, w, delim, c) == []
    requires forall n :: n in needs && n.last < c ==> Meets(w, delim, n)
    requires Least(w0, delim, needs, w, c)
    ensures Solves(w0, delim, needs, w)
  {
    WaitingHas(needs, w, delim, c);
    assert MeetsAll(w, delim, needs);
    forall u, k | Grown(w0, u) && MeetsAll(u, delim, needs) && 0 <= k <= |w|
      ensures Begin(u, delim, k) >= Begin(w, delim, k)
    {
      FinishAt(w0, delim, u, w, c, k);
    }
  }

  lemma {:induction false} FinishAt(w0: seq<nat>, delim: seq<bool>, u: seq<nat>, w: seq<nat>, c: nat, k: nat)
    requires c <= |w0| == |delim| && Grown(w0, w) && w[c..] == w0[c..] && Grown(w0, u) && k <= |w|
    requires forall i :: 0 <= i <= c ==> Begin(u, delim, i) >= Begin(w, delim, i)
    ensures Begin(u, delim, k) >= Begin(w, delim, k)
    decreases k
  {
    if k > c {
      FinishAt(w0, delim, u, w, c, k - 1);
      assert w[k - 1] == w[c..][k - 1 - c] == w0[c..][k - 1 - c];
    }
  }

  // ---------- There always is a layout ----------

  lemma {:induction false} Greatest(list: seq<Fm>, c: nat) returns (t: nat)
    ensures forall f :: f in list && f.lastCol == c ==> f.widthLeft <= t
    ensures t == 0 || exists f :: f in list && f.lastCol == c && f.widthLeft == t
  {
    if list == [] {
      t := 0;
    } else {
      t := Greatest(list[1..], c);
      if list[0].lastCol == c && list[0].widthLeft > t { t := list[0].widthLeft; }
    }
  }

  lemma {:induction false} SolvedUpTo(w0: seq<nat>, delim: seq<bool>, needs: seq<Need>, c: nat) returns (w: seq<nat>)
    requires c <= |w0| == |delim|
    ensures Grown(w0, w) && w[c..] == w0[c..]
    ensures forall n :: n in needs && n.last < c ==> Meets(w, delim, n)
    ensures Least(w0, delim, needs, w, c)
  {
    if c == 0 {
      w := w0;
    } else {
      var v := SolvedUpTo(w0, delim, needs, c - 1);
      var t := Greatest(Waiting(needs, v, delim, c - 1), c - 1);
      w := v[c - 1 := if t > v[c - 1] then t else v[c - 1]];
      OneColumn(w0, delim, needs, v, w, c - 1, t);
    }
  }

  lemma {:induction false} Solution(w0: seq<nat>, delim: seq<bool>, needs: seq<Need>) returns (w: seq<nat>)
    requires |w0| == |delim|
    ensures Solves(w0, delim, needs, w)
  {
    w := SolvedUpTo(w0, delim, needs, |w0|);
    Finish(w0, delim, needs, w, |w0|);
  }

  // ---------- What a column is widened for ----------

  /** One less for column c, and one more for the next. */
  function Shifted(w: seq<nat>, c: nat): (u: seq<nat>)
    requires c < |w| && w[c] > 0
    ensures |u| == |w| && u[c] == w[c] - 1 && forall k :: 0 <= k < |w| && k != c ==>
            u[k] == if k == c + 1 then w[k] + 1 else w[k]
  {
    var u := w[c := w[c] - 1];
    if c + 1 < |w| then u[c + 1 := w[c + 1] + 1] else u
  }

  lemma {:induction false} ShiftedBegin(w: seq<nat>, delim: seq<bool>, c: nat, k: nat)
    requires c < |w| == |delim| && w[c] > 0 && k <= |w|
    ensures Begin(Shifted(w, c), delim, k) == Begin(w, delim, k) - if k == c + 1 then 1 else 0
  {
    if k > 0 { ShiftedBegin(w, delim, c, k - 1); }
  }

  predicate Exact(w: seq<nat>, delim: seq<bool>, n: Need)
    requires n.last < |w| == |delim|
  {
    n.width == Room(w, delim, Min(n.start, n.last), n.last)
  }

  lemma {:induction false} SlackGoes(w0: seq<nat>, delim: seq<bool>, needs: seq<Need>, w: seq<nat>, c: nat)
    requires c < |w0| == |delim| && Grown(w0, w) && MeetsAll(w, delim, needs) && w[c] > w0[c]
    requires forall n :: n in needs && n.last == c ==> !Exact(w, delim, n)
    ensures var u := Shifted(w, c);
            Grown(w0, u) && MeetsAll(u, delim, needs) && Begin(u, delim, c + 1) < Begin(w, delim, c + 1)
  {
    var u := Shifted(w, c);
    forall n | n in needs ensures Meets(u, delim, n) {
      assert Meets(w, delim, n);
      if n.last < |w| {
        ShiftedBegin(w, delim, c, n.last);
        ShiftedBegin(w, delim, c, Min(n.start, n.last));
      }
    }
    ShiftedBegin(w, delim, c, c + 1);
  }

  /** A column is wider than it was only if some need that ends in it is met with no room to spare. */
  lemma {:induction false} WidenedForNeed(w0: seq<nat>, delim: seq<bool>, needs: seq<Need>, w: seq<nat>, c: nat)
    requires c < |w0| == |delim| && Solves(w0, delim, needs, w) && w[c] > w0[c]
    ensures exists n :: n in needs && n.last == c && Exact(w, delim, n)
  {
    if forall n :: n in needs && n.last == c ==> !Exact(w, delim, n) {
      SlackGoes(w0, delim, needs, w, c);
      assert false;
    }
  }

  // ---------- The space that is not there ----------

  /** Where a column has no delimiter the source means to leave a space after an entry that ends in it. The
      pass leaves one exactly if the column was wide enough before: wider than what is left for it to place
      of each of those entries. */
  lemma {:induction false} NoExtraSpace(w0: seq<nat>, delim: seq<bool>, needs: seq<Need>, w: seq<nat>, c: nat)
    requires c < |w0| == |delim| && Solves(w0, delim, needs, w)
    ensures (forall n :: n in needs && n.last == c ==> n.width + 1 <= Room(w, delim, Min(n.start, c), c))
            <==> forall n :: n in needs && n.last == c ==> Left(n, w, delim, c).widthLeft < w0[c]
  {
    if w[c] > w0[c] {
      WidenedForNeed(w0, delim, needs, w, c);
      var n :| n in needs && n.last == c && Exact(w, delim, n);
      assert Left(n, w, delim, c).widthLeft == w[c];
      assert n.width + 1 > Room(w, delim, Min(n.start, c), c);
    } else {
      forall n | n in needs && n.last == c
        ensures n.width + 1 <= Room(w, delim, Min(n.start, c), c) <==> Left(n, w, delim, c).widthLeft < w0[c]
      {
      }
    }
  }

  // ---------- When the layout is the least for what the entries need in truth ----------

  function PassNeeds(xs: seq<Extent>, ws: seq<nat>): (r: seq<Need>)
    requires |xs| == |ws|
    ensures |r| == |xs| && forall i :: 0 <= i < |xs| ==> r[i] == xs[i].PassNeed(ws[i])
  {
    seq(|xs|, i requires 0 <= i < |xs| => xs[i].PassNeed(ws[i]))
  }

  function TrueNeeds(xs: seq<Extent>, ws: seq<nat>): (r: seq<Need>)
    requires |xs| == |ws|
    ensures |r| == |xs| && forall i :: 0 <= i < |xs| ==> r[i] == xs[i].TrueNeed(ws[i])
  {
    seq(|xs|, i requires 0 <= i < |xs| => xs[i].TrueNeed(ws[i]))
  }

  /** Columns between an entry's own and the one the pass starts counting at take no room, and none will be
      given any: no entry ends in them. */
  predicate NoGap(w0: seq<nat>, delim: seq<bool>, xs: seq<Extent>)
    requires |w0| == |delim|
  {
    forall x, j :: x in xs && x.last < |w0| && x.cindex <= j < Min(x.index, x.last) ==> !Widens(w0, delim, xs, j)
  }

  predicate Widens(w0: seq<nat>, delim: seq<bool>, xs: seq<Extent>, j: nat)
    requires |w0| == |delim|
  {
    j < |w0| && (w0[j] > 0 || delim[j] || EndsAt(xs, j))
  }

  predicate EndsAt(xs: seq<Extent>, j: nat) { exists y :: y in xs && y.last == j }

  lemma {:induction false} FlatBegin(w: seq<nat>, delim: seq<bool>, a: nat, b: nat)
    requires a <= b <= |w| == |delim| && forall j :: a <= j < b ==> w[j] == 0 && !delim[j]
    ensures Begin(w, delim, a) == Begin(w, delim, b)
  {
    if a < b { FlatBegin(w, delim, a, b - 1); }
  }

  /** Without gaps the pass counts the room an entry has. */
  lemma {:induction false} CountsRoom(w0: seq<nat>, delim: seq<bool>, xs: seq<Extent>, ws: seq<nat>, w: seq<nat>,
      x: Extent)
    requires |xs| == |ws| && |w0| == |delim| && Solves(w0, delim, PassNeeds(xs, ws), w) && NoGap(w0, delim, xs)
    requires x in xs && x.InPlace() && x.last < |w0|
    ensures Begin(w, delim, x.cindex) == Begin(w, delim, Min(x.index, x.last))
  {
    forall j | x.cindex <= j < Min(x.index, x.last) ensures w[j] == 0 && !delim[j] {
      WidenedEnds(w0, delim, xs, ws, w, j);
      assert !Widens(w0, delim, xs, j);
    }
    FlatBegin(w, delim, x.cindex, Min(x.index, x.last));
  }

  lemma {:induction false} WidenedEnds(w0: seq<nat>, delim: seq<bool>, xs: seq<Extent>, ws: seq<nat>, w: seq<nat>,
      j: nat)
    requires |xs| == |ws| && j < |w0| == |delim| && Solves(w0, delim, PassNeeds(xs, ws), w)
    ensures w[j] == w0[j] || EndsAt(xs, j)
  {
    if w[j] > w0[j] {
      WidenedForNeed(w0, delim, PassNeeds(xs, ws), w, j);
      var n :| n in PassNeeds(xs, ws) && n.last == j && Exact(w, delim, n);
      var i :| 0 <= i < |xs| && PassNeeds(xs, ws)[i] == n;
      assert xs[i].last == j;
    }
  }

  /** Then the layout is the least for what the entries need in truth. */
  lemma {:induction false} LeastInTruth(w0: seq<nat>, delim: seq<bool>, xs: seq<Extent>, ws: seq<nat>, w: seq<nat>,
      v: seq<nat>, k: nat)
    requires |xs| == |ws| && |w0| == |delim| && Solves(w0, delim, PassNeeds(xs, ws), w) && NoGap(w0, delim, xs)
    requires forall x :: x in xs ==> x.InPlace()
    requires Grown(w0, v) && MeetsAll(v, delim, TrueNeeds(xs, ws)) && k <= |w0|
    ensures Begin(v, delim, k) >= Begin(w, delim, k)
    decreases k
  {
    if k > 0 {
      var c := k - 1;
      LeastInTruth(w0, delim, xs, ws, w, v, c);
      if w[c] > w0[c] {
        WidenedForNeed(w0, delim, PassNeeds(xs, ws), w, c);
        var n :| n in PassNeeds(xs, ws) && n.last == c && Exact(w, delim, n);
        var i :| 0 <= i < |xs| && PassNeeds(xs, ws)[i] == n;
        var x := xs[i];
        CountsRoom(w0, delim, xs, ws, w, x);
        LeastInTruth(w0, delim, xs, ws, w, v, x.cindex);
        assert Meets(v, delim, TrueNeeds(xs, ws)[i]);
      }
    }
  }

  /** The columns before j are as w0 has them, and so is where column j begins. */
  lemma {:induction false} RaisedBegin(w0: seq<nat>, delim: seq<bool>, j: nat, x: nat, k: nat)
    requires k <= j < |w0| == |delim|
    ensures Begin(w0[j := x], delim, k) == Begin(w0, delim, k)
  {
    if k > 0 { RaisedBegin(w0, delim, j, x, k - 1); }
  }

  lemma {:induction false} GrownBegin(w0: seq<nat>, w: seq<nat>, delim: seq<bool>, k: nat)
    requires k <= |w0| == |delim| && Grown(w0, w)
    ensures Begin(w0, delim, k) <= Begin(w, delim, k)
  {
    if k > 0 { GrownBegin(w0, w, delim, k - 1); }
  }

  lemma {:induction false} RoomIsNat(w: seq<nat>, delim: seq<bool>, s: nat, e: nat)
    requires s <= e < |w| == |delim|
    ensures Room(w, delim, s, e) >= w[e]
  {
    BeginGrows(w, delim, s, e);
  }

  /** With a gap there are widths for which it is not: those of entry p and, if the gap has room only once an
      entry q that ends in it is placed, of entry q. */
  lemma {:induction false} GapCosts(w0: seq<nat>, delim: seq<bool>, xs: seq<Extent>, p: nat, j: nat)
      returns (ws: seq<nat>, v: seq<nat>)
    requires |w0| == |delim| && (forall x :: x in xs ==> x.InPlace())
    requires p < |xs| && xs[p].last < |w0| && xs[p].cindex <= j < Min(xs[p].index, xs[p].last) &&
             Widens(w0, delim, xs, j)
    ensures |ws| == |xs| && Grown(w0, v) && MeetsAll(v, delim, TrueNeeds(xs, ws))
    ensures forall w :: Solves(w0, delim, PassNeeds(xs, ws), w) ==>
              Begin(w, delim, xs[p].last + 1) > Begin(v, delim, xs[p].last + 1)
  {
    var x := xs[p];
    ws := seq(|xs|, _ => 0);
    v := w0;
    if w0[j] == 0 && !delim[j] {
      var y :| y in xs && y.last == j;
      var q :| 0 <= q < |xs| && xs[q] == y;
      var wide := Begin(w0, delim, j) + 1;
      v := w0[j := wide];
      ws := ws[q := wide];
      forall w | Grown(w0, w) && Meets(w, delim, xs[q].PassNeed(wide))
          ensures Begin(w, delim, j + 1) > Begin(w0, delim, x.cindex) {
        BeginGrows(w0, delim, x.cindex, j);
      }
      RoomIsNat(v, delim, y.cindex, j);
    } else {
      forall w | Grown(w0, w) ensures Begin(w, delim, j + 1) > Begin(w0, delim, x.cindex) {
        GrownBegin(w0, w, delim, j);
        BeginGrows(w0, delim, x.cindex, j);
      }
    }
    RoomIsNat(v, delim, x.cindex, x.last);
    ghost var had := ws;
    ws := ws[p := Room(v, delim, x.cindex, x.last)];
    forall n | n in TrueNeeds(xs, ws) ensures Meets(v, delim, n) {
      var i :| 0 <= i < |xs| && TrueNeeds(xs, ws)[i] == n;
      assert xs[i] in xs;
      if xs[i].last < |w0| { RoomIsNat(v, delim, xs[i].cindex, xs[i].last); }
    }
    RaisedBegin(w0, delim, j, v[j], x.cindex);
    assert w0[j := v[j]] == v;
    forall w | Solves(w0, delim, PassNeeds(xs, ws), w)
        ensures Begin(w, delim, x.last + 1) > Begin(v, delim, x.last + 1) {
      forall i | 0 <= i < |xs| ensures Meets(w, delim, xs[i].PassNeed(ws[i])) {
        assert PassNeeds(xs, ws)[i] in PassNeeds(xs, ws);
      }
      assert Meets(w, delim, x.PassNeed(ws[p]));
      BeginGrows(w, delim, j + 1, Min(x.index, x.last));
    }
  }

  /** The layout is the least for what the entries need in truth, whatever their widths, if and only if no
      insertion leaves a gap with room in it between an entry's column and where the pass starts counting. */
  lemma {:induction false} LeastIffNoGap(w0: seq<nat>, delim: seq<bool>, xs: seq<Extent>)
    requires |w0| == |delim| && forall x :: x in xs ==> x.InPlace()
    ensures NoGap(w0, delim, xs) <==>
            forall ws, w :: |ws| == |xs| && Solves(w0, delim, PassNeeds(xs, ws), w) ==>
                Least(w0, delim, TrueNeeds(xs, ws), w, |w|)
  {
    if NoGap(w0, delim, xs) {
      forall ws, w | |ws| == |xs| && Solves(w0, delim, PassNeeds(xs, ws), w)
          ensures Least(w0, delim, TrueNeeds(xs, ws), w, |w|) {
        forall v, k | Grown(w0, v) && MeetsAll(v, delim, TrueNeeds(xs, ws)) && 0 <= k <= |w|
          ensures Begin(v, delim, k) >= Begin(w, delim, k)
        {
          LeastInTruth(w0, delim, xs, ws, w, v, k);
        }
      }
    } else {
      var x, j :| x in xs && x.last < |w0| && x.cindex <= j < Min(x.index, x.last) && Widens(w0, delim, xs, j);
      var p :| 0 <= p < |xs| && xs[p] == x;
      var ws, v := GapCosts(w0, delim, xs, p, j);
      var w := Solution(w0, delim, PassNeeds(xs, ws));
      assert !Least(w0, delim, TrueNeeds(xs, ws), w, |w|);
    }
  }

  // ---------- Entries of lines as they are laid out ----------

  /** A counting column of a line that new_source has laid out. */
  predicate Laid(comp: Composite, e: Entry) {
    comp.Ok() && AllPlaced(e.line, |comp.delim|) && e.at < |e.line| && !e.line[e.at].kind.NonCounting?
  }

  lemma {:induction false} NumbersRise(cols: seq<SouCol>, count: nat, i: nat, j: nat)
    requires count > 0 && AllPlaced(cols, count) && i <= j < |cols|
    ensures cols[i].cindex <= cols[j].cindex <= cols[i].cindex + (j - i)
    decreases j - i
  {
    if i < j {
      NumbersRise(cols, count, i, j - 1);
      NextNumber(cols, count, j - 1);
    }
  }

  lemma {:induction false} LastNotBefore(comp: Composite, e: Entry, i: nat)
    requires Laid(comp, e) && e.Ok(comp) && e.at <= i < |e.line|
    ensures LastOf(comp, e, i) >= e.line[e.at].cindex
    decreases |e.line| - i
  {
    NumbersRise(e.line, |comp.delim|, e.at, i);
    if i + 1 < |e.line| { LastNotBefore(comp, e, i + 1); }
  }

  /** The index of an entry is never before its column, nor its last column. */
  lemma {:induction false} LaidInPlace(comp: Composite, e: Entry)
    requires Laid(comp, e)
    ensures e.Ok(comp) && ExtentOf(comp, e).InPlace()
  {
    forall k | 0 <= k < |e.line| ensures e.line[k].composite < |comp.complexIndex| {
      assert Placed(e.line, k, |comp.delim|);
    }
    assert Placed(e.line, 0, |comp.delim|) && Placed(e.line, e.at, |comp.delim|);
    NumbersRise(e.line, |comp.delim|, 0, e.at);
    LastNotBefore(comp, e, e.at);
  }

  function Extents(comp: Composite, es: seq<Entry>): (r: seq<Extent>)
    requires AllOk(comp, es)
    ensures |r| == |es| && forall i :: 0 <= i < |es| ==> r[i] == ExtentOf(comp, es[i])
  {
    seq(|es|, i requires 0 <= i < |es| => ExtentOf(comp, es[i]))
  }

  function Widths(comp: Composite, es: seq<Entry>): (r: seq<nat>)
    requires AllOk(comp, es)
    ensures |r| == |es| && forall i :: 0 <= i < |es| ==> r[i] == es[i].Width()
  {
    seq(|es|, i requires 0 <= i < |es| => es[i].Width())
  }

  /** So for the entries of laid-out lines what fix_multis leaves is the least for their true needs, as long as
      no insertion leaves a gap. */
  lemma {:induction false} LaidLeast(comp: Composite, w0: seq<nat>, entries: seq<Entry>, w: seq<nat>)
    requires AllOk(comp, entries) && (forall e :: e in entries ==> Laid(comp, e)) && |w0| == |comp.delim|
    requires Solves(w0, comp.delim, Needs(comp, entries), w) && NoGap(w0, comp.delim, Extents(comp, entries))
    ensures Least(w0, comp.delim, TrueNeeds(Extents(comp, entries), Widths(comp, entries)), w, |w|)
  {
    var xs, ws := Extents(comp, entries), Widths(comp, entries);
    assert Needs(comp, entries) == PassNeeds(xs, ws);
    forall x | x in xs ensures x.InPlace() {
      var i :| 0 <= i < |xs| && xs[i] == x;
      LaidInPlace(comp, entries[i]);
    }
    LeastIffNoGap(w0, comp.delim, xs);
  }

  /** An entry that runs to the end of its complex, on a line no longer than the composite: that is the last
      column the pass finds for it. */
  lemma {:induction false} RunsToEnd(comp: Composite, e: Entry)
    requires Laid(comp, e) && e.Ok(comp) && Spread(e.line) && Count(e.line) <= |comp.delim|
    requires e.line[e.at].kind.Span? && EndsComplex(comp, e)
    ensures LastOf(comp, e, e.at) == e.line[e.at].cindex + e.line[e.at].occupied - 1
  {
    var c := e.line[e.at];
    OwnColumn(comp, e, e.at);
    FillersNumberOn(e.line, |comp.delim|, e.at, c.occupied - 1);
    NumbersRise(e.line, |comp.delim|, e.at + c.occupied - 1, |e.line| - 1);
    WalksToTail(comp, e, e.at);
  }

  /** Its last column is the last of its complex. */
  predicate EndsComplex(comp: Composite, e: Entry)
    requires e.at < |e.line|
  {
    var c := e.line[e.at];
    c.cindex < |comp.complexIndex| && c.occupied > 0 && c.cindex + c.occupied - 1 == comp.Tail(c.cindex)
  }

  /** On such a line every counting column has a composite column of its own. */
  lemma {:induction false} OwnColumn(comp: Composite, e: Entry, i: nat)
    requires comp.Ok() && AllPlaced(e.line, |comp.delim|) && Count(e.line) <= |comp.delim| && i < |e.line|
    ensures e.line[i].cindex == e.line[i].composite < |comp.delim|
  {
    assert Placed(e.line, i, |comp.delim|) && e.line[..|e.line|] == e.line;
    CountGrows(e.line, i, |e.line|);
    if e.line[i].kind.NonCounting? {
      assert Placed(e.line, 0, |comp.delim|);
      CountGrows(e.line, 0, i);
    }
  }

  lemma {:induction false} WalksToTail(comp: Composite, e: Entry, i: nat)
    requires Laid(comp, e) && e.Ok(comp) && Count(e.line) <= |comp.delim| && e.at <= i < |e.line|
    requires e.line[e.at].cindex < |comp.complexIndex|
    requires e.line[i].cindex <= comp.Tail(e.line[e.at].cindex) <= e.line[|e.line| - 1].cindex
    ensures LastOf(comp, e, i) == comp.Tail(e.line[e.at].cindex)
    decreases |e.line| - i
  {
    var n := |comp.delim|;
    OwnColumn(comp, e, e.at);
    OwnColumn(comp, e, i);
    NumbersRise(e.line, n, e.at, i);
    if i + 1 < |e.line| {
      OwnColumn(comp, e, i + 1);
      NextNumber(e.line, n, i);
      if e.line[i + 1].cindex <= comp.Tail(e.line[e.at].cindex) { WalksToTail(comp, e, i + 1); }
    }
  }

  // ---------- What the layout is for ----------

  /** The width pf-align finds for an entry: occupied columns from composite column start, as long as both
      the composite line and the source line (with inLine columns from the entry on) go on. */
  method AlignWidth(w: seq<nat>, delim: seq<bool>, start: nat, occupied: nat, inLine: nat) returns (width: nat)
    requires |w| == |delim|
    ensures 0 < occupied <= inLine && start + occupied <= |w| ==> width == Room(w, delim, start, start + occupied - 1)
  {
    var i, cp, sp := occupied, start, 0;
    width := 0;
    while i > 0 && cp < |w| && sp < inLine
      invariant 0 <= i && cp == start + sp && sp + i == occupied && (start <= |w| ==> cp <= |w|)
      invariant start <= |w| ==>
                  width == if i > 0 || occupied == 0 then Begin(w, delim, cp) - Begin(w, delim, start)
                           else Room(w, delim, start, cp - 1)
      decreases i
    {
      width := width + w[cp];
      if i > 1 && delim[cp] { width := width + 1; }
      i, cp, sp := i - 1, cp + 1, sp + 1;
    }
  }

  /** An entry that runs to the end of its complex has room for its width. */
  lemma {:induction false} EntryFits(comp: Composite, w0: seq<nat>, entries: seq<Entry>, w: seq<nat>, e: Entry)
    requires comp.Ok() && |w0| == |comp.delim| && AllOk(comp, entries) &&
             Solves(w0, comp.delim, Needs(comp, entries), w)
    requires e in entries && Laid(comp, e) && Spread(e.line) && Count(e.line) <= |comp.delim|
    requires e.line[e.at].kind.Span? && EndsComplex(comp, e)
    ensures var c := e.line[e.at];
            c.cindex == c.composite && c.composite + c.occupied <= |w| &&
            Room(w, comp.delim, c.composite, c.composite + c.occupied - 1) >= c.width
  {
    LaidInPlace(comp, e);
    RunsToEnd(comp, e);
    OwnColumn(comp, e, e.at);
    var i :| 0 <= i < |entries| && entries[i] == e;
    var n := Needs(comp, entries)[i];
    assert n in Needs(comp, entries) && Meets(w, comp.delim, n);
    BeginGrows(w, comp.delim, n.last - (e.line[e.at].occupied - 1), Min(n.start, n.last));
  }

  /** The padding pf-align prints after a text or sign entry, from the widths the pass has left: never negative
      for an entry in one column, nor for one over several that runs to the end of its complex, on a line no
      longer than its composite. A divider takes room on both sides. */
  method Padding(comp: Composite, w: seq<nat>, divider: seq<bool>, e: Entry,
                 ghost w0: seq<nat>, ghost before: seq<nat>, ghost entries: seq<Entry>) returns (pad: int)
    requires Laid(comp, e) && e.Ok(comp) && Spread(e.line) && |w| == |w0| == |divider| == |comp.delim|
    requires AllOk(comp, entries) && Solves(w0, comp.delim, Needs(comp, entries), w) && Fits(e.line, w0, before)
    ensures var c := e.line[e.at];
            if !c.textEntry || c.occupied == 1 then
              pad == w[c.composite] + (if divider[c.composite] then 2 else 0) - c.width
            else 0 < c.occupied <= |e.line| - e.at && c.composite + c.occupied <= |w| ==>
                   pad == Room(w, comp.delim, c.composite, c.composite + c.occupied - 1) - c.width
    ensures e.line[e.at].kind.Single? ==> pad >= 0
    ensures e.line[e.at].kind.Span? && e in entries && Count(e.line) <= |comp.delim| && EndsComplex(comp, e) ==>
            pad >= 0
  {
    hide Solves, Fits;
    var c := e.line[e.at];
    LaidInPlace(comp, e);
    if c.kind.Span? && e in entries && Count(e.line) <= |comp.delim| && EndsComplex(comp, e) {
      EntryFits(comp, w0, entries, w, e);
    }
    if c.kind.Single? { SingleFits(comp, w0, before, Needs(comp, entries), w, e); }
    if !c.textEntry || c.occupied == 1 {
      pad := w[c.composite] + (if divider[c.composite] then 2 else 0) - c.width;
    } else {
      var width := AlignWidth(w, comp.delim, c.composite, if c.occupied > 0 then c.occupied else 0, |e.line| - e.at);
      pad := width - c.width;
    }
  }

  lemma {:induction false} SingleFits(comp: Composite, w0: seq<nat>, before: seq<nat>, needs: seq<Need>, w: seq<nat>,
      e: Entry)
    requires Laid(comp, e) && |w0| == |comp.delim| && Solves(w0, comp.delim, needs, w) && Fits(e.line, w0, before)
    requires e.line[e.at].kind.Single?
    ensures e.line[e.at].occupied == 1 && e.line[e.at].composite < |w| &&
            e.line[e.at].width <= w[e.line[e.at].composite]
  {
    assert Placed(e.line, e.at, |w|);
  }

  // ---------- A line without the space ----------

  /** After the siglum a text entry, on a line that stops inside its complex of two columns, between which there is
      no delimiter. */
  function ShortEntry(width: nat): Entry {
    Entry([SouCol(Single, 0, 0, 0, 1, 3, false), SouCol(Single, 1, 1, 1, 1, width, true)], 1)
  }

  function ShortComposite(): Composite { Composite([true, false, true], [0, 1, 1]) }

  lemma {:induction false} ShortNeeds(width: nat)
    ensures Laid(ShortComposite(), ShortEntry(width)) && ShortEntry(width).Ok(ShortComposite())
    ensures Needs(ShortComposite(), [ShortEntry(width)]) == [Need(1, 1, width)]
  {
    var comp, e := ShortComposite(), ShortEntry(width);
    assert e.line[..0] == [] && e.line[..1][..0] == e.line[..0];
    forall k | 0 <= k < 2 ensures Placed(e.line, k, 3) {}
    LaidInPlace(comp, e);
    assert LastOf(comp, e, 1) == 1;
    assert Needs(comp, [e])[0] == Need(1, 1, width);
  }

  /** As wide as its column or wider, it gets no space after it. */
  lemma {:induction false} NoSpaceAfter(w0: seq<nat>, width: nat, w: seq<nat>)
    requires ShortEntry(width).Ok(ShortComposite()) && |w0| == 3 && w0[1] <= width
    requires Solves(w0, ShortComposite().delim, Needs(ShortComposite(), [ShortEntry(width)]), w)
    ensures Laid(ShortComposite(), ShortEntry(width)) && !ShortComposite().delim[1]
    ensures w[1] == width && Room(w, ShortComposite().delim, 1, 1) < width + 1
  {
    var delim, n := ShortComposite().delim, Need(1, 1, width);
    ShortNeeds(width);
    assert Meets(w, delim, n) && Room(w, delim, 1, 1) == w[1];
    if w[1] > w0[1] { WidenedForNeed(w0, delim, [n], w, 1); }
  }

  // ---------- A line with a gap ----------

  /** After the siglum an insertion, then an entry of width 13 over the two columns of a complex. */
  function GapLine(): seq<SouCol> {
    [SouCol(Single, 0, 0, 0, 1, 3, false), SouCol(NonCounting, 1, 0, 0, 0, 1, true),
     SouCol(Span, 2, 1, 1, 2, 13, true), SouCol(Filler, 3, 2, 2, 0, 0, true)]
  }

  lemma {:induction false} GapLineIsLaid()
    ensures AllPlaced(GapLine(), 3) && Spread(GapLine()) && Count(GapLine()) == 3
  {
    var l := GapLine();
    assert l[..0] == [] && l[..1][..0] == l[..0] && l[..2][..1] == l[..1] && l[..3][..2] == l[..2] &&
           l[..4][..3] == l[..3];
    assert l[..4] == l;
    forall k | 0 <= k < 4 ensures Placed(l, k, 3) {}
  }

  lemma {:induction false} ThreeColumns(v: seq<nat>, d: seq<bool>)
    requires |v| == |d| == 3 && d == [true, true, true]
    ensures Begin(v, d, 0) == 0 && Begin(v, d, 1) == v[0] + 1 && Begin(v, d, 2) == v[0] + v[1] + 2 &&
            Begin(v, d, 3) == v[0] + v[1] + v[2] + 3
  {
  }

  function GapComposite(): Composite { Composite([true, true, true], [0, 1, 1]) }

  function GapEntry(): Entry { Entry(GapLine(), 2) }

  lemma {:induction false} GapNeeds()
    ensures Laid(GapComposite(), GapEntry()) && GapEntry().Ok(GapComposite())
    ensures ExtentOf(GapComposite(), GapEntry()) == Extent(2, 1, 2)
    ensures Needs(GapComposite(), [GapEntry()]) == [Need(2, 2, 13)]
  {
    var comp, e := GapComposite(), GapEntry();
    GapLineIsLaid();
    LaidInPlace(comp, e);
    assert LastOf(comp, e, 3) == 2 && LastOf(comp, e, 2) == 2;
    assert Needs(comp, [e])[0] == Need(2, 2, 13);
  }

  lemma {:induction false} GapSolved(w: seq<nat>)
    requires Solves([4, 4, 4], [true, true, true], [Need(2, 2, 13)], w)
    ensures w == [4, 4, 13] && Meets([4, 4, 8], [true, true, true], Extent(2, 1, 2).TrueNeed(13))
  {
    var d, n, u, v := [true, true, true], Need(2, 2, 13), [4, 4, 13], [4, 4, 8];
    ThreeColumns(w, d);
    ThreeColumns(u, d);
    ThreeColumns(v, d);
    assert Meets(w, d, n) && Meets(u, d, n) && Grown([4, 4, 4], u);
    assert Begin(u, d, 1) >= Begin(w, d, 1) && Begin(u, d, 2) >= Begin(w, d, 2) && Begin(u, d, 3) >= Begin(w, d, 3);
  }

  /** Where columns are 4 wide the pass makes the entry's last column 13 wide: it counts from the entry's index.
      From the entry's column 8 would do. */
  lemma {:induction false} InsertionWidens(w: seq<nat>)
    requires GapEntry().Ok(GapComposite()) &&
             Solves([4, 4, 4], GapComposite().delim, Needs(GapComposite(), [GapEntry()]), w)
    ensures Laid(GapComposite(), GapEntry()) && w == [4, 4, 13]
    ensures Meets([4, 4, 8], GapComposite().delim, ExtentOf(GapComposite(), GapEntry()).TrueNeed(13))
  {
    GapNeeds();
    GapSolved(w);
  }
}
