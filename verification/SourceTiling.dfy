/** Laying a source line out under its composite line: new_source and its helpers. */
module SourceTiling {
  /** An entry of a source line, after tokenising. */
  datatype Item =
    | Extra(width: nat, tilde: bool)                     // takes no column: ~ or one of / ; %
    | Apocopated(width: nat)                             // the rest of the line is broken away
    | Sign(width: nat)
    | Text(width: nat, explicitDelim: bool)              // a text entry in one column
    | Spanning(width: nat, explicitDelim: bool, ncols: int)  // ncols from &<digits>, -1 without

  datatype Kind = Single | Span | Apocope | Filler | NonCounting

  datatype SouCol = SouCol(kind: Kind, index: nat, cindex: nat, composite: nat, occupied: int, width: nat,
      textEntry: bool)

  /** The composite line: which columns have a delimiter, and the index of the complex each belongs to. */
  datatype Composite = Composite(delim: seq<bool>, complexIndex: seq<nat>) {
    predicate Ok() { |delim| == |complexIndex| > 0 }

    /** First column of the complex around column j. */
    function Head(j: nat): (h: nat)
      requires j < |complexIndex|
      ensures h <= j
      ensures forall i :: h <= i <= j ==> complexIndex[i] == complexIndex[j]
      ensures h > 0 ==> complexIndex[h - 1] != complexIndex[j]
    {
      if j == 0 || complexIndex[j - 1] != complexIndex[j] then j else Head(j - 1)
    }

    /** Last column of the complex around column j. */
    function Tail(j: nat): (t: nat)
      requires j < |complexIndex|
      ensures j <= t < |complexIndex|
      ensures forall i :: j <= i <= t ==> complexIndex[i] == complexIndex[j]
      ensures t + 1 < |complexIndex| ==> complexIndex[t + 1] != complexIndex[j]
      decreases |complexIndex| - j
    {
      if j + 1 == |complexIndex| || complexIndex[j + 1] != complexIndex[j] then j else Tail(j + 1)
    }

    /** complex_columns: how many columns that complex has. */
    function ComplexColumns(j: nat): (n: nat)
      requires j < |complexIndex|
      ensures n > 0
    {
      Tail(j) - Head(j) + 1
    }

    /** Columns a..b are all of one complex, and neither neighbour is. */
    predicate IsComplex(a: nat, b: nat) {
      && a <= b < |complexIndex| && (forall i :: a <= i <= b ==> complexIndex[i] == complexIndex[a])
      && (a > 0 ==> complexIndex[a - 1] != complexIndex[a])
      && (b + 1 < |complexIndex| ==> complexIndex[b + 1] != complexIndex[a])
    }

    /** Every column lies in one. */
    lemma {:induction false} ComplexAround(j: nat) returns (a: nat, b: nat)
      requires j < |complexIndex|
      ensures a <= j <= b && IsComplex(a, b)
    {
      a, b := Head(j), Tail(j);
    }

    /** However the complex is found from one of its columns, it has as many columns as there are from its first to
        its last. */
    lemma {:induction false} CountsComplex(a: nat, j: nat, b: nat)
      requires IsComplex(a, b) && a <= j <= b
      ensures ComplexColumns(j) == b - a + 1
    {
    }
  }

  /** Columns that count: all but the non-counting ones. */
  function Count(cols: seq<SouCol>): nat {
    if cols == [] then 0
    else Count(cols[..|cols| - 1]) + if cols[|cols| - 1].kind.NonCounting? then 0 else 1
  }

  function Occupied(cols: seq<SouCol>): int {
    if cols == [] then 0 else Occupied(cols[..|cols| - 1]) + cols[|cols| - 1].occupied
  }

  function Clamp(n: nat, count: nat): nat
    requires count > 0
  {
    if n < count then n else count - 1
  }

  /** Column k has the number of counting columns before it; a non-counting one that of the counting
      column it follows. Its composite column is the one of that number, or the last. */
  predicate Placed(cols: seq<SouCol>, k: nat, count: nat)
    requires k < |cols| && count > 0
  {
    var c := cols[k];
    && c.index == k
    && c.cindex == Count(cols[..k]) - (if c.kind.NonCounting? then 1 else 0)
    && c.composite == Clamp(c.cindex, count)
    && (c.kind.NonCounting? || c.kind.Filler? ==> c.occupied == 0)
    && (c.kind.Single? ==> c.occupied == 1)
  }

  predicate AllPlaced(cols: seq<SouCol>, count: nat)
    requires count > 0
  {
    && (forall k :: 0 <= k < |cols| ==> Placed(cols, k, count))
    && (|cols| > 0 ==> cols[0].kind.Single? && cols[0].occupied == 1)
  }

  /** Equal but for widths. */
  predicate SameShape(a: seq<SouCol>, b: seq<SouCol>) {
    |a| == |b| && forall k :: 0 <= k < |a| ==> a[k] == b[k].(width := a[k].width)
  }

  lemma {:induction false} ShapesAgree(a: seq<SouCol>, b: seq<SouCol>, c: seq<SouCol>)
    ensures SameShape(a, a)
    ensures SameShape(a, b) && SameShape(b, c) ==> SameShape(a, c)
  {
  }

  lemma {:induction false} ShapeCounts(a: seq<SouCol>, b: seq<SouCol>)
    requires SameShape(a, b)
    ensures Count(a) == Count(b) && Occupied(a) == Occupied(b)
  {
    if a != [] {
      ShapeCounts(a[..|a| - 1], b[..|b| - 1]);
    }
  }

  lemma {:induction false} ShapePlaced(a: seq<SouCol>, b: seq<SouCol>, count: nat)
    requires SameShape(a, b) && count > 0 && AllPlaced(b, count)
    ensures AllPlaced(a, count)
  {
    forall k | 0 <= k < |a| ensures Placed(a, k, count) {
      assert Placed(b, k, count);
      ShapeCounts(a[..k], b[..k]);
    }
  }

  lemma {:induction false} AppendPlaced(cols: seq<SouCol>, c: SouCol, count: nat)
    requires count > 0 && AllPlaced(cols, count)
    requires c.index == |cols| && c.composite == Clamp(c.cindex, count)
    requires c.cindex == Count(cols) - (if c.kind.NonCounting? then 1 else 0)
    requires c.kind.NonCounting? || c.kind.Filler? ==> c.occupied == 0
    requires c.kind.Single? ==> c.occupied == 1
    requires cols == [] ==> c.kind.Single? && c.occupied == 1
    ensures AllPlaced(cols + [c], count)
    ensures Count(cols + [c]) == Count(cols) + if c.kind.NonCounting? then 0 else 1
    ensures Occupied(cols + [c]) == Occupied(cols) + c.occupied
  {
    var t := cols + [c];
    assert t[..|t| - 1] == cols;
    forall k | 0 <= k < |t| ensures Placed(t, k, count) {
      if k < |cols| {
        assert Placed(cols, k, count) && t[..k] == cols[..k];
      }
    }
  }

  /** Each composite column has its column, and only one. */
  ghost predicate Tiles(cols: seq<SouCol>, count: nat) {
    && (forall j :: 0 <= j < count ==> IsHit(cols, j))
    && (forall k, l, j :: 0 <= k < l < |cols| && Hits(cols[k], j) ==> !Hits(cols[l], j))
  }

  predicate IsHit(cols: seq<SouCol>, j: nat) { exists k :: 0 <= k < |cols| && Hits(cols[k], j) }

  predicate Hits(c: SouCol, j: nat) { !c.kind.NonCounting? && c.composite == j }

  lemma {:induction false} CountGrows(cols: seq<SouCol>, k: nat, l: nat)
    requires k <= l <= |cols|
    ensures Count(cols[..k]) <= Count(cols[..l])
    ensures k < l && !cols[k].kind.NonCounting? ==> Count(cols[..k]) < Count(cols[..l])
    decreases l - k
  {
    if k < l {
      CountGrows(cols, k, l - 1);
      assert cols[..l][..l - 1] == cols[..l - 1];
    }
  }

  /** The column with number j. */
  lemma {:induction false} NumberJ(cols: seq<SouCol>, n: nat, j: nat) returns (k: nat)
    requires n <= |cols| && j < Count(cols[..n])
    ensures k < n && !cols[k].kind.NonCounting? && Count(cols[..k]) == j
  {
    assert cols[..n][..n - 1] == cols[..n - 1];
    if j < Count(cols[..n - 1]) { k := NumberJ(cols, n - 1, j); } else { k := n - 1; }
  }

  /** A line tiles its composite exactly when it has as many counting columns. */
  lemma {:induction false} PlacedTiles(cols: seq<SouCol>, count: nat)
    requires count > 0 && AllPlaced(cols, count)
    ensures Tiles(cols, count) <==> Count(cols) == count
  {
    if Count(cols) == count {
      FullTiles(cols, count);
    } else if Count(cols) < count {
      ShortMisses(cols, count);
    } else {
      LongHitsTwice(cols, count);
    }
  }

  /** With too few, the next composite column is not hit. */
  lemma {:induction false} ShortMisses(cols: seq<SouCol>, count: nat)
    requires Count(cols) < count && AllPlaced(cols, count)
    ensures !IsHit(cols, Count(cols))
  {
    assert cols[..|cols|] == cols;
    forall k | 0 <= k < |cols| ensures !Hits(cols[k], Count(cols)) {
      assert Placed(cols, k, count);
      CountGrows(cols, k, |cols|);
    }
  }

  /** With too many, two of them hit the last composite column. */
  lemma {:induction false} LongHitsTwice(cols: seq<SouCol>, count: nat)
    requires 0 < count < Count(cols) && AllPlaced(cols, count)
    ensures !Tiles(cols, count)
  {
    assert cols[..|cols|] == cols;
    var k := NumberJ(cols, |cols|, count - 1);
    var l := NumberJ(cols, |cols|, count);
    assert Placed(cols, k, count) && Placed(cols, l, count);
    assert Hits(cols[k], count - 1) && Hits(cols[l], count - 1);
    if l < k { CountGrows(cols, l, k); }
  }

  lemma {:induction false} FullTiles(cols: seq<SouCol>, count: nat)
    requires count > 0 && AllPlaced(cols, count) && Count(cols) == count
    ensures Tiles(cols, count)
  {
    assert cols[..|cols|] == cols;
    forall j | 0 <= j < count ensures IsHit(cols, j) {
      var k := NumberJ(cols, |cols|, j);
      assert Placed(cols, k, count) && Hits(cols[k], j);
    }
    forall k, l, j | 0 <= k < l < |cols| && Hits(cols[k], j) ensures !Hits(cols[l], j) {
      assert Placed(cols, k, count) && Placed(cols, l, count);
      CountGrows(cols, k, l);
      CountGrows(cols, l, |cols|);
      if !cols[l].kind.NonCounting? {
        assert Count(cols[..l]) < count;
      }
    }
  }

  /** Composite columns filled once the items are laid out from column `from` on. */
  function Reach(comp: Composite, items: seq<Item>, from: nat): nat
    requires comp.Ok()
  {
    if items == [] then from
    else Reach(comp, items[1..], from + Takes(comp, items[0], from))
  }

  function Takes(comp: Composite, item: Item, from: nat): nat
    requires comp.Ok()
  {
    var n := |comp.delim|;
    match item
    case Extra(_, _) => 0
    case Apocopated(_) => if from < n then n - from else 0
    case Sign(_) => 1
    case Text(_, _) => 1
    case Spanning(_, _, ncols) => if ncols > 0 then ncols else comp.ComplexColumns(Clamp(from, n))
  }

  /** No line is broken off where it is already full. */
  predicate BreaksInside(comp: Composite, items: seq<Item>, from: nat)
    requires comp.Ok()
  {
    items == [] ||
    ((items[0].Apocopated? ==> from < |comp.delim|) &&
     BreaksInside(comp, items[1..], from + Takes(comp, items[0], from)))
  }

  /** Some column under composite column j is that wide. */
  predicate HasWidth(cols: seq<SouCol>, j: nat, w: nat) {
    exists k :: 0 <= k < |cols| && cols[k].composite == j && cols[k].width >= w
  }

  function Max(a: nat, b: nat): nat { if a < b then b else a }

  /** The column a non-counting one hangs on: the nearest to the left, from k on, that occupies some. */
  function Holder(cols: seq<SouCol>, k: nat): (h: nat)
    requires k < |cols|
    ensures h <= k && forall i :: h < i <= k ==> cols[i].kind.Filler? || cols[i].occupied == 0
    ensures h > 0 ==> !cols[h].kind.Filler? && cols[h].occupied != 0
  {
    if k == 0 || !(cols[k].kind.Filler? || cols[k].occupied == 0) then k else Holder(cols, k - 1)
  }

  lemma {:induction false} GrownSelf(a: seq<nat>)
    ensures Grown(a, a)
  {
  }

  predicate Grown(a: seq<nat>, b: seq<nat>) {
    |a| == |b| && forall j :: 0 <= j < |a| ==> a[j] <= b[j]
  }

  /** The widths m of the composite columns suit the columns: one of its own is never wider than its composite
      column, and no composite column is wider than it was before the line, or than some column under it. */
  predicate Fits(cols: seq<SouCol>, m: seq<nat>, before: seq<nat>) {
    && |m| == |before|
    && (forall k :: 0 <= k < |cols| && cols[k].kind.Single? ==>
        cols[k].composite < |m| && cols[k].width <= m[cols[k].composite])
    && forall j :: 0 <= j < |m| ==> m[j] <= before[j] || HasWidth(cols, j, m[j])
  }

  /** Column k gets width w, and its composite column width x. */
  lemma {:induction false} WidenKeeps(cols: seq<SouCol>, m: seq<nat>, before: seq<nat>, k: nat, w: nat, x: nat)
    requires k < |cols| && 0 < |m| && AllPlaced(cols, |m|) && Fits(cols, m, before)
    requires cols[k].width <= w && cols[k].composite < |m|
    requires var y := m[cols[k].composite]; y <= x && (x == y || x <= w) && (cols[k].kind.Single? ==> w <= x)
    ensures var t, n := cols[k := cols[k].(width := w)], m[cols[k].composite := x];
            && AllPlaced(t, |m|) && Fits(t, n, before) && Grown(m, n)
            && Count(t) == Count(cols) && Occupied(t) == Occupied(cols)
  {
    var t, n := cols[k := cols[k].(width := w)], m[cols[k].composite := x];
    ShapePlaced(t, cols, |m|);
    ShapeCounts(t, cols);
    forall j | 0 <= j < |n| ensures n[j] <= before[j] || HasWidth(t, j, n[j]) {
      if HasWidth(cols, j, m[j]) {
        var i :| 0 <= i < |cols| && cols[i].composite == j && cols[i].width >= m[j];
        assert t[i].composite == j && t[i].width >= m[j];
      }
      if j == cols[k].composite && x <= w { assert t[k].composite == j; }
    }
  }

  /** One more column, with its composite column widened to it if it is one of its own. */
  lemma {:induction false} AppendFits(cols: seq<SouCol>, m: seq<nat>, before: seq<nat>, c: SouCol)
    requires Fits(cols, m, before) && c.composite < |m|
    ensures var n := m[c.composite := if c.kind.Single? then Max(m[c.composite], c.width) else m[c.composite]];
            Fits(cols + [c], n, before) && Grown(m, n)
  {
    var t, n := cols + [c], m[c.composite := if c.kind.Single? then Max(m[c.composite], c.width) else m[c.composite]];
    forall j | 0 <= j < |n| ensures n[j] <= before[j] || HasWidth(t, j, n[j]) {
      if HasWidth(cols, j, m[j]) {
        var i :| 0 <= i < |cols| && cols[i].composite == j && cols[i].width >= m[j];
        assert t[i] == cols[i];
      }
      assert t[|cols|] == c;
    }
  }

  /** What holds of a line's columns, the composite widths and the two counts after every entry. */
  predicate Sound(cols: seq<SouCol>, m: seq<nat>, before: seq<nat>, cindex: nat, columnCount: int) {
    && m != [] && AllPlaced(cols, |m|) && Fits(cols, m, before)
    && Count(cols) == cindex && Occupied(cols) == columnCount
  }

  lemma {:induction false} AppendSound(cols: seq<SouCol>, m: seq<nat>, before: seq<nat>, cindex: nat,
      columnCount: int, c: SouCol)
    requires Sound(cols, m, before, cindex, columnCount)
    requires c.index == |cols| && c.composite == Clamp(c.cindex, |m|)
    requires c.cindex == cindex - (if c.kind.NonCounting? then 1 else 0)
    requires c.kind.NonCounting? || c.kind.Filler? ==> c.occupied == 0
    requires c.kind.Single? ==> c.occupied == 1
    requires cols == [] ==> c.kind.Single?
    ensures var n := m[c.composite := if c.kind.Single? then Max(m[c.composite], c.width) else m[c.composite]];
            && Sound(cols + [c], n, before, cindex + (if c.kind.NonCounting? then 0 else 1), columnCount + c.occupied)
            && Grown(m, n)
  {
    hide AllPlaced, Fits, Count, Occupied, Grown;
    AppendPlaced(cols, c, |m|);
    AppendFits(cols, m, before, c);
  }

  /** More columns, all of them fillers. */
  predicate Filled(before: seq<SouCol>, after: seq<SouCol>) {
    && |before| <= |after| && after[..|before|] == before
    && forall k :: |before| <= k < |after| ==> after[k].kind.Filler? && after[k].width == 0 && after[k].textEntry
  }

  /** After a column that spans come the fillers for the rest of what it occupies. */
  predicate Spread(cols: seq<SouCol>) {
    forall k :: 0 <= k < |cols| && cols[k].kind.Span? ==>
      && 0 < cols[k].occupied <= |cols| - k && cols[k].textEntry
      && forall i :: k < i < k + cols[k].occupied ==> cols[i].kind.Filler?
  }

  /** An entry's columns after those before it. */
  lemma {:induction false} SpreadOn(left: seq<SouCol>, cols: seq<SouCol>)
    requires Spread(left) && |left| < |cols| && SameShape(cols[..|left|], left) && Filled(cols[..|left| + 1], cols)
    requires cols[|left|].kind.Span? ==> cols[|left|].occupied == |cols| - |left| && cols[|left|].textEntry
    ensures Spread(cols)
  {
    forall k | 0 <= k < |cols| && cols[k].kind.Span?
      ensures 0 < cols[k].occupied <= |cols| - k && cols[k].textEntry
      ensures forall i :: k < i < k + cols[k].occupied ==> cols[i].kind.Filler?
    {
      if k < |left| {
        assert cols[..|left|][k] == left[k].(width := cols[..|left|][k].width);
        forall i | k < i < k + cols[k].occupied ensures cols[i].kind.Filler? {
          assert cols[..|left|][i] == left[i].(width := cols[..|left|][i].width);
        }
      }
    }
  }

  /** The column of an entry; one that spans occupies what it says, or its whole complex. */
  predicate ItemAt(comp: Composite, item: Item, c: SouCol)
    requires comp.Ok()
  {
    match item
    case Extra(_, _) => c.kind.NonCounting?
    case Apocopated(_) => c.kind.Apocope?
    case Sign(_) => c.kind.Single? && !c.textEntry
    case Text(_, _) => c.kind.Single? && c.textEntry
    case Spanning(_, _, ncols) =>
      && c.kind.Span? && c.composite < |comp.delim|
      && c.occupied == if ncols > 0 then ncols else comp.ComplexColumns(c.composite)
  }

  /** The entries' columns, in order, with fillers only between them. */
  predicate InOrder(comp: Composite, items: seq<Item>, cols: seq<SouCol>, at: seq<nat>)
    requires comp.Ok()
  {
    && |at| == |items|
    && (forall i :: 0 <= i < |at| ==> 0 < at[i] < |cols| && ItemAt(comp, items[i], cols[at[i]]))
    && (forall h, i :: 0 <= h < i < |at| ==> at[h] < at[i])
    && forall k :: 0 < k < |cols| ==> k in at || cols[k].kind.Filler?
  }

  /** One more entry. */
  lemma {:induction false} InOrderMore(comp: Composite, items: seq<Item>, left: seq<SouCol>, at: seq<nat>, item: Item,
      cols: seq<SouCol>)
    requires comp.Ok() && InOrder(comp, items, left, at) && 0 < |left| < |cols|
    requires SameShape(cols[..|left|], left) && Filled(cols[..|left| + 1], cols) && ItemAt(comp, item, cols[|left|])
    ensures InOrder(comp, items + [item], cols, at + [|left|])
  {
    var more, places := items + [item], at + [|left|];
    forall k | 0 < k < |left| ensures cols[k] == left[k].(width := cols[k].width) {
      assert cols[..|left|][k] == cols[k];
    }
    forall i | 0 <= i < |places| ensures 0 < places[i] < |cols| && ItemAt(comp, more[i], cols[places[i]]) {
      if i < |at| { assert ItemAt(comp, items[i], left[at[i]]); }
    }
    forall k | 0 < k < |cols| ensures k in places || cols[k].kind.Filler? {
      if k < |left| {
        if k in at { var i :| 0 <= i < |at| && at[i] == k; assert places[i] == k; }
      } else if k == |left| {
        assert places[|at|] == k;
      }
    }
  }

  lemma {:induction false} ApocopeAt(comp: Composite, c: SouCol)
    requires comp.Ok() && c.kind.Apocope?
    ensures ItemAt(comp, Apocopated(0), c)
  {
  }

  lemma {:induction false} ItemKind(comp: Composite, item: Item, c: SouCol)
    requires comp.Ok() && ItemAt(comp, item, c)
    ensures c.kind.Span? <==> item.Spanning?
  {
  }

  /** An entry without a number of columns of its own, set where its complex begins: its column and the fillers after
      it are those of the complex, no more and no fewer. */
  lemma {:induction false} SpansItsComplex(comp: Composite, cols: seq<SouCol>, at: nat, item: Item, a: nat, b: nat)
    requires comp.Ok() && AllPlaced(cols, |comp.delim|) && Spread(cols) && at < |cols|
    requires item.Spanning? && item.ncols <= 0 && ItemAt(comp, item, cols[at])
    requires comp.IsComplex(a, b) && cols[at].cindex == a
    ensures cols[at].occupied == b - a + 1 && at + (b - a) < |cols|
    ensures forall k :: at <= k <= at + (b - a) ==>
              cols[k].composite == a + (k - at) && if k == at then cols[k].kind.Span? else cols[k].kind.Filler?
  {
    assert Placed(cols, at, |comp.delim|);
    comp.CountsComplex(a, a, b);
    forall k | at <= k <= at + (b - a) ensures k < |cols| && cols[k].composite == a + (k - at) {
      FillersNumberOn(cols, |comp.delim|, at, k - at);
      assert Placed(cols, k, |comp.delim|);
    }
  }

  /** From one column to the next the number stays or goes up by one. */
  lemma {:induction false} NextNumber(cols: seq<SouCol>, count: nat, i: nat)
    requires count > 0 && AllPlaced(cols, count) && i + 1 < |cols|
    ensures cols[i + 1].cindex == cols[i].cindex + if cols[i + 1].kind.NonCounting? then 0 else 1
  {
    assert Placed(cols, i, count) && Placed(cols, i + 1, count);
    assert cols[..i + 1][..i] == cols[..i];
  }

  /** The columns an entry occupies: the fillers after it are numbered on. */
  lemma {:induction false} FillersNumberOn(cols: seq<SouCol>, count: nat, at: nat, i: nat)
    requires count > 0 && AllPlaced(cols, count) && Spread(cols) && at < |cols| && cols[at].kind.Span? &&
             i < cols[at].occupied
    ensures at + i < |cols| && cols[at + i].cindex == cols[at].cindex + i
  {
    if i > 0 {
      FillersNumberOn(cols, count, at, i - 1);
      NextNumber(cols, count, at + i - 1);
    }
  }

  class SourceLine {
    const composite: Composite
    var maxwidth: array<nat>     // of the composite columns
    var columns: seq<SouCol>     // the last is curr_sou_col
    var columnCount: int
    var cindex: nat
    var multis: seq<nat>         // columns put on multi_column_entries
    ghost const before: seq<nat> // maxwidth before this line

    constructor (composite: Composite, maxwidth: array<nat>)
      requires composite.Ok() && maxwidth.Length == |composite.delim|
      ensures this.composite == composite && this.maxwidth == maxwidth
      ensures columns == [] && columnCount == 0 && cindex == 0 && multis == [] && before == maxwidth[..]
    {
      this.composite, this.maxwidth, before := composite, maxwidth, maxwidth[..];
      columns, columnCount, cindex, multis := [], 0, 0, [];
    }

    ghost predicate Ok()
      reads this, maxwidth
    {
      && composite.Ok() && maxwidth.Length == |composite.delim|
      && Sound(columns, maxwidth[..], before, cindex, columnCount)
    }

    /** No composite column got narrower. */
    twostate predicate Widened()
      reads this, maxwidth
    {
      maxwidth == old(maxwidth) && Grown(old(maxwidth[..]), maxwidth[..])
    }

    /** corresponding_cmp_col: the composite column with index n, or the last one. */
    method CorrespondingCmpCol(n: nat) returns (j: nat)
      requires maxwidth.Length > 0
      ensures j == if n < maxwidth.Length then n else maxwidth.Length - 1
    {
      j := 0;
      while j < maxwidth.Length && j != n
        invariant j <= n && j <= maxwidth.Length
      {
        j := j + 1;
      }
      if j == maxwidth.Length { j := j - 1; }
    }

    /** Put w in column k, and see that its composite column has that much room when asked to. */
    method Widen(k: nat, w: nat, raise: bool)
      requires Ok() && k < |columns| && columns[k].width <= w
      requires columns[k].kind.Single? ==> raise || w <= maxwidth[columns[k].composite]
      modifies this`columns, maxwidth
      ensures Ok() && Widened()
      ensures columns == old(columns)[k := old(columns[k]).(width := w)]
      ensures var j := old(columns[k]).composite;
              j < maxwidth.Length && maxwidth[..] == old(maxwidth[..])[j := if raise then Max(old(maxwidth[j]), w)
                  else old(maxwidth[j])]
    {
      hide Fits;
      assert Placed(columns, k, maxwidth.Length);
      Width(k);
      var c := columns[k];
      ghost var m := maxwidth[..];
      WidenKeeps(columns, m, before, k, w, if raise then Max(m[c.composite], w) else m[c.composite]);
      columns := columns[k := c.(width := w)];
      if raise && w > maxwidth[c.composite] {
        maxwidth[c.composite] := w;
      }
      assert maxwidth[..] == m[c.composite := if raise then Max(m[c.composite], w) else m[c.composite]];
    }

    lemma Width(k: nat)
      requires Ok() && k < |columns|
      ensures columns[k].composite < maxwidth.Length
      ensures columns[k].kind.Single? ==> columns[k].width <= maxwidth[columns[k].composite]
    {
      assert Placed(columns, k, maxwidth.Length);
    }

    /** A zero-width delimiter between two text entries costs the left one a space: see that there is room. */
    method Compensate(textEntry: bool, explicitDelim: bool)
      requires Ok()
      modifies this`columns, maxwidth
      ensures Ok() && Widened() && SameShape(columns, old(columns))
      ensures var k := |old(columns)| - 1;
              if !explicitDelim && textEntry && k > 0 && old(columns[k]).textEntry
                 && !composite.delim[Clamp(old(columns[k]).cindex, |composite.delim|)] then
                var c, j := old(columns[k]), old(columns[k]).composite;
                && columns == old(columns)[k := c.(width := c.width + 1)] && j < maxwidth.Length
                && maxwidth[..] == old(maxwidth[..])[j := if c.width < old(maxwidth[j]) then old(maxwidth[j])
                    else old(maxwidth[j]) + 1]
              else columns == old(columns) && maxwidth[..] == old(maxwidth[..])
    {
      var k := |columns| - 1;
      hide Fits;
      if k > 0 {
        assert Placed(columns, k, maxwidth.Length);
        Width(k);
      }
      if !explicitDelim && textEntry && k > 0 && columns[k].textEntry {
        if !composite.delim[columns[k].composite] {
          var c := columns[k];
          ghost var m := maxwidth[..];
          ghost var x := if c.width + 1 > m[c.composite] then m[c.composite] + 1 else m[c.composite];
          WidenKeeps(columns, m, before, k, c.width + 1, x);
          columns := columns[k := c.(width := c.width + 1)];
          if c.width + 1 > maxwidth[c.composite] {
            maxwidth[c.composite] := maxwidth[c.composite] + 1;
          }
          assert maxwidth[..] == m[c.composite := x];
        }
      }
    }

    /** new_source_column and basic_source_setup, with the settings each kind of column gets next. */
    method AddColumn(kind: Kind, width: nat, textEntry: bool, occupied: int)
      requires Ok()
      requires kind.NonCounting? || kind.Filler? ==> occupied == 0
      requires kind.Single? ==> occupied == 1
      requires columns == [] ==> kind.Single?
      modifies this`columns, this`columnCount, this`cindex, maxwidth
      ensures Ok() && Widened()
      ensures var k := |old(columns)|;
              && |columns| == k + 1 && columns[..k] == old(columns)
              && columns[k].kind == kind && columns[k].width == width
              && columns[k].textEntry == textEntry && columns[k].occupied == occupied && columns[k].index == k
              && (kind.NonCounting? ||
                   (&& columns[k].cindex == old(cindex)
                    && columns[k].composite ==
                         if old(cindex) < maxwidth.Length then old(cindex) else maxwidth.Length - 1))
      ensures columnCount == old(columnCount) + occupied
      ensures cindex == old(cindex) + if kind.NonCounting? then 0 else 1
      ensures var j := columns[|old(columns)|].composite;
              && j < maxwidth.Length
              && maxwidth[..] == old(maxwidth[..])[j := if kind.Single? then Max(old(maxwidth[j]), width)
                  else old(maxwidth[j])]
    {
      var left := |columns| - 1;
      if kind.NonCounting? { LeftNumber(); }
      var number := if kind.NonCounting? then columns[left].cindex else cindex;
      var j := CorrespondingCmpCol(number);
      var c := SouCol(kind, |columns|, number, j, occupied, width, textEntry);
      hide Sound, Grown;
      AppendSound(columns, maxwidth[..], before, cindex, columnCount, c);
      ghost var m := maxwidth[..];
      columns := columns + [c];
      columnCount := columnCount + occupied;
      if !kind.NonCounting? { cindex := cindex + 1; }
      if kind.Single? && width > maxwidth[j] { maxwidth[j] := width; }
      assert maxwidth[..] == m[j := if kind.Single? then Max(m[j], width) else m[j]];
    }

    lemma NothingInOrder()
      requires composite.Ok() && |columns| == 1
      ensures InOrder(composite, [], columns, [])
    {
    }

    lemma EmptyOk()
      requires composite.Ok() && maxwidth.Length == |composite.delim|
      requires columns == [] && columnCount == 0 && cindex == 0 && before == maxwidth[..]
      ensures Ok()
    {
    }

    /** A non-counting column takes the number of the column to its left. */
    lemma LeftNumber()
      requires Ok() && columns != []
      ensures columns[|columns| - 1].cindex == Count(columns) - 1
    {
      var k := |columns| - 1;
      assert Placed(columns, k, maxwidth.Length) && columns[..k + 1] == columns;
    }

    lemma {:induction false} HolderPrefix(a: seq<SouCol>, b: seq<SouCol>, k: nat)
      requires k < |b| <= |a| && a[..|b|] == b
      ensures Holder(a, k) == Holder(b, k)
    {
      assert a[k] == a[..|b|][k] == b[k];
      if k > 0 { HolderPrefix(a, b, k - 1); }
    }

    /** A non-counting entry's width goes to the column it hangs on. */
    method AddExtra(width: nat, tilde: bool)
      requires Ok() && columns != []
      modifies this`columns, this`columnCount, this`cindex, maxwidth
      ensures Ok() && Widened() && |columns| > |old(columns)|
      ensures columnCount == old(columnCount) && cindex == old(cindex)
      ensures SameShape(columns[..|old(columns)|], old(columns))
      ensures var h, k := Holder(old(columns), |old(columns)| - 1), |old(columns)|;
              var c, w := old(columns)[h], if tilde then width else width + 1;
              && |columns| == k + 1 && columns[..k] == old(columns)[h := c.(width := c.width + w)]
              && columns[k].kind.NonCounting? && columns[k].width == w && columns[k].textEntry == tilde
              && c.composite < maxwidth.Length
              && var m := old(maxwidth[..]);
              var j := c.composite;
              maxwidth[..] == m[j := if c.occupied == 1 then Max(m[j], c.width + w) else m[j]]
    {
      hide Fits;
      var w := if tilde then width else width + 1;
      AddColumn(NonCounting, w, tilde, 0);
      var k := |columns| - 2;
      HolderPrefix(columns, old(columns), k);
      while columns[k].kind.Filler? || columns[k].occupied == 0
        invariant 0 <= k < |columns| - 1
        invariant Holder(columns, k) == Holder(old(columns), |old(columns)| - 1)
        decreases k
      {
        assert Placed(columns, 0, maxwidth.Length);
        k := k - 1;
      }
      assert Placed(columns, k, maxwidth.Length);
      Widen(k, columns[k].width + w, columns[k].occupied == 1);
    }

    /** add_filler: empty columns for the rest of what the last column occupies. */
    method AddFiller(occupied: int)
      requires Ok() && columns != []
      modifies this`columns, this`columnCount, this`cindex, maxwidth
      ensures Ok() && Widened() && |columns| >= |old(columns)|
      ensures columnCount == old(columnCount) && maxwidth[..] == old(maxwidth[..])
      ensures cindex == old(cindex) + if occupied > 1 then occupied - 1 else 0
      ensures |columns| == |old(columns)| + if occupied > 1 then occupied - 1 else 0
      ensures Filled(old(columns), columns)
    {
      hide Fits, AllPlaced, Grown;
      GrownSelf(maxwidth[..]);
      var i := 1;
      while i < occupied
        invariant Ok() && Widened() && columnCount == old(columnCount) && maxwidth[..] == old(maxwidth[..])
        invariant |columns| == |old(columns)| + i - 1 && Filled(old(columns), columns)
        invariant 1 <= i && (i == 1 || i <= occupied) && cindex == old(cindex) + i - 1
        decreases occupied - i
      {
        AddColumn(Filler, 0, true, 0);
        i := i + 1;
      }
    }

    /** apocopation_setup: the rest of the line. */
    method Apocopate(width: nat, textEntry: bool)
      requires Ok() && columns != []
      modifies this`columns, this`columnCount, this`cindex, maxwidth
      ensures Ok() && Widened() && |columns| > |old(columns)|
      ensures columnCount == maxwidth.Length && maxwidth[..] == old(maxwidth[..])
      ensures var n, c := |old(columns)|, columns[|old(columns)|];
              && columns[..n] == old(columns) && Filled(columns[..n + 1], columns)
              && c.kind.Apocope? && c.width == width && c.textEntry == textEntry
              && c.occupied == maxwidth.Length - old(columnCount)
      ensures var rest := maxwidth.Length - old(columnCount); cindex == old(cindex) + if rest > 1 then rest else 1
    {
      hide Fits, AllPlaced;
      var occupied := maxwidth.Length - columnCount;
      AddColumn(Apocope, width, textEntry, occupied);
      AddFiller(occupied);
    }

    /** A text entry over several columns: as many as it says, or its whole complex. */
    method AddSpanning(width: nat, ncols: int)
      requires Ok() && columns != []
      modifies this`columns, this`columnCount, this`cindex, this`multis, maxwidth
      ensures Ok() && Widened() && |columns| > |old(columns)|
      ensures var n, c := |old(columns)|, columns[|old(columns)|];
              var t := c.occupied;
              && c.composite == (if old(cindex) < maxwidth.Length then old(cindex) else maxwidth.Length - 1)
              && t == (if ncols > 0 then ncols else composite.ComplexColumns(c.composite))
              && columnCount == old(columnCount) + t && cindex == old(cindex) + t && |columns| == n + t
              && columns[..n] == old(columns) && Filled(columns[..n + 1], columns)
              && c.kind.Span? && c.textEntry
              && c.width == if ncols > 10 then width + 3 else if ncols > 0 then width + 2 else width
      ensures maxwidth[..] == old(maxwidth[..]) && multis == old(multis) + [|old(columns)|]
    {
      hide Fits, AllPlaced;
      var occupied := ncols;
      if occupied <= 0 {
        var j := CorrespondingCmpCol(cindex);
        occupied := composite.ComplexColumns(j);
      }
      var w := width;
      if ncols > 0 { w := width + 1 + if ncols > 10 then 2 else 1; }
      multis := multis + [|columns|];
      AddColumn(Span, w, true, occupied);
      AddFiller(occupied);
    }

    /** An insertion, which may need a space before it. */
    method AddInsertion(width: nat, tilde: bool)
      requires Ok() && columns != []
      modifies this`columns, this`columnCount, this`cindex, maxwidth
      ensures Ok() && Widened() && columnCount == old(columnCount) && cindex == old(cindex)
      ensures var n := |old(columns)|;
              && |columns| == n + 1 && SameShape(columns[..n], old(columns))
              && columns[n].kind.NonCounting? && columns[n].width == if tilde then width else width + 1
    {
      hide Fits, AllPlaced, SameShape, Holder;
      Compensate(tilde, false);
      ghost var made := columns;
      ShapesAgree(made, made, made);
      ShapeLength(made, old(columns));
      AddExtra(width, tilde);
      ShapesAgree(columns[..|made|], made, old(columns));
    }

    lemma {:induction false} ShapeLength(a: seq<SouCol>, b: seq<SouCol>)
      requires SameShape(a, b)
      ensures |a| == |b|
    {
    }

    /** One turn of the loop of new_source: the entry's column comes next, with its kind and width, and the
        fillers it needs; of the columns before it only widths change. */
    method AddItem(item: Item)
      requires Ok() && columns != []
      modifies this`columns, this`columnCount, this`cindex, this`multis, maxwidth
      ensures Ok() && Widened() && |columns| > |old(columns)|
      ensures !item.Apocopated? && old(cindex) == old(columnCount) ==>
                cindex == columnCount == old(cindex) + Takes(composite, item, old(cindex))
      ensures !item.Apocopated? ==>
                columnCount == old(columnCount) +
                  if item.Extra? then 0 else if item.Spanning? then columns[|old(columns)|].occupied else 1
      ensures columns[|old(columns)|].width ==
              match item
              case Extra(w, tilde) => if tilde then w else w + 1
              case Spanning(w, _, ncols) => if ncols > 10 then w + 3 else if ncols > 0 then w + 2 else w
              case Apocopated(w) => w
              case Sign(w) => w
              case Text(w, _) => w
      ensures var n := |old(columns)|;
              && SameShape(columns[..n], old(columns)) && Filled(columns[..n + 1], columns)
              && ItemAt(composite, item, columns[n])
              && (item.Spanning? ==> columns[n].occupied == |columns| - n && columns[n].textEntry)
              && multis == old(multis) + if item.Text? || item.Spanning? then [n] else []
      ensures item.Apocopated? && old(cindex) == old(columnCount) ==>
                && columnCount == maxwidth.Length
                && cindex == old(cindex) + if old(cindex) < maxwidth.Length then maxwidth.Length - old(cindex) else 1
    {
      hide Fits, AllPlaced, SameShape, Holder;
      ghost var n := |columns|;
      ShapesAgree(columns, columns, columns);
      match item
      case Extra(width, tilde) =>
        AddInsertion(width, tilde);
      case Apocopated(width) =>
        Compensate(true, false);
        Apocopate(width, true);
      case Sign(width) =>
        AddColumn(Single, width, false, 1);
      case Text(width, explicitDelim) =>
        Compensate(true, explicitDelim);
        multis := multis + [|columns|];
        AddColumn(Single, width, true, 1);
      case Spanning(width, explicitDelim, ncols) =>
        Compensate(true, explicitDelim);
        AddSpanning(width, ncols);
    }

    /** The entry's column after those of the entries before it. */
    method NextItem(item: Item, ghost done: seq<Item>, ghost at: seq<nat>) returns (ghost more: seq<nat>)
      requires Ok() && columns != [] && Spread(columns) && InOrder(composite, done, columns, at)
      modifies this`columns, this`columnCount, this`cindex, this`multis, maxwidth
      ensures Ok() && Widened() && columns != []
      ensures Spread(columns) && InOrder(composite, done + [item], columns, more)
      ensures !item.Apocopated? && old(cindex) == old(columnCount) ==>
                cindex == columnCount == old(cindex) + Takes(composite, item, old(cindex))
      ensures item.Apocopated? && old(cindex) == old(columnCount) ==>
                && columnCount == maxwidth.Length
                && cindex == old(cindex) + if old(cindex) < maxwidth.Length then maxwidth.Length - old(cindex) else 1
    {
      hide Fits, AllPlaced, InOrder, ItemAt, Spread, SameShape, Filled;
      ghost var left := columns;
      AddItem(item);
      ItemKind(composite, item, columns[|left|]);
      SpreadOn(left, columns);
      InOrderMore(composite, done, left, at, item, columns);
      more := at + [|left|];
    }

    /** An empty line counts as broken off at once. */
    method EmptyLine() returns (ghost at: seq<nat>)
      requires Ok() && |columns| == 1 && Spread(columns) && cindex == columnCount == 1
      modifies this`columns, this`columnCount, this`cindex, maxwidth
      ensures Ok() && Widened() && columns != []
      ensures Spread(columns) && InOrder(composite, [Apocopated(0)], columns, at)
      ensures columnCount == maxwidth.Length
      ensures cindex == if 1 < maxwidth.Length then maxwidth.Length else 2
    {
      hide Fits, AllPlaced, InOrder, ItemAt, Spread, SameShape, Filled;
      ghost var left := columns;
      NothingInOrder();
      Apocopate(0, false);
      ShapesAgree(left, left, left);
      ApocopeAt(composite, columns[1]);
      SpreadOn(left, columns);
      InOrderMore(composite, [], left, [], Apocopated(0), columns);
      assert [] + [Apocopated(0)] == [Apocopated(0)] && [] + [|left|] == [|left|];
      at := [|left|];
    }

    /** new_source for a siglum of the given width; an empty line counts as broken off at once. */
    method NewSource(siglum: nat, items: seq<Item>) returns (mismatch: bool, ghost at: seq<nat>)
      requires composite.Ok() && maxwidth.Length == |composite.delim|
      requires columns == [] && columnCount == 0 && cindex == 0 && before == maxwidth[..]
      requires forall i :: 0 <= i < |items| - 1 ==> !items[i].Apocopated?
      modifies this`columns, this`columnCount, this`cindex, this`multis, maxwidth
      ensures Ok() && Widened()
      ensures var all := if items == [] then [Apocopated(0)] else items;
              && (cindex == columnCount <==> BreaksInside(composite, all, 1))
              && (cindex == columnCount ==> columnCount == Reach(composite, all, 1))
              && InOrder(composite, all, columns, at)
      ensures mismatch == (columnCount != maxwidth.Length)
      ensures cindex != columnCount ==> !mismatch
      ensures Tiles(columns, maxwidth.Length) <==> !mismatch && cindex == columnCount
      ensures Spread(columns)
      ensures forall c :: c in columns && c.kind.Single? ==>
                c.composite < maxwidth.Length && c.width <= maxwidth[c.composite]
      ensures forall j :: 0 <= j < maxwidth.Length && maxwidth[j] > old(maxwidth[j]) ==>
                exists c :: c in columns && c.composite == j && c.width >= maxwidth[j]
    {
      hide Fits, AllPlaced, InOrder, Spread, Tiles;
      EmptyOk();
      AddColumn(Single, siglum, false, 1);
      at := [];
      SiglumOnly();
      var i := 0;
      while i < |items|
        invariant 0 <= i <= |items| && Ok() && Widened() && columns != []
        invariant if cindex == columnCount then
                    && BreaksInside(composite, items[i..], cindex) == BreaksInside(composite, items, 1)
                    && Reach(composite, items[i..], cindex) == Reach(composite, items, 1)
                  else i == |items| && !BreaksInside(composite, items, 1) && cindex > columnCount == maxwidth.Length
        invariant Spread(columns) && InOrder(composite, items[..i], columns, at)
        invariant i == 0 ==> cindex == columnCount == |columns| == 1
      {
        assert items[i..][0] == items[i] && items[i..][1..] == items[i + 1..];
        at := NextItem(items[i], items[..i], at);
        assert items[..i + 1] == items[..i] + [items[i]];
        i := i + 1;
      }
      assert items[..|items|] == items;
      if |items| == 0 {
        ghost var all := [Apocopated(0)];
        assert all[1..] == [];
        at := EmptyLine();
      }
      mismatch := columnCount != maxwidth.Length;
      PlacedTiles(columns, maxwidth.Length);
      WideEnough(columns, maxwidth[..], before);
    }

    lemma {:induction false} WideEnough(cols: seq<SouCol>, m: seq<nat>, was: seq<nat>)
      requires Fits(cols, m, was)
      ensures forall c :: c in cols && c.kind.Single? ==> c.composite < |m| && c.width <= m[c.composite]
      ensures forall j :: 0 <= j < |m| && m[j] > was[j] ==> exists c :: c in cols && c.composite == j && c.width >= m[j]
    {
      forall j | 0 <= j < |m| && m[j] > was[j] ensures exists c :: c in cols && c.composite == j && c.width >= m[j] {
        var k :| 0 <= k < |cols| && cols[k].composite == j && cols[k].width >= m[j];
        assert cols[k] in cols;
      }
    }

    lemma SiglumOnly()
      requires composite.Ok() && |columns| == 1 && columns[0].kind.Single?
      ensures Spread(columns) && InOrder(composite, [], columns, [])
    {
    }
  }

  /** A full line that is broken off nevertheless: the count of columns agrees with the composite, and the last
      composite column is hit twice. */
  method BrokenOffWhenFull() returns (mismatch: bool, cols: seq<SouCol>)
    ensures !mismatch && AllPlaced(cols, 2) && !Tiles(cols, 2)
  {
    var widths := new nat[2](_ => 0);
    var line := new SourceLine(Composite([true, true], [0, 1]), widths);
    var items := [Sign(1), Apocopated(0)];
    assert items[1..] == [Apocopated(0)] && items[1..][1..] == [];
    assert BreaksInside(line.composite, items, 1) == BreaksInside(line.composite, items[1..], 2) == false;
    ghost var at;
    mismatch, at := line.NewSource(1, items);
    cols := line.columns;
  }
}
