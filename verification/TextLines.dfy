/** Cutting a text into lines where it stands: setup_lines, under Unix, DOS and Mac line ends at once. */
module TextLines {
  import opened Common

  type Text = seq<byte>

  predicate IsEnd(b: byte) { b == NL || b == CR }

  /** The CR at i belongs to the NL after it. */
  predicate Paired(t: Text, i: nat)
    requires i < |t|
  {
    t[i] == CR && i + 1 < |t| && t[i + 1] == NL
  }

  /** The position after the character at i, CR NL being one character. */
  function After(t: Text, i: nat): (n: nat)
    requires i < |t|
    ensures i < n <= |t|
  {
    if Paired(t, i) then i + 2 else i + 1
  }

  /** The first line end from s on, or the end of the text. */
  function EndFrom(t: Text, s: nat): (k: nat)
    requires s <= |t|
    ensures s <= k <= |t|
    ensures k < |t| ==> IsEnd(t[k])
    ensures forall i :: s <= i < k ==> !IsEnd(t[i])
    decreases |t| - s
  {
    if s == |t| || IsEnd(t[s]) then s else EndFrom(t, s + 1)
  }

  /** The lines of t from s on: a line end is CR NL, or NL or CR alone, and at the very end of the text it
      starts no further line. */
  function LinesFrom(t: Text, s: nat): seq<Text>
    requires s <= |t|
    decreases |t| - s
  {
    if s == |t| then []
    else
      var k := EndFrom(t, s);
      [t[s..k]] + if k == |t| then [] else LinesFrom(t, After(t, k))
  }

  /** Line ends from s on. */
  function Ends(t: Text, s: nat): nat
    requires s <= |t|
    decreases |t| - s
  {
    if s == |t| then 0 else (if IsEnd(t[s]) then 1 else 0) + Ends(t, After(t, s))
  }

  lemma {:induction false} EndsFront(t: Text, s: nat, k: nat)
    requires s <= k <= |t| && forall i :: s <= i < k ==> !IsEnd(t[i])
    ensures Ends(t, s) == Ends(t, k)
    decreases k - s
  {
    if s < k { EndsFront(t, s + 1, k); }
  }

  /** As many lines as line ends, and one more when the text does not end in one. */
  lemma {:induction false} LinesCounted(t: Text, s: nat)
    requires s < |t|
    ensures |LinesFrom(t, s)| == Ends(t, s) + if IsEnd(t[|t| - 1]) then 0 else 1
    decreases |t| - s
  {
    var k := EndFrom(t, s);
    EndsFront(t, s, k);
    if k < |t| && After(t, k) < |t| { LinesCounted(t, After(t, k)); }
  }

  // ---------- What lines are ----------

  /** A line and the line end after it, which the last line of a text may lack. */
  datatype Piece = Piece(line: Text, end: Text)

  function Whole(p: Piece): Text { p.line + p.end }

  function Spelt(ps: seq<Piece>): Text {
    if ps == [] then [] else Whole(ps[0]) + Spelt(ps[1..])
  }

  function LinesOf(ps: seq<Piece>): (r: seq<Text>)
    ensures |r| == |ps| && forall i :: 0 <= i < |ps| ==> r[i] == ps[i].line
  {
    seq(|ps|, i requires 0 <= i < |ps| => ps[i].line)
  }

  /** Neither NL (10) nor CR (13) in the line, and NL, CR or both after it. */
  predicate PieceOk(p: Piece) {
    && (forall i :: 0 <= i < |p.line| ==> p.line[i] != 10 && p.line[i] != 13)
    && (p.end == [] || p.end == [10] || p.end == [13] || p.end == [13, 10])
    && Whole(p) != []
  }

  /** Lines without line ends in them, each but the last followed by one; a CR that ends a line is not
      followed by NL. */
  predicate WellCut(ps: seq<Piece>) {
    && (forall i :: 0 <= i < |ps| ==> PieceOk(ps[i]))
    && (forall i :: 0 <= i < |ps| - 1 ==> ps[i].end != [])
    && forall i :: 0 < i < |ps| && ps[i - 1].end == [13] ==> Whole(ps[i])[0] != 10
  }

  lemma {:induction false} TailWellCut(ps: seq<Piece>)
    requires WellCut(ps) && ps != []
    ensures WellCut(ps[1..])
  {
    assert forall i :: 0 <= i < |ps[1..]| ==> ps[1..][i] == ps[i + 1];
  }

  lemma {:induction false} EndFromIs(t: Text, s: nat, k: nat)
    requires s <= k <= |t| && (forall i :: s <= i < k ==> !IsEnd(t[i])) && (k < |t| ==> IsEnd(t[k]))
    ensures EndFrom(t, s) == k
  {
  }

  /** The first piece of what follows pre. */
  lemma {:induction false} FirstPiece(pre: Text, p: Piece, rest: Text)
    requires PieceOk(p) && (p.end == [] ==> rest == []) && (p.end == [CR] && rest != [] ==> rest[0] != NL)
    ensures var t, s := pre + Whole(p) + rest, |pre|;
            && EndFrom(t, s) == s + |p.line| && t[s..s + |p.line|] == p.line
            && if p.end == [] then s + |p.line| == |t|
               else s + |p.line| < |t| && After(t, s + |p.line|) == s + |Whole(p)|
  {
    var t, s := pre + Whole(p) + rest, |pre|;
    assert forall i :: 0 <= i < |p.line| ==> t[s + i] == p.line[i];
    var k := s + |p.line|;
    assert forall i :: 0 <= i < |p.end| ==> t[k + i] == p.end[i];
    assert k + |p.end| < |t| ==> t[k + |p.end|] == rest[0];
    EndFromIs(t, s, k);
  }

  lemma {:induction false} SpeltStart(ps: seq<Piece>)
    requires WellCut(ps) && ps != []
    ensures Spelt(ps) != [] && Spelt(ps)[0] == Whole(ps[0])[0]
  {
  }

  lemma {:induction false} LinesNext(t: Text, s: nat)
    requires s <= |t|
    ensures var k := EndFrom(t, s);
            LinesFrom(t, s) == if s == |t| then [] else [t[s..k]] + if k == |t| then [] else LinesFrom(t, After(t, k))
  {
  }

  lemma {:induction false} CutFrom(pre: Text, ps: seq<Piece>)
    requires WellCut(ps)
    ensures LinesFrom(pre + Spelt(ps), |pre|) == LinesOf(ps)
    decreases |ps|
  {
    hide EndFrom, After, WellCut, PieceOk, LinesFrom, Whole;
    if ps == [] {
      LinesNext(pre + Spelt(ps), |pre|);
    } else {
      var p, rest := ps[0], Spelt(ps[1..]);
      LinesNext(pre + Spelt(ps), |pre|);
      TailWellCut(ps);
      FirstAndRest(ps);
      FirstPiece(pre, p, rest);
      assert pre + Spelt(ps) == pre + Whole(p) + rest;
      CutFrom(pre + Whole(p), ps[1..]);
      assert LinesOf(ps) == [p.line] + LinesOf(ps[1..]);
    }
  }

  lemma {:induction false} FirstAndRest(ps: seq<Piece>)
    requires WellCut(ps) && ps != []
    ensures var p, rest := ps[0], Spelt(ps[1..]);
            && PieceOk(p) && (p.end == [] ==> |ps| == 1) && (p.end == [CR] && rest != [] ==> rest[0] != NL)
  {
    TailWellCut(ps);
    if |ps| > 1 { SpeltStart(ps[1..]); }
  }

  lemma {:induction false} OneMorePiece(p: Piece, qs: seq<Piece>)
    requires PieceOk(p) && WellCut(qs) && (p.end == [] ==> Spelt(qs) == [])
    requires p.end == [CR] && Spelt(qs) != [] ==> Spelt(qs)[0] != NL
    ensures WellCut([p] + qs) && Spelt([p] + qs) == Whole(p) + Spelt(qs)
  {
    if qs != [] { SpeltStart(qs); }
    assert ([p] + qs)[1..] == qs;
  }

  /** Every text can be cut so. */
  lemma {:induction false} Pieces(t: Text, s: nat) returns (ps: seq<Piece>)
    requires s <= |t|
    ensures WellCut(ps) && Spelt(ps) == t[s..]
    decreases |t| - s
  {
    if s == |t| {
      ps := [];
    } else {
      var k := EndFrom(t, s);
      var n := if k == |t| then k else After(t, k);
      var p := Piece(t[s..k], t[k..n]);
      var qs := Pieces(t, n);
      ps := [p] + qs;
      assert t[s..] == Whole(p) + t[n..];
      assert t[k..n] == if k == |t| then [] else if Paired(t, k) then [CR, NL] else [t[k]];
      OneMorePiece(p, qs);
    }
  }

  /** So the lines are what lies between the line ends, and there is one way to cut a text so. */
  lemma {:induction false} LinesLieBetweenEnds(t: Text, lines: seq<Text>)
    ensures lines == LinesFrom(t, 0) <==> exists ps :: WellCut(ps) && Spelt(ps) == t && LinesOf(ps) == lines
  {
    var ps := Pieces(t, 0);
    assert t[0..] == t == [] + t;
    CutFrom([], ps);
    forall qs | WellCut(qs) && Spelt(qs) == t ensures LinesOf(qs) == LinesFrom(t, 0) {
      CutFrom([], qs);
    }
  }

  /** After the first pass a CR stands only before a NL. */
  function Normal(t: Text, i: nat): byte
    requires i < |t|
  {
    if t[i] == CR && !Paired(t, i) then NL else t[i]
  }

  /** A C string in a: line, from offset p, then NUL. */
  predicate StringAt(a: Text, p: int, line: Text) {
    0 <= p && p + |line| < |a| && a[p..p + |line| + 1] == line + [0] && NulFree(line)
  }

  /** The first pass: count line ends and turn a CR that stands alone into NL. */
  method CountAndNormalise(ftext: array<byte>, ghost t: Text) returns (nlines: nat)
    requires t != [] && NulFree(t) && ftext[..] == t + [NUL]
    modifies ftext
    ensures ftext[|t|] == NUL && forall i :: 0 <= i < |t| ==> ftext[i] == Normal(t, i)
    ensures nlines == |LinesFrom(t, 0)| + 1
  {
    var s := 0;
    nlines := 0;
    while ftext[s] != NUL
      invariant 0 <= s <= |t| && ftext.Length == |t| + 1 && ftext[|t|] == NUL
      invariant forall i :: 0 <= i < s ==> ftext[i] == Normal(t, i)
      invariant forall i :: s <= i < |t| ==> ftext[i] == t[i]
      invariant nlines + Ends(t, s) == Ends(t, 0)
      decreases |t| - s
    {
      if ftext[s] == CR {
        nlines := nlines + 1;
        if ftext[s + 1] != NL {
          ftext[s] := NL;
          s := s + 1;
        } else {
          s := s + 2;
        }
      } else if ftext[s] == NL {
        nlines := nlines + 1;
        s := s + 1;
      } else {
        s := s + 1;
      }
    }
    LinesCounted(t, 0);
    if ftext[s - 1] != NL && ftext[s - 1] != CR {
      nlines := nlines + 1;
    }
    nlines := nlines + 1;  // for the terminating null pointer
  }

  /** From s on the text is as the first pass left it. */
  predicate Uncut(a: Text, t: Text, s: nat) {
    && s <= |t| && |a| == |t| + 1 && a[|t|] == NUL
    && (forall i :: s <= i < |t| ==> a[i] == Normal(t, i))
    && (0 < s < |t| ==> a[s - 1] != CR)
  }

  /** The lines met before s are C strings in a; only the last one of the text reaches s. */
  predicate AreStrings(a: Text, ptrs: seq<int>, lines: seq<Text>, s: nat, n: nat) {
    && |ptrs| == |lines|
    && forall i :: 0 <= i < |lines| ==> StringAt(a, ptrs[i], lines[i]) && (ptrs[i] + |lines[i]| < s || s == n)
  }

  /** Where the second pass stands. */
  predicate CutUpTo(a: Text, t: Text, ptrs: seq<int>, lines: seq<Text>, s: nat) {
    && Uncut(a, t, s)
    && AreStrings(a, ptrs, lines, s, |t|)
    && lines + LinesFrom(t, s) == LinesFrom(t, 0)
  }

  /** The first NL the second pass sees ends the line: it is the line end, or the NL of a CR NL. */
  lemma {:induction false} LineEndsAt(t: Text, s: nat, e: nat)
    requires s <= e <= |t| && s < |t|
    requires forall i :: s <= i < e ==> Normal(t, i) != NL
    requires e < |t| ==> Normal(t, e) == NL
    ensures var k := EndFrom(t, s);
            && e == (if k < |t| && Paired(t, k) then k + 1 else k)
            && (k < |t| ==> After(t, k) == e + 1)
            && (e < |t| && e > s && Normal(t, e - 1) == CR <==> k < e)
  {
    var k := EndFrom(t, s);
    assert k < |t| && !Paired(t, k) ==> Normal(t, k) == NL;
    assert k < |t| && Paired(t, k) ==> Normal(t, k) == CR && Normal(t, k + 1) == NL;
    assert forall i :: s <= i < k ==> Normal(t, i) == t[i] != NL;
  }

  /** The text after the end at e of a line is cut off: a is so changed that C strings end there. */
  function CutAt(a: Text, n: nat, e: nat): Text
    requires e <= n < |a|
  {
    if e == n then a else if e > 0 && a[e - 1] == CR then a[e - 1 := NUL] else a[e := NUL]
  }

  lemma {:induction false} CutLines(t: Text, s: nat, e: nat, lines: seq<Text>)
    requires s <= e <= |t| && s < |t| && lines + LinesFrom(t, s) == LinesFrom(t, 0)
    requires forall i :: s <= i < e ==> Normal(t, i) != NL
    requires e < |t| ==> Normal(t, e) == NL
    ensures (lines + [t[s..EndFrom(t, s)]]) + LinesFrom(t, if e == |t| then e else e + 1) == LinesFrom(t, 0)
  {
    hide LinesFrom, EndFrom, After, Normal, Paired;
    LineEndsAt(t, s, e);
    var line, next := t[s..EndFrom(t, s)], if e == |t| then e else e + 1;
    LinesNext(t, s);
    LinesNext(t, |t|);
    assert LinesFrom(t, s) == [line] + LinesFrom(t, next);
    assert (lines + [line]) + LinesFrom(t, next) == lines + ([line] + LinesFrom(t, next));
  }

  lemma {:induction false} CutString(a: Text, t: Text, s: nat, e: nat)
    requires |a| == |t| + 1 && a[|t|] == NUL && NulFree(t) && s <= e <= |t| && s < |t|
    requires forall i :: s <= i < |t| ==> a[i] == Normal(t, i)
    requires forall i :: s <= i < e ==> a[i] != NL
    requires e < |t| ==> a[e] == NL
    requires s > 0 ==> a[s - 1] != CR
    ensures StringAt(CutAt(a, |t|, e), s, t[s..EndFrom(t, s)])
  {
    LineEndsAt(t, s, e);
    var k, b := EndFrom(t, s), CutAt(a, |t|, e);
    assert b[k] == NUL;
    forall i | s <= i < k ensures b[i] == t[i] { assert a[i] == Normal(t, i); }
  }

  lemma {:induction false} UncutStep(a: Text, t: Text, s: nat, e: nat)
    requires Uncut(a, t, s) && s <= e <= |t| && (e < |t| ==> a[e] == NL)
    ensures Uncut(CutAt(a, |t|, e), t, if e == |t| then e else e + 1)
  {
  }

  lemma {:induction false} StringsStep(a: Text, b: Text, ptrs: seq<int>, lines: seq<Text>, s: nat, line: Text,
      next: nat, n: nat)
    requires AreStrings(a, ptrs, lines, s, n) && s < next <= n
    requires |a| == |b| && s <= |a| && forall i :: 0 <= i < s ==> a[i] == b[i]
    requires StringAt(b, s, line) && (s + |line| < next || next == n)
    ensures AreStrings(b, ptrs + [s as int], lines + [line], next, n)
  {
    forall i | 0 <= i < |lines| ensures StringAt(b, ptrs[i], lines[i]) {
      assert StringAt(a, ptrs[i], lines[i]);
    }
  }

  lemma {:induction false} CutStep(a: Text, t: Text, ptrs: seq<int>, lines: seq<Text>, s: nat, e: nat)
    requires CutUpTo(a, t, ptrs, lines, s) && s < |t| && NulFree(t)
    requires s <= e <= |t| && (forall i :: s <= i < e ==> a[i] != NL) && (e < |t| ==> a[e] == NL)
    ensures var next := if e == |t| then e else e + 1;
            CutUpTo(CutAt(a, |t|, e), t, ptrs + [s as int], lines + [t[s..EndFrom(t, s)]], next)
  {
    LineEndsAt(t, s, e);
    CutLines(t, s, e, lines);
    CutString(a, t, s, e);
    UncutStep(a, t, s, e);
    StringsStep(a, CutAt(a, |t|, e), ptrs, lines, s, t[s..EndFrom(t, s)], if e == |t| then e else e + 1, |t|);
  }

  /** The loop of setup_lines for the line at s: find its NL and put NUL at its end. */
  method CutLine(ftext: array<byte>, s: nat, n: nat) returns (next: nat, ghost e: nat)
    requires s <= n < ftext.Length && ftext[n] == NUL && forall i :: s <= i < n ==> ftext[i] != NUL
    modifies ftext
    ensures s <= e <= n && (forall i :: s <= i < e ==> old(ftext[i]) != NL) && (e < n ==> old(ftext[e]) == NL)
    ensures ftext[..] == CutAt(old(ftext[..]), n, e)
    ensures next == if e == n then e else e + 1
  {
    next := s;
    while ftext[next] != NUL && ftext[next] != NL
      invariant s <= next <= n
      invariant forall i :: s <= i < next ==> ftext[i] != NL
      decreases n - next
    {
      next := next + 1;
    }
    e := next;
    if ftext[next] == NL {
      if next > 0 && ftext[next - 1] == CR {
        ftext[next - 1] := NUL;
      } else {
        ftext[next] := NUL;
      }
      next := next + 1;
    }
  }

  lemma {:induction false} CutStart(a: Text, t: Text)
    requires |a| == |t| + 1 && a[|t|] == NUL && forall i :: 0 <= i < |t| ==> a[i] == Normal(t, i)
    ensures CutUpTo(a, t, [], [], 0)
  {
  }

  /** What the second pass can tell from where it stands. */
  lemma {:induction false} StillToCut(a: Text, t: Text, ptrs: seq<int>, lines: seq<Text>, s: nat)
    requires CutUpTo(a, t, ptrs, lines, s) && NulFree(t)
    ensures s <= |t| && |a| == |t| + 1 && a[|t|] == NUL && forall i :: s <= i < |t| ==> a[i] != NUL
    ensures |lines| == |ptrs| <= |LinesFrom(t, 0)| && (s < |t| ==> |lines| < |LinesFrom(t, 0)|)
    ensures s == |t| ==> lines == LinesFrom(t, 0)
    ensures forall i :: 0 <= i < |lines| ==> StringAt(a, ptrs[i], lines[i])
  {
    LinesNext(t, s);
  }

  /** setup_lines: the offsets of the lines, then -1 for the null pointer; each is a C string in the text. */
  method SetupLines(ftext: array<byte>, ghost t: Text) returns (ret: array<int>)
    requires t != [] && NulFree(t) && ftext[..] == t + [NUL]
    modifies ftext
    ensures var lines := LinesFrom(t, 0);
            && ret.Length == |lines| + 1 && ret[|lines|] == -1
            && forall i :: 0 <= i < |lines| ==> StringAt(ftext[..], ret[i], lines[i])
  {
    hide EndFrom, StringAt, CutAt, CutUpTo, LinesFrom;
    var n := ftext.Length - 1;
    var nlines := CountAndNormalise(ftext, t);
    ret := new int[nlines];
    var s, p := 0, 0;
    ghost var lines: seq<Text> := [];
    CutStart(ftext[..], t);
    StillToCut(ftext[..], t, [], lines, s);
    while ftext[s] != NUL
      invariant p == |lines| < ret.Length && s <= |t| && (ftext[s] == NUL <==> s == |t|)
      invariant CutUpTo(ftext[..], t, ret[..p], lines, s)
      decreases |t| - s
    {
      ghost var a, s0, e := ftext[..], s, s;
      StillToCut(a, t, ret[..p], lines, s);
      ret[p] := s;
      s, e := CutLine(ftext, s, n);
      CutStep(a, t, ret[..p], lines, s0, e);
      lines := lines + [t[s0..EndFrom(t, s0)]];
      assert ret[..p + 1] == ret[..p] + [s0];
      p := p + 1;
      StillToCut(ftext[..], t, ret[..p], lines, s);
    }
    StillToCut(ftext[..], t, ret[..p], lines, s);
    ret[p] := -1;
  }
}
