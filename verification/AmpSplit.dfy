/** What the ATF reader is for, said without buffers: a file is cut at every `&` that starts a line
    (a byte order mark may stand before it), and each piece is one text. */
module AmpSplit {
  import opened Common

  const AMP: byte := 38

  predicate LineStart(s: seq<byte>, i: int) {
    0 <= i <= |s| && (i == 0 || s[i - 1] == NL)
  }

  /** The `&` at i begins a text: it opens its line, or follows a UTF-16 or UTF-8 mark that does. */
  predicate AmpAt(s: seq<byte>, i: int) {
    && 0 <= i < |s|
    && s[i] == AMP
    && (|| LineStart(s, i)
        || (i >= 2 && LineStart(s, i - 2) && s[i - 2] == 0xfe && s[i - 1] == 0xff)
        || (i >= 3 && LineStart(s, i - 3) && s[i - 3] == 0xef && s[i - 2] == 0xbb && s[i - 1] == 0xbf))
  }

  /** The first text start at or after `from`, or the end of s. */
  function NextAmp(s: seq<byte>, from: nat): (r: nat)
    requires from <= |s|
    ensures from <= r <= |s|
    ensures r < |s| ==> AmpAt(s, r)
    ensures forall i :: from <= i < r ==> !AmpAt(s, i)
    decreases |s| - from
  {
    if from == |s| || AmpAt(s, from) then from else NextAmp(s, from + 1)
  }

  /** The texts of s from position p, which starts one unless it is the end. */
  function ChunksFrom(s: seq<byte>, p: nat): seq<seq<byte>>
    requires p <= |s|
    decreases |s| - p
  {
    if p == |s| then [] else
      var q := NextAmp(s, p + 1);
      [s[p..q]] + ChunksFrom(s, q)
  }

  /** The texts of a whole file. */
  function Split(s: seq<byte>): seq<seq<byte>> {
    ChunksFrom(s, NextAmp(s, 0))
  }

  /** A file as the reader sees it: it always ends in a newline. */
  function Terminated(raw: seq<byte>): seq<byte> {
    if raw != [] && raw[|raw| - 1] == NL then raw else raw + [NL]
  }

  /** The rest of a file, terminated, is the rest of the terminated file. */
  lemma {:induction false} TerminatedTail(raw: seq<byte>, from: nat, t: seq<byte>)
    requires from < |raw| && t == Terminated(raw[from..|raw|])
    ensures from + |t| == |Terminated(raw)| && t == Terminated(raw)[from..from + |t|]
  {
  }

  /** Before its end, a file is as it was. */
  lemma {:induction false} TerminatedFront(raw: seq<byte>, from: nat, t: seq<byte>)
    requires from + |t| <= |raw| && t == raw[from..from + |t|]
    ensures from + |t| <= |Terminated(raw)| && t == Terminated(raw)[from..from + |t|]
  {
  }

  /** A least position is the only one with these three properties. */
  lemma {:induction false} NextAmpIs(s: seq<byte>, from: nat, r: nat)
    requires from <= r <= |s|
    requires r < |s| ==> AmpAt(s, r)
    requires forall i :: from <= i < r ==> !AmpAt(s, i)
    ensures NextAmp(s, from) == r
  {
  }

  /** Nothing is lost or reordered: the texts join to everything from the first `&` on. */
  lemma {:induction false} ChunksJoin(s: seq<byte>, p: nat)
    requires p <= |s|
    ensures Concat(ChunksFrom(s, p)) == s[p..]
    decreases |s| - p
  {
    if p < |s| {
      var q := NextAmp(s, p + 1);
      ChunksJoin(s, q);
      var cs := ChunksFrom(s, p);
      assert cs[0] == s[p..q] && cs[1..] == ChunksFrom(s, q);
      assert s[p..] == s[p..q] + s[q..];
    }
  }

  /** A window that begins at a text start shows the same later text starts as the file does. */
  lemma {:induction false} WindowAmp(s: seq<byte>, w: nat, e: nat, i: nat)
    requires w < i < e <= |s|
    requires w == 0 || AmpAt(s, w)
    ensures AmpAt(s[w..e], i - w) <==> AmpAt(s, i)
  {
    var t := s[w..e];
    assert t[i - w] == s[i];
    assert forall k :: w <= k < e ==> t[k - w] == s[k];
    assert forall k :: w < k <= i ==> (LineStart(t, k - w) <==> LineStart(s, k));
  }

  /** So scanning the window for the next text start finds the file's next one, if it is in there. */
  lemma {:induction false} ScanWindow(s: seq<byte>, w: nat, e: nat, from: nat)
    requires w + from <= e <= |s|
    requires w == 0 || (AmpAt(s, w) && from > 0)
    ensures var n := NextAmp(s[w..e], from);
            if n < e - w then NextAmp(s, w + from) == w + n else NextAmp(s, w + from) >= e
  {
    var n := NextAmp(s[w..e], from);
    forall i | w + from <= i < e ensures AmpAt(s[w..e], i - w) <==> AmpAt(s, i) {
      if w < i { WindowAmp(s, w, e, i); }
    }
    forall i | w + from <= i < w + n ensures !AmpAt(s, i) {
      assert !AmpAt(s[w..e], i - w);
    }
    if n < e - w {
      NextAmpIs(s, w + from, w + n);
    }
  }

  /** Scanning a window from its beginning: it begins with a text start, or is the front of the file. */
  lemma {:induction false} ScanFront(s: seq<byte>, w: nat, e: nat)
    requires w < e <= |s|
    requires w == 0 || AmpAt(s, w)
    ensures var n := NextAmp(s[w..e], 0);
            && (n < e - w ==> AmpAt(s, w + n))
            && (AmpAt(s, w) ==> n == 0)
            && (w == 0 ==> if n < e then NextAmp(s, 0) == n else NextAmp(s, 0) >= e)
  {
    if w == 0 {
      ScanWindow(s, 0, e, 0);
    } else {
      assert s[w..e][0] == s[w];
    }
  }

  /** The newline that may be added at the end starts no text. */
  lemma {:induction false} StartsInFile(raw: seq<byte>, i: nat)
    requires AmpAt(Terminated(raw), i)
    ensures i < |raw|
  {
  }

  /** A window followed by two terminators reads as C text up to the first of them. */
  lemma {:induction false} ShownWindow(shown: seq<byte>, s: seq<byte>, w: nat, e: nat)
    requires w <= e <= |s| && NulFree(s)
    requires shown == s[w..e] + [NUL, NUL]
    ensures shown[..e - w] == s[w..e] && NulFree(s[w..e])
    ensures shown[e - w] == shown[e - w + 1] == NUL
  {
  }

  /** No text contains a second text start, and every one begins with its `&`. */
  lemma {:induction false} ChunksAreWhole(s: seq<byte>, p: nat, k: nat)
    requires p < |s| ==> AmpAt(s, p)
    requires p <= |s| && k < |ChunksFrom(s, p)|
    ensures var c := ChunksFrom(s, p)[k]; |c| > 0 && c[0] == AMP && forall i :: 0 < i < |c| ==> !AmpAt(c, i)
    decreases |s| - p
  {
    var q := NextAmp(s, p + 1);
    if k == 0 {
      var c := s[p..q];
      forall i | 0 < i < |c| ensures !AmpAt(c, i) {
        WindowAmp(s, p, q, p + i);
        assert !AmpAt(s, p + i);
      }
    } else {
      ChunksAreWhole(s, q, k - 1);
      assert ChunksFrom(s, p)[k] == ChunksFrom(s, q)[k - 1];
    }
  }

  // ---------- Where texts begin ----------

  /** A line: the newline is its last byte and no other. */
  predicate IsLine(l: seq<byte>) {
    l != [] && forall i :: 0 <= i < |l| ==> (l[i] == 10 <==> i == |l| - 1)
  }

  /** Before the `&` at j there is nothing on the line, or a byte order mark. */
  predicate Opening(l: seq<byte>, j: nat) {
    && j < |l| && l[j] == 38
    && (l[..j] == [] || l[..j] == [0xfe, 0xff] || l[..j] == [0xef, 0xbb, 0xbf])
  }

  /** Where byte j of line k is in the file. */
  function Offset(lines: seq<seq<byte>>, k: nat, j: nat): nat
    requires k <= |lines|
  {
    |Concat(lines[..k])| + j
  }

  /** The lines before line k, line k, and the lines after it. */
  lemma {:induction false} LinesAround(lines: seq<seq<byte>>, k: nat)
    requires k < |lines|
    ensures Concat(lines) == Concat(lines[..k]) + (lines[k] + Concat(lines[k + 1..]))
  {
    var rest := [lines[k]] + lines[k + 1..];
    assert lines == lines[..k] + rest && rest[1..] == lines[k + 1..];
    ConcatAppend(lines[..k], rest);
  }

  lemma {:induction false} EndsInNewline(lines: seq<seq<byte>>)
    requires lines != [] && IsLine(lines[|lines| - 1])
    ensures var s := Concat(lines); s != [] && s[|s| - 1] == 10
  {
    LinesAround(lines, |lines| - 1);
    assert lines[|lines| - 1 + 1..] == [];
  }

  lemma {:induction false} LineStands(lines: seq<seq<byte>>, k: nat)
    requires k < |lines| && forall l :: l in lines ==> IsLine(l)
    ensures var s, o := Concat(lines), Offset(lines, k, 0);
            && o + |lines[k]| <= |s| && s[o..o + |lines[k]|] == lines[k] && (k > 0 ==> o > 0 && s[o - 1] == 10)
  {
    hide Concat, IsLine;
    LinesAround(lines, k);
    if k > 0 { EndsInNewline(lines[..k]); }
  }

  /** Every byte of the file is one of a line. */
  lemma {:induction false} LineAround(lines: seq<seq<byte>>, i: nat) returns (k: nat, j: nat)
    requires i < |Concat(lines)|
    ensures k < |lines| && j < |lines[k]| && i == Offset(lines, k, j)
  {
    if i < |lines[0]| {
      k, j := 0, i;
    } else {
      k, j := LineAround(lines[1..], i - |lines[0]|);
      k := k + 1;
      assert lines[..k] == [lines[0]] + lines[1..][..k - 1] && lines[..k][1..] == lines[1..][..k - 1];
    }
  }

  lemma {:induction false} OpeningIsStart(lines: seq<seq<byte>>, k: nat, j: nat)
    requires k < |lines| && j < |lines[k]| && forall l :: l in lines ==> IsLine(l)
    ensures AmpAt(Concat(lines), Offset(lines, k, j)) <==> Opening(lines[k], j)
  {
    LineStands(lines, k);
    assert lines[k] in lines;
    OpensInFile(Concat(lines), Offset(lines, k, 0), lines[k], j);
  }

  lemma {:induction false} OpensInFile(s: seq<byte>, o: nat, l: seq<byte>, j: nat)
    requires IsLine(l) && o + |l| <= |s| && s[o..o + |l|] == l && (o > 0 ==> s[o - 1] == 10) && j < |l|
    ensures AmpAt(s, o + j) <==> Opening(l, j)
  {
    var t, i := s[o..o + |l|], o + j;
    assert forall k: nat :: k < |l| ==> l[k] == t[k] == s[o + k];
    assert j > 0 ==> s[i - 1] == l[j - 1];
    assert j > 1 ==> s[i - 2] == l[j - 2];
    assert j > 2 ==> s[i - 3] == l[j - 3];
    assert j > 3 ==> s[i - 4] == l[j - 4];
    if j == 2 { assert l[..j] == [l[0], l[1]]; }
    if j == 3 { assert l[..j] == [l[0], l[1], l[2]]; }
  }

  /** The text starts from p on. */
  function StartsFrom(s: seq<byte>, p: nat): seq<nat>
    requires p <= |s|
    decreases |s| - p
  {
    if p == |s| then [] else [p] + StartsFrom(s, NextAmp(s, p + 1))
  }

  /** The next start after start n, or the end. */
  function StartAfter(s: seq<byte>, starts: seq<nat>, n: nat): nat {
    if n + 1 < |starts| then starts[n + 1] else |s|
  }

  /** In order they cut s into the pieces: each is what lies from one of them to the next, or to the end. */
  predicate CutsAt(s: seq<byte>, starts: seq<nat>, pieces: seq<seq<byte>>) {
    && |pieces| == |starts|
    && forall n :: 0 <= n < |starts| ==>
         starts[n] < StartAfter(s, starts, n) <= |s| && pieces[n] == s[starts[n]..StartAfter(s, starts, n)]
  }

  lemma {:induction false} CutsMore(s: seq<byte>, p: nat, starts: seq<nat>, pieces: seq<seq<byte>>, q: nat)
    requires CutsAt(s, starts, pieces) && p < q <= |s| && q == (if starts == [] then |s| else starts[0])
    ensures CutsAt(s, [p] + starts, [s[p..q]] + pieces)
  {
    var ps, cs := [p] + starts, [s[p..q]] + pieces;
    forall n | 0 <= n < |ps|
      ensures ps[n] < StartAfter(s, ps, n) <= |s| && cs[n] == s[ps[n]..StartAfter(s, ps, n)]
    {
      if n > 0 { assert ps[n] == starts[n - 1] && StartAfter(s, ps, n) == StartAfter(s, starts, n - 1); }
    }
  }

  lemma {:induction false} NothingCut(s: seq<byte>)
    ensures CutsAt(s, [], [])
  {
  }

  lemma {:induction false} ChunksCut(s: seq<byte>, p: nat)
    requires p <= |s|
    ensures CutsAt(s, StartsFrom(s, p), ChunksFrom(s, p))
    decreases |s| - p
  {
    hide NextAmp, CutsAt;
    if p < |s| {
      var q := NextAmp(s, p + 1);
      ChunksCut(s, q);
      CutsMore(s, p, StartsFrom(s, q), ChunksFrom(s, q), q);
    } else {
      NothingCut(s);
    }
  }

  lemma {:induction false} StartsAre(s: seq<byte>, p: nat)
    requires p <= |s| && (p < |s| ==> AmpAt(s, p))
    ensures forall i :: i in StartsFrom(s, p) <==> p <= i && AmpAt(s, i)
    decreases |s| - p
  {
    if p < |s| { StartsAre(s, NextAmp(s, p + 1)); }
  }

  /** The texts of a file begin where an `&` is the first byte of its line but for a byte order mark, and nowhere
      else; each runs to the beginning of the next or to the end. A last line without a newline gets one. */
  lemma {:induction false} TextsBeginLines(raw: seq<byte>, lines: seq<seq<byte>>) returns (starts: seq<nat>)
    requires raw != [] && forall l :: l in lines ==> IsLine(l)
    requires Concat(lines) == if raw[|raw| - 1] == 10 then raw else raw + [10]
    ensures CutsAt(Concat(lines), starts, Split(Terminated(raw)))
    ensures forall k, j :: 0 <= k < |lines| && 0 <= j < |lines[k]| ==>
              (Offset(lines, k, j) in starts <==> Opening(lines[k], j))
  {
    var s := Concat(lines);
    hide CutsAt, AmpAt, Opening, Offset;
    ChunksCut(s, NextAmp(s, 0));
    StartsAre(s, NextAmp(s, 0));
    starts := StartsFrom(s, NextAmp(s, 0));
    forall k, j | 0 <= k < |lines| && 0 <= j < |lines[k]|
      ensures Offset(lines, k, j) in starts <==> Opening(lines[k], j)
    {
      OpeningIsStart(lines, k, j);
    }
  }

  /** Every file is lines, but for the newline its last line may lack. */
  lemma {:induction false} FileIsLines(raw: seq<byte>) returns (lines: seq<seq<byte>>)
    requires raw != []
    ensures forall l :: l in lines ==> IsLine(l)
    ensures Concat(lines) == if raw[|raw| - 1] == 10 then raw else raw + [10]
  {
    var i := 0;
    while i < |raw| - 1 && raw[i] != 10
      invariant 0 <= i < |raw| && forall k :: 0 <= k < i ==> raw[k] != 10
    {
      i := i + 1;
    }
    if i == |raw| - 1 {
      lines := [if raw[i] == 10 then raw else raw + [10]];
      assert lines[1..] == [];
    } else {
      var rest := FileIsLines(raw[i + 1..]);
      lines := [raw[..i + 1]] + rest;
      assert lines[1..] == rest && raw == raw[..i + 1] + raw[i + 1..];
    }
  }
}
