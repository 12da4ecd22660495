/** Which lines each source has, written as ranges: srcs_in_lines. */
module SourceRanges {
  import opened Common

  /** Face and column of a tablet, as tabloc_transition compares them. */
  datatype Place = Place(face: nat, column: int)

  /** A line of a source: the block it belongs to and where it stands. */
  datatype Line = Line(block: nat, place: Place)

  datatype Range = Range(place: Place, first: nat, last: nat)

  type Presence = seq<Option<Place>>

  /** tabloc_transition. */
  predicate Transition(a: Place, b: Place) {
    a.face != b.face || a.column != b.column
  }

  /** Where a source stands in each of n blocks; of two lines in one block the later counts. */
  function PresenceOf(lines: seq<Line>, n: nat): (p: Presence)
    ensures |p| == n
  {
    if lines == [] then seq(n, _ => None)
    else
      var l := lines[|lines| - 1];
      var p := PresenceOf(lines[..|lines| - 1], n);
      if l.block < n then p[l.block := Some(l.place)] else p
  }

  /** A source is in a block exactly when one of its lines is. */
  lemma {:induction false} PresentIffLine(lines: seq<Line>, n: nat, b: nat)
    requires b < n
    ensures PresenceOf(lines, n)[b].Some? <==> exists i :: 0 <= i < |lines| && lines[i].block == b
  {
    if lines != [] {
      PresentIffLine(lines[..|lines| - 1], n, b);
    }
  }

  /** Where it stands there is where the last of these lines stands. */
  lemma {:induction false} LastLineCounts(lines: seq<Line>, n: nat, i: nat)
    requires i < |lines| && lines[i].block < n
    requires forall k :: i < k < |lines| ==> lines[k].block != lines[i].block
    ensures PresenceOf(lines, n)[lines[i].block] == Some(lines[i].place)
  {
    if i < |lines| - 1 { LastLineCounts(lines[..|lines| - 1], n, i); }
  }

  predicate InRange(r: Range, b: nat) { r.first <= b <= r.last }

  /** Blocks of one range: all there, all in one place. */
  ghost predicate Uniform(p: Presence, r: Range) {
    r.first <= r.last < |p| && forall b: nat :: InRange(r, b) ==> p[b] == Some(r.place)
  }

  /** Two neighbouring ranges in order, with a gap or a change of place between them. */
  predicate Apart(r: Range, s: Range) {
    r.last < s.first && (r.last + 1 == s.first ==> r.place != s.place)
  }

  predicate Ordered(rs: seq<Range>) {
    forall i :: 0 < i < |rs| ==> Apart(rs[i - 1], rs[i])
  }

  ghost predicate Covers(rs: seq<Range>, b: nat) {
    exists r :: r in rs && InRange(r, b)
  }

  /** The ranges of the blocks before `upto`: uniform, in order, as long as they can be, and together
      exactly the blocks where the source is. */
  ghost predicate Partitions(p: Presence, rs: seq<Range>, upto: nat)
    requires upto <= |p|
  {
    && (forall r :: r in rs ==> Uniform(p, r) && r.last < upto)
    && Ordered(rs)
    && (forall b :: 0 <= b < upto ==> (p[b].Some? <==> Covers(rs, b)))
  }

  /** Such ranges never overlap, however far apart in the list. */
  lemma {:induction false} NoOverlap(p: Presence, rs: seq<Range>, i: nat, j: nat)
    requires Partitions(p, rs, |p|) && i < j < |rs|
    ensures rs[i].last < rs[j].first
    decreases j
  {
    assert Apart(rs[j - 1], rs[j]);
    if i < j - 1 {
      NoOverlap(p, rs, i, j - 1);
      assert rs[j - 1] in rs && Uniform(p, rs[j - 1]);
    }
  }

  /** A presence has only one such list of ranges. */
  lemma {:induction false} OnePartition(p: Presence, rs: seq<Range>, ss: seq<Range>)
    requires Partitions(p, rs, |p|) && Partitions(p, ss, |p|)
    ensures rs == ss
  {
    forall i: nat | i < |rs| && i < |ss| ensures rs[i] == ss[i] {
      SameAt(p, rs, ss, i);
    }
    NoMore(p, rs, ss);
    NoMore(p, ss, rs);
  }

  /** A block of the i-th range or beyond is in no range of index below i. */
  lemma {:induction false} NotEarlier(p: Presence, rs: seq<Range>, ss: seq<Range>, i: nat, b: nat, j: nat)
    requires Partitions(p, rs, |p|) && Partitions(p, ss, |p|)
    requires i <= |rs| && i < |ss| && rs[..i] == ss[..i] && ss[i].first <= b
    requires j < |rs| && InRange(rs[j], b)
    ensures i <= j
  {
    if j < i {
      assert rs[j] == rs[..i][j] == ss[j];
      NoOverlap(p, ss, j, i);
    }
  }

  lemma {:induction false} SameAt(p: Presence, rs: seq<Range>, ss: seq<Range>, i: nat)
    requires Partitions(p, rs, |p|) && Partitions(p, ss, |p|) && i < |rs| && i < |ss|
    ensures rs[i] == ss[i]
    decreases i
  {
    forall k: nat | k < i ensures rs[k] == ss[k] { SameAt(p, rs, ss, k); }
    assert rs[..i] == ss[..i];
    FirstNotAfter(p, rs, ss, i);
    FirstNotAfter(p, ss, rs, i);
    LastNotAfter(p, rs, ss, i);
    LastNotAfter(p, ss, rs, i);
    assert rs[i] in rs && ss[i] in ss && Uniform(p, rs[i]) && Uniform(p, ss[i]);
    assert InRange(rs[i], rs[i].first) && InRange(ss[i], ss[i].first);
  }

  lemma {:induction false} FirstNotAfter(p: Presence, rs: seq<Range>, ss: seq<Range>, i: nat)
    requires Partitions(p, rs, |p|) && Partitions(p, ss, |p|) && i < |rs| && i < |ss| && rs[..i] == ss[..i]
    ensures rs[i].first <= ss[i].first
  {
    var b := ss[i].first;
    assert ss[i] in ss && Uniform(p, ss[i]) && InRange(ss[i], b);
    assert Covers(rs, b);
    var r :| r in rs && InRange(r, b);
    var j: nat :| j < |rs| && rs[j] == r;
    NotEarlier(p, rs, ss, i, b, j);
    if i < j { NoOverlap(p, rs, i, j); assert rs[i] in rs && Uniform(p, rs[i]); }
  }

  lemma {:induction false} LastNotAfter(p: Presence, rs: seq<Range>, ss: seq<Range>, i: nat)
    requires Partitions(p, rs, |p|) && Partitions(p, ss, |p|) && i < |rs| && i < |ss| && rs[..i] == ss[..i]
    requires rs[i].first == ss[i].first
    ensures rs[i].last <= ss[i].last
  {
    var r, s := rs[i], ss[i];
    assert r in rs && s in ss && Uniform(p, r) && Uniform(p, s);
    if s.last < r.last {
      var b := s.last + 1;
      assert InRange(r, b) && InRange(r, r.first) && InRange(s, s.first);
      assert p[b] == Some(r.place) == Some(s.place);
      assert Covers(ss, b);
      var t :| t in ss && InRange(t, b);
      var j: nat :| j < |ss| && ss[j] == t;
      assert Uniform(p, t);
      if j < i {
        NoOverlap(p, ss, j, i);
      } else if i + 1 < j {
        NoOverlap(p, ss, i + 1, j);
      }
    }
  }

  lemma {:induction false} NoMore(p: Presence, rs: seq<Range>, ss: seq<Range>)
    requires Partitions(p, rs, |p|) && Partitions(p, ss, |p|)
    requires forall i: nat :: i < |rs| && i < |ss| ==> rs[i] == ss[i]
    ensures |ss| <= |rs|
  {
    if |rs| < |ss| {
      var i := |rs|;
      var b := ss[i].first;
      assert rs[..i] == ss[..i];
      assert ss[i] in ss && Uniform(p, ss[i]) && InRange(ss[i], b) && Covers(rs, b);
      var r :| r in rs && InRange(r, b);
      var j: nat :| j < |rs| && rs[j] == r;
      NotEarlier(p, rs, ss, i, b, j);
    }
  }

  class Sources {
    var present: array<Option<Place>>   // sources_presence, one per block

    constructor (blocks: nat)
      ensures fresh(present) && present.Length == blocks
    {
      present := new Option<Place>[blocks](_ => None);
    }

    /** srcs_clear_presence. */
    method ClearPresence()
      modifies present
      ensures present[..] == PresenceOf([], present.Length)
    {
      var i := 0;
      while i < present.Length
        invariant 0 <= i <= present.Length
        invariant forall k :: 0 <= k < i ==> present[k] == None
      {
        present[i] := None;
        i := i + 1;
      }
    }

    /** srcs_set_presence over the lines of a source. */
    method SetPresence(lines: seq<Line>)
      requires present[..] == PresenceOf([], present.Length)
      requires forall l :: l in lines ==> l.block < present.Length
      modifies present
      ensures present[..] == PresenceOf(lines, present.Length)
    {
      assert lines[..0] == [];
      for i := 0 to |lines|
        invariant present[..] == PresenceOf(lines[..i], present.Length)
      {
        assert lines[..i + 1][..i] == lines[..i];
        present[lines[i].block] := Some(lines[i].place);
      }
      assert lines[..|lines|] == lines;
    }

    /** The range-building loops. */
    method BuildRanges() returns (ranges: seq<Range>)
      ensures Partitions(present[..], ranges, present.Length)
    {
      ghost var p := present[..];
      var n := present.Length;
      ranges := [];
      var presp := 0;
      while true
        invariant 0 <= presp <= n
        invariant Partitions(p, ranges, presp)
        invariant ranges != [] && presp < n && p[presp].Some? ==> ranges[|ranges| - 1].last + 1 < presp
        decreases n - presp
      {
        while presp < n && present[presp].None?
          invariant 0 <= presp <= n
          invariant Partitions(p, ranges, presp)
          invariant ranges != [] && presp < n && p[presp].Some? ==> ranges[|ranges| - 1].last + 1 < presp
        {
          assert !Covers(ranges, presp);
          presp := presp + 1;
        }
        if presp == n { break; }
        var first := presp;
        while presp < n && present[presp].Some?
          invariant first <= presp <= n
          invariant Partitions(p, ranges, first)
          invariant forall b :: first <= b < presp ==> p[b] == p[first]
          invariant first < presp ==> presp < n && p[presp] == p[first] && p[first].Some?
          invariant ranges != [] && first < n && p[first].Some? && ranges[|ranges| - 1].last + 1 == first ==>
                      ranges[|ranges| - 1].place != p[first].value
          invariant first < n || presp == n
          decreases n - presp
        {
          if presp + 1 == n || present[presp + 1].None? || Transition(present[presp].value, present[presp + 1].value) {
            var range := Range(present[presp].value, first, presp);
            Extend(p, ranges, range, first);
            ranges := ranges + [range];
            first := presp + 1;
          }
          presp := presp + 1;
        }
      }
    }

    /** srcs_in_lines: each source's ranges depend on its own lines only. */
    method SrcsInLines(sources: seq<seq<Line>>) returns (all: seq<seq<Range>>)
      requires forall s :: s in sources ==> forall l :: l in s ==> l.block < present.Length
      modifies present
      ensures |all| == |sources|
      ensures forall i :: 0 <= i < |sources| ==>
              Partitions(PresenceOf(sources[i], present.Length), all[i], present.Length)
    {
      all := [];
      for i := 0 to |sources|
        invariant |all| == i
        invariant forall k :: 0 <= k < i ==> Partitions(PresenceOf(sources[k], present.Length), all[k], present.Length)
      {
        ClearPresence();
        assert sources[i] in sources;
        SetPresence(sources[i]);
        var ranges := BuildRanges();
        all := all + [ranges];
      }
    }
  }

  /** Adding the next range. */
  lemma {:induction false} Extend(p: Presence, rs: seq<Range>, r: Range, first: nat)
    requires first <= |p| && Partitions(p, rs, first)
    requires r.first == first && Uniform(p, r)
    requires rs != [] && rs[|rs| - 1].last + 1 == first ==> rs[|rs| - 1].place != r.place
    ensures Partitions(p, rs + [r], r.last + 1)
  {
    var t := rs + [r];
    if rs != [] { assert rs[|rs| - 1] in rs; }
    forall i | 0 < i < |t| ensures Apart(t[i - 1], t[i]) {
      if i < |rs| { assert Apart(rs[i - 1], rs[i]); }
    }
    forall b | 0 <= b < r.last + 1 ensures p[b].Some? <==> Covers(t, b) {
      if b < first {
        if p[b].Some? {
          var q :| q in rs && InRange(q, b);
          assert q in t;
        }
        if Covers(t, b) {
          var q :| q in t && InRange(q, b);
          assert q in rs;
        }
      } else {
        assert r in t && InRange(r, b);
      }
    }
  }

  /** Line i is the last of the lines in block b. */
  predicate LastIn(lines: seq<Line>, b: nat, i: nat) {
    i < |lines| && lines[i].block == b && forall k :: i < k < |lines| ==> lines[k].block != b
  }

  lemma {:induction false} SomeLast(lines: seq<Line>, b: nat, j: nat) returns (i: nat)
    requires j < |lines| && lines[j].block == b
    ensures LastIn(lines, b, i)
    decreases |lines| - j
  {
    if k: nat :| j < k < |lines| && lines[k].block == b { i := SomeLast(lines, b, k); } else { i := j; }
  }

  /** The ranges of a source, told by its lines: a block is in one exactly if a line is in the block, and the range has
      the face and column of the last such line. */
  lemma {:induction false} RangesTellLines(lines: seq<Line>, n: nat, rs: seq<Range>, b: nat)
    requires Partitions(PresenceOf(lines, n), rs, n) && b < n
    ensures (exists r :: r in rs && r.first <= b <= r.last) <==> exists i :: 0 <= i < |lines| && lines[i].block == b
    ensures forall r, i: nat :: r in rs && r.first <= b <= r.last && LastIn(lines, b, i) ==>
              r.place.face == lines[i].place.face && r.place.column == lines[i].place.column
  {
    var p := PresenceOf(lines, n);
    PresentIffLine(lines, n, b);
    assert p[b].Some? <==> Covers(rs, b);
    forall r | r in rs ensures r.first <= b <= r.last <==> InRange(r, b) {}
    forall r, i: nat | r in rs && InRange(r, b) && LastIn(lines, b, i) ensures r.place == lines[i].place {
      LastLineCounts(lines, n, i);
      assert Uniform(p, r);
    }
  }

  /** It goes on into the next block exactly if the last lines of the two agree in face and column. */
  lemma {:induction false} RangeGoesOn(lines: seq<Line>, n: nat, rs: seq<Range>, r: Range, b: nat, i: nat, j: nat)
    requires Partitions(PresenceOf(lines, n), rs, n) && b + 1 < n
    requires r in rs && r.first <= b <= r.last && LastIn(lines, b, i) && LastIn(lines, b + 1, j)
    ensures b + 1 <= r.last <==>
            lines[i].place.face == lines[j].place.face && lines[i].place.column == lines[j].place.column
  {
    var p := PresenceOf(lines, n);
    LastLineCounts(lines, n, i);
    LastLineCounts(lines, n, j);
    assert Uniform(p, r) && InRange(r, b);
    if b + 1 <= r.last { assert InRange(r, b + 1); } else { NextRange(p, rs, r, b); }
  }

  /** A range that ends before a block where the source is, is ended by a change of place. */
  lemma {:induction false} NextRange(p: Presence, rs: seq<Range>, r: Range, b: nat)
    requires Partitions(p, rs, |p|) && r in rs && r.last == b && b + 1 < |p| && p[b + 1].Some?
    ensures p[b + 1] != Some(r.place)
  {
    assert Covers(rs, b + 1);
    var s :| s in rs && InRange(s, b + 1);
    var i: nat :| i < |rs| && rs[i] == r;
    var j: nat :| j < |rs| && rs[j] == s;
    assert Uniform(p, r) && Uniform(p, s);
    if j < i {
      NoOverlap(p, rs, j, i);
    } else if i + 1 < j {
      NoOverlap(p, rs, i, i + 1);
      NoOverlap(p, rs, i + 1, j);
    } else if i + 1 == j {
      assert Apart(rs[i], rs[j]);
      NoOverlap(p, rs, i, j);
    }
  }
}
