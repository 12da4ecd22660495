/** Telling apart people with one last name, and entries with one set of authors and one year. */
module Bibliography {
  import opened Common

  type Text = seq<byte>

  /** strcmp: the sign of the first difference. */
  function StrCmp(a: Text, b: Text): (r: int)
    ensures r == 0 <==> a == b
  {
    if a == [] then (if b == [] then 0 else -1)
    else if b == [] then 1
    else if a[0] != b[0] then (if a[0] < b[0] then -1 else 1)
    else assert a == b <==> a[1..] == b[1..] by { assert a == [a[0]] + a[1..] && b == [b[0]] + b[1..]; }
         StrCmp(a[1..], b[1..])
  }

  lemma {:induction false} StrCmpTurns(a: Text, b: Text)
    ensures StrCmp(a, b) < 0 <==> StrCmp(b, a) > 0
  {
    if a != [] && b != [] && a[0] == b[0] { StrCmpTurns(a[1..], b[1..]); }
  }

  lemma {:induction false} StrCmpTransitive(a: Text, b: Text, c: Text)
    requires StrCmp(a, b) <= 0 && StrCmp(b, c) <= 0
    ensures StrCmp(a, c) <= 0
  {
    if a != [] && b != [] && c != [] && a[0] == b[0] == c[0] { StrCmpTransitive(a[1..], b[1..], c[1..]); }
  }

  /** Strings that may be missing: a missing one comes first. */
  function OptCmp(a: Option<Text>, b: Option<Text>): (r: int)
    ensures r == 0 <==> a == b
  {
    if a.Some? && b.Some? then StrCmp(a.value, b.value)
    else if a.Some? then 1 else if b.Some? then -1 else 0
  }

  lemma {:induction false} OptCmpOrders(a: Option<Text>, b: Option<Text>, c: Option<Text>)
    ensures OptCmp(a, b) < 0 <==> OptCmp(b, a) > 0
    ensures OptCmp(a, b) <= 0 && OptCmp(b, c) <= 0 ==> OptCmp(a, c) <= 0
  {
    if a.Some? && b.Some? {
      StrCmpTurns(a.value, b.value);
      if c.Some? && OptCmp(a, b) <= 0 && OptCmp(b, c) <= 0 { StrCmpTransitive(a.value, b.value, c.value); }
    }
  }

  class Name {
    const last: Option<Text>
    const nkey: Option<Text>
    var sames: bool

    constructor (last: Option<Text>, nkey: Option<Text>)
      ensures this.last == last && this.nkey == nkey && !sames
    {
      this.last, this.nkey, sames := last, nkey, false;
    }
  }

  /** nam_cmp: by last name, then by name key. */
  function NamCmp(a: Name, b: Name): int {
    var cmp := OptCmp(a.last, b.last);
    if cmp != 0 then cmp else OptCmp(a.nkey, b.nkey)
  }

  /** nam_cmp orders names, as qsort needs it to. */
  lemma {:induction false} NamCmpOrders(a: Name, b: Name, c: Name)
    ensures NamCmp(a, b) < 0 <==> NamCmp(b, a) > 0
    ensures NamCmp(a, b) == 0 <==> a.last == b.last && a.nkey == b.nkey
    ensures NamCmp(a, b) <= 0 && NamCmp(b, c) <= 0 ==> NamCmp(a, c) <= 0
  {
    OptCmpOrders(a.last, b.last, c.last);
    OptCmpOrders(a.nkey, b.nkey, c.nkey);
    OptCmpOrders(c.last, b.last, a.last);
    OptCmpOrders(b.last, c.last, a.last);
  }

  /** Bytes in the order strcmp has them: at the first difference the smaller byte comes first, and a text before one
      that goes on. */
  predicate TextBefore(a: Text, b: Text) {
    exists k :: 0 <= k <= |a| && DiffersAt(a, b, k)
  }

  predicate DiffersAt(a: Text, b: Text, k: nat)
    requires k <= |a|
  {
    k < |b| && (k == |a| || a[k] < b[k]) && forall i :: 0 <= i < k ==> a[i] == b[i]
  }

  lemma {:induction false} BeforeAfterFirst(a: Text, b: Text)
    requires a != [] && b != [] && a[0] == b[0]
    ensures TextBefore(a, b) <==> TextBefore(a[1..], b[1..])
  {
    if TextBefore(a[1..], b[1..]) {
      var k :| 0 <= k <= |a[1..]| && DiffersAt(a[1..], b[1..], k);
      forall i | 0 <= i < k + 1 ensures a[i] == b[i] {
        if i > 0 { assert a[1..][i - 1] == b[1..][i - 1]; }
      }
      assert DiffersAt(a, b, k + 1);
    }
    if TextBefore(a, b) {
      var k :| 0 <= k <= |a| && DiffersAt(a, b, k);
      assert DiffersAt(a[1..], b[1..], k - 1);
    }
  }

  lemma {:induction false} FirstDiffers(a: Text, b: Text)
    requires a == [] || b == [] || a[0] != b[0]
    ensures TextBefore(a, b) <==> b != [] && (a == [] || a[0] < b[0])
  {
    assert DiffersAt(a, b, 0) <==> b != [] && (a == [] || a[0] < b[0]);
  }

  lemma {:induction false} StrCmpIsOrder(a: Text, b: Text)
    ensures StrCmp(a, b) < 0 <==> TextBefore(a, b)
  {
    hide TextBefore;
    if a != [] && b != [] && a[0] == b[0] {
      BeforeAfterFirst(a, b);
      StrCmpIsOrder(a[1..], b[1..]);
    } else {
      FirstDiffers(a, b);
    }
  }

  predicate Before(a: Option<Text>, b: Option<Text>) {
    b.Some? && (a.None? || TextBefore(a.value, b.value))
  }

  /** Names go by last name, and by key where that is the same; one that is missing comes first. */
  lemma {:induction false} NamCmpByLast(a: Name, b: Name)
    ensures NamCmp(a, b) < 0 <==> Before(a.last, b.last) || (a.last == b.last && Before(a.nkey, b.nkey))
  {
    hide TextBefore, StrCmp;
    if a.last.Some? && b.last.Some? { StrCmpIsOrder(a.last.value, b.last.value); }
    if a.nkey.Some? && b.nkey.Some? { StrCmpIsOrder(a.nkey.value, b.nkey.value); }
    OptCmpOrders(a.last, b.last, a.last);
  }

  predicate Sorted(people: seq<Name>) {
    forall i :: 0 < i < |people| ==> NamCmp(people[i - 1], people[i]) <= 0
  }

  /** Another person of the table has this one's last name. */
  predicate SharesLast(table: set<Name>, p: Name) {
    p.last.Some? && exists q :: q in table && q != p && q.last == p.last
  }

  lemma {:induction false} SortedLasts(people: seq<Name>, i: nat, j: nat)
    requires Sorted(people) && i <= j < |people|
    ensures OptCmp(people[i].last, people[j].last) <= 0
    decreases j - i
  {
    if i < j {
      SortedLasts(people, i, j - 1);
      assert NamCmp(people[j - 1], people[j]) <= 0;
      OptCmpOrders(people[i].last, people[j - 1].last, people[j].last);
    }
  }

  /** In sorted order people with one last name stand together. */
  lemma {:induction false} SameLastsMeet(people: seq<Name>, i: nat, k: nat, j: nat)
    requires Sorted(people) && i <= k <= j < |people| && people[i].last == people[j].last
    ensures people[k].last == people[i].last
  {
    SortedLasts(people, i, k);
    SortedLasts(people, k, j);
    OptCmpOrders(people[i].last, people[k].last, people[i].last);
  }

  predicate SameLast(people: seq<Name>, i: int) {
    0 < i < |people| && people[i - 1].last.Some? && people[i - 1].last == people[i].last
  }

  lemma {:induction false} NeighboursTell(table: set<Name>, people: seq<Name>, i: nat)
    requires Sorted(people) && multiset(people) == multiset(table) && i < |people|
    ensures SharesLast(table, people[i]) <==> SameLast(people, i) || SameLast(people, i + 1)
  {
    var p := people[i];
    Distinct(table, people);
    if SharesLast(table, p) {
      var q :| q in table && q != p && q.last == p.last;
      assert q in multiset(people);
      var j :| 0 <= j < |people| && people[j] == q;
      if j < i { SameLastsMeet(people, j, i - 1, i); } else { SameLastsMeet(people, i, i + 1, j); }
    }
    if SameLast(people, i) { assert people[i - 1] in multiset(people); }
    if SameLast(people, i + 1) { assert people[i + 1] in multiset(people); }
  }

  lemma {:induction false} Distinct(table: set<Name>, people: seq<Name>)
    requires multiset(people) == multiset(table)
    ensures forall i, j :: 0 <= i < j < |people| ==> people[i] != people[j]
  {
    forall i, j | 0 <= i < j < |people| ensures people[i] != people[j] {
      var a, b := people[..j], people[j..];
      assert people == a + b && people[i] == a[i] && people[j] == b[0];
      assert multiset(people) == multiset(a) + multiset(b);
      assert multiset(people)[people[i]] == multiset(table)[people[i]] <= 1;
    }
  }

  /** One comparison of bib_disamb_people. */
  method MarkPair(people: seq<Name>, i: nat)
    requires i + 1 < |people|
    requires forall k, l :: 0 <= k < l < |people| ==> people[k] != people[l]
    requires forall k :: 0 <= k < |people| ==> (people[k].sames <==> Compared(people, k, i))
    modifies people[i], people[i + 1]
    ensures forall k :: 0 <= k < |people| ==> (people[k].sames <==> Compared(people, k, i + 1))
  {
    assert forall k :: 0 <= k < |people| && k != i && k != i + 1 ==>
           Compared(people, k, i + 1) == Compared(people, k, i);
    assert Compared(people, i + 1, i + 1) == SameLast(people, i + 1);
    if people[i].last.Some? && people[i + 1].last.Some? && StrCmp(people[i].last.value, people[i + 1].last.value) == 0 {
      people[i + 1].sames := true;
      people[i].sames := true;
    }
  }

  /** bib_disamb_people, after qsort has put the table in order: a person is marked exactly when another
      one in the table has the same last name. */
  method DisambPeople(ghost table: set<Name>, people: seq<Name>)
    requires Sorted(people) && multiset(people) == multiset(table)
    requires forall p :: p in table ==> !p.sames
    modifies people
    ensures forall p :: p in table ==> (p.sames <==> SharesLast(table, p))
  {
    Distinct(table, people);
    forall i | 0 <= i < |people| ensures people[i] in table && !people[i].sames {
      assert people[i] in multiset(people);
    }
    var i, penult := 0, |people| - 1;
    while i < penult
      invariant i == 0 || 0 <= i <= penult
      invariant forall k :: 0 <= k < |people| ==> (people[k].sames <==> Compared(people, k, i))
    {
      MarkPair(people, i);
      i := i + 1;
    }
    forall p | p in table ensures p.sames <==> SharesLast(table, p) {
      assert p in multiset(people);
      var k :| 0 <= k < |people| && people[k] == p;
      NeighboursTell(table, people, k);
      assert people[k].sames <==> Compared(people, k, i);
    }
  }

  /** Person k has the last name of a neighbour among the first `upto` pairs of neighbours. */
  predicate Compared(people: seq<Name>, k: int, upto: int) {
    (k <= upto && SameLast(people, k)) || (k < upto && SameLast(people, k + 1))
  }

  // ---------- Entries ----------

  datatype NameInfo = NameInfo(allnames: Text, names: seq<Name>)

  class Bibentry {
    const author: Option<NameInfo>
    const editor: Option<NameInfo>
    const bookauthor: Option<NameInfo>
    const translator: Option<NameInfo>
    const year: int
    var sameauth: bool
    var disamb: nat

    constructor (author: Option<NameInfo>, editor: Option<NameInfo>, bookauthor: Option<NameInfo>,
                 translator: Option<NameInfo>, year: int)
      ensures this.author == author && this.editor == editor && this.bookauthor == bookauthor
      ensures this.translator == translator && this.year == year && !sameauth && disamb == 0
    {
      this.author, this.editor, this.bookauthor, this.translator := author, editor, bookauthor, translator;
      this.year, sameauth, disamb := year, false, 0;
    }
  }

  /** bib_which_allnames: the first of the four name lists that there is. */
  function WhichAllnames(e: Bibentry): Text {
    if e.author.Some? then e.author.value.allnames
    else if e.editor.Some? then e.editor.value.allnames
    else if e.bookauthor.Some? then e.bookauthor.value.allnames
    else if e.translator.Some? then e.translator.value.allnames
    else []
  }

  /** An entry with an author is compared by its authors, one without by its editors, and so on. */
  lemma {:induction false} ComparedBy(e: Bibentry, lists: seq<Option<NameInfo>>, k: nat)
    requires lists == [e.author, e.editor, e.bookauthor, e.translator] && k <= 4
    requires (k < 4 ==> lists[k].Some?) && forall j :: 0 <= j < k ==> lists[j].None?
    ensures WhichAllnames(e) == if k < 4 then lists[k].value.allnames else []
  {
    assert lists[0] == e.author && lists[1] == e.editor && lists[2] == e.bookauthor && lists[3] == e.translator;
  }

  /** Entry i has the names, or the names and year, of the one before it. */
  predicate SameNames(ents: seq<Bibentry>, i: int) {
    0 < i < |ents| && WhichAllnames(ents[i - 1]) == WhichAllnames(ents[i])
  }

  predicate SameNamesYear(ents: seq<Bibentry>, i: int) {
    SameNames(ents, i) && ents[i - 1].year == ents[i].year
  }

  /** How many entries before entry i it continues a run of. */
  function Behind(ents: seq<Bibentry>, i: nat): nat {
    if i > 0 && SameNamesYear(ents, i) then 1 + Behind(ents, i - 1) else 0
  }

  /** The number entry i gets once the first `upto` pairs of neighbours have been compared. */
  function Number(ents: seq<Bibentry>, i: nat, upto: nat): nat {
    if i <= upto && (SameNamesYear(ents, i) || (i < upto && SameNamesYear(ents, i + 1))) then Behind(ents, i) + 1 else 0
  }

  predicate Agree(e: Bibentry, f: Bibentry) { WhichAllnames(e) == WhichAllnames(f) && e.year == f.year }

  /** Entries a..b agree in names and year, and neither neighbour of the stretch agrees with them. */
  predicate MaximalRun(ents: seq<Bibentry>, a: nat, b: nat) {
    && a <= b < |ents|
    && (forall i :: a <= i <= b ==> Agree(ents[i], ents[a]))
    && (a > 0 ==> !Agree(ents[a - 1], ents[a])) && (b + 1 < |ents| ==> !Agree(ents[b + 1], ents[a]))
  }

  /** So a maximal run of two or more is numbered 1, 2, ... and a lone entry gets 0. */
  lemma {:induction false} RunsAreNumbered(ents: seq<Bibentry>, a: nat, b: nat, i: nat)
    requires MaximalRun(ents, a, b) && a <= i <= b
    ensures Number(ents, i, |ents|) == if a < b then i - a + 1 else 0
  {
    BehindInRun(ents, a, b, i);
  }

  lemma {:induction false} BehindInRun(ents: seq<Bibentry>, a: nat, b: nat, i: nat)
    requires MaximalRun(ents, a, b) && a <= i <= b
    ensures Behind(ents, i) == i - a
  {
    if a < i { BehindInRun(ents, a, b, i - 1); }
  }

  /** Every entry is in one maximal run. */
  lemma {:induction false} InARun(ents: seq<Bibentry>, i: nat) returns (a: nat, b: nat)
    requires i < |ents|
    ensures MaximalRun(ents, a, b) && a <= i <= b
  {
    a, b := i, i;
    while a > 0 && Agree(ents[a - 1], ents[i])
      invariant a <= i && forall k :: a <= k <= i ==> Agree(ents[k], ents[i])
    {
      a := a - 1;
    }
    while b + 1 < |ents| && Agree(ents[b + 1], ents[i])
      invariant i <= b < |ents| && forall k :: a <= k <= b ==> Agree(ents[k], ents[i])
    {
      b := b + 1;
    }
  }

  type People = map<Text, Name>

  predicate Keyed(names: seq<Name>) {
    forall n :: n in names ==> n.nkey.Some?
  }

  predicate EntryKeyed(e: Bibentry) {
    && (e.author.Some? ==> Keyed(e.author.value.names))
    && (e.editor.Some? ==> Keyed(e.editor.value.names))
    && (e.bookauthor.Some? ==> Keyed(e.bookauthor.value.names))
    && (e.translator.Some? ==> Keyed(e.translator.value.names))
  }

  function Listed(info: Option<NameInfo>): seq<Name> {
    if info.Some? then info.value.names else []
  }

  /** All names of an entry, in the order bib_add_people adds them. */
  function NamesOf(e: Bibentry): seq<Name> {
    Listed(e.author) + Listed(e.editor) + Listed(e.bookauthor) + Listed(e.translator)
  }

  function AllNames(ents: seq<Bibentry>): seq<Name> {
    if ents == [] then [] else AllNames(ents[..|ents| - 1]) + NamesOf(ents[|ents| - 1])
  }

  /** The table holds the keys of the names, each with one of the names that have it: the last added. */
  ghost predicate TableOf(people: People, names: seq<Name>) {
    && (forall n :: n in names ==> n.nkey.Some? && n.nkey.value in people)
    && forall k :: k in people ==> LastWith(names, k, people[k])
  }

  ghost predicate LastWith(names: seq<Name>, key: Text, n: Name) {
    exists i :: 0 <= i < |names| && names[i] == n && n.nkey == Some(key) &&
                forall j :: i < j < |names| ==> names[j].nkey != Some(key)
  }

  lemma {:induction false} AllNamesJoin(a: seq<Bibentry>, b: seq<Bibentry>)
    ensures AllNames(a + b) == AllNames(a) + AllNames(b)
    decreases |b|
  {
    hide AllNames, NamesOf;
    if b == [] {
      assert a + b == a;
      NoNames();
    } else {
      var front, e := b[..|b| - 1], b[|b| - 1];
      assert a + b == (a + front) + [e] && b == front + [e];
      AllNamesJoin(a, front);
      MoreNames(a + front, e);
      MoreNames(front, e);
    }
  }

  lemma {:induction false} NoNames()
    ensures AllNames([]) == []
  {
  }

  lemma {:induction false} MoreNames(s: seq<Bibentry>, e: Bibentry)
    ensures AllNames(s + [e]) == AllNames(s) + NamesOf(e)
  {
    assert (s + [e])[..|s|] == s;
  }

  /** Of people with one key the one named last is in the table: in the last entry that names one, and there as a
      translator rather than an author of the book, as that rather than an editor, as an editor rather than an author;
      and in one list the last. */
  lemma {:induction false} LastNamedStays(people: People, front: seq<Bibentry>, e: Bibentry, back: seq<Bibentry>,
      lists: seq<Option<NameInfo>>, r: nat, i: nat, key: Text)
    requires TableOf(people, AllNames(front + [e] + back))
    requires lists == [e.author, e.editor, e.bookauthor, e.translator] && r < 4 && lists[r].Some?
    requires i < |lists[r].value.names| && lists[r].value.names[i].nkey == Some(key)
    requires forall j :: i < j < |lists[r].value.names| ==> lists[r].value.names[j].nkey != Some(key)
    requires forall q, n :: r < q < 4 && lists[q].Some? && n in lists[q].value.names ==> n.nkey != Some(key)
    requires forall n :: n in AllNames(back) ==> n.nkey != Some(key)
    ensures key in people && people[key] == lists[r].value.names[i]
  {
    hide AllNames, TableOf, NamesOf;
    var pre, post := RoleSplit(e, lists, r);
    NamesAround(front, e, back);
    assert AllNames(front) + (pre + lists[r].value.names + post) + AllNames(back) ==
           (AllNames(front) + pre) + lists[r].value.names + (post + AllNames(back));
    LastOfAll(people, AllNames(front) + pre, lists[r].value.names, i, post + AllNames(back), key);
  }

  lemma {:induction false} NamesAround(front: seq<Bibentry>, e: Bibentry, back: seq<Bibentry>)
    ensures AllNames(front + [e] + back) == AllNames(front) + NamesOf(e) + AllNames(back)
  {
    hide AllNames, NamesOf;
    AllNamesJoin(front + [e], back);
    AllNamesJoin(front, [e]);
    MoreNames([], e);
    NoNames();
    assert [] + [e] == [e];
  }

  lemma {:induction false} LastOfAll(people: People, a: seq<Name>, names: seq<Name>, i: nat, z: seq<Name>, key: Text)
    requires TableOf(people, a + names + z) && i < |names| && names[i].nkey == Some(key)
    requires forall j :: i < j < |names| ==> names[j].nkey != Some(key)
    requires forall n :: n in z ==> n.nkey != Some(key)
    ensures key in people && people[key] == names[i]
  {
    var all := a + names + z;
    forall j | |a| + i < j < |all| ensures all[j].nkey != Some(key) {
      if j < |a| + |names| { assert all[j] == names[j - |a|]; } else { assert all[j] in z; }
    }
    assert all[|a| + i] == names[i] && names[i] in all;
    assert LastWith(all, key, people[key]);
  }

  /** The names of an entry before and after one of its lists. */
  lemma {:induction false} RoleSplit(e: Bibentry, lists: seq<Option<NameInfo>>, r: nat)
      returns (pre: seq<Name>, post: seq<Name>)
    requires lists == [e.author, e.editor, e.bookauthor, e.translator] && r < 4 && lists[r].Some?
    ensures NamesOf(e) == pre + lists[r].value.names + post
    ensures forall n :: n in post ==> exists q :: r < q < 4 && lists[q].Some? && n in lists[q].value.names
  {
    var a, b, c, d := Listed(e.author), Listed(e.editor), Listed(e.bookauthor), Listed(e.translator);
    assert lists[0] == e.author && lists[1] == e.editor && lists[2] == e.bookauthor && lists[3] == e.translator;
    pre := if r == 0 then [] else if r == 1 then a else if r == 2 then a + b else a + b + c;
    post := if r == 0 then b + c + d else if r == 1 then c + d else if r == 2 then d else [];
  }

  /** add_people. */
  method AddPeople(people: People, ghost before: seq<Name>, names: seq<Name>) returns (r: People)
    requires TableOf(people, before) && Keyed(names)
    ensures TableOf(r, before + names)
  {
    r := people;
    assert before + names[..0] == before;
    for i := 0 to |names|
      invariant TableOf(r, before + names[..i])
    {
      ghost var s := before + names[..i];
      var n := names[i];
      assert before + names[..i + 1] == s + [n];
      AddOne(r, s, n);
      r := r[n.nkey.value := n];
    }
    assert names[..|names|] == names;
  }

  lemma {:induction false} AddOne(people: People, s: seq<Name>, n: Name)
    requires TableOf(people, s) && n.nkey.Some?
    ensures TableOf(people[n.nkey.value := n], s + [n])
  {
    var r, t := people[n.nkey.value := n], s + [n];
    forall k | k in r ensures LastWith(t, k, r[k]) {
      if k == n.nkey.value {
        assert t[|s|] == n;
      } else {
        assert LastWith(s, k, people[k]);
        var i :| 0 <= i < |s| && s[i] == people[k] && people[k].nkey == Some(k) &&
                 forall j :: i < j < |s| ==> s[j].nkey != Some(k);
        assert t[i] == people[k];
      }
    }
  }

  /** bib_add_people. */
  method BibAddPeople(people: People, ghost before: seq<Name>, e: Bibentry) returns (r: People)
    requires TableOf(people, before) && EntryKeyed(e)
    ensures TableOf(r, before + NamesOf(e))
  {
    r := people;
    ghost var a, b, c, d := Listed(e.author), Listed(e.editor), Listed(e.bookauthor), Listed(e.translator);
    NothingAdded(before, before + a, before + a + b, before + a + b + c);
    if e.author.Some? { r := AddPeople(r, before, e.author.value.names); }
    if e.editor.Some? { r := AddPeople(r, before + a, e.editor.value.names); }
    if e.bookauthor.Some? { r := AddPeople(r, before + a + b, e.bookauthor.value.names); }
    if e.translator.Some? { r := AddPeople(r, before + a + b + c, e.translator.value.names); }
    JoinedNames(before, a, b, c, d);
  }

  lemma {:induction false} NothingAdded<T>(s: seq<T>, t: seq<T>, u: seq<T>, v: seq<T>)
    ensures s + [] == s && t + [] == t && u + [] == u && v + [] == v
  {
  }

  lemma {:induction false} JoinedNames<T>(s: seq<T>, a: seq<T>, b: seq<T>, c: seq<T>, d: seq<T>)
    ensures s + a + b + c + d == s + (a + b + c + d)
  {
  }

  /** One comparison of bib_disambiguate. */
  method CompareNeighbours(ents: seq<Bibentry>, i: nat)
    requires i + 1 < |ents|
    requires forall k, l :: 0 <= k < l < |ents| ==> ents[k] != ents[l]
    requires forall k :: 0 <= k < |ents| ==> ents[k].disamb == Number(ents, k, i)
    requires forall k :: 0 <= k < |ents| ==> (ents[k].sameauth <==> k <= i && SameNames(ents, k))
    modifies ents[i], ents[i + 1]
    ensures forall k :: 0 <= k < |ents| ==> ents[k].disamb == Number(ents, k, i + 1)
    ensures forall k :: 0 <= k < |ents| ==> (ents[k].sameauth <==> k <= i + 1 && SameNames(ents, k))
  {
    forall k | 0 <= k < |ents| && k != i && k != i + 1 ensures Number(ents, k, i + 1) == Number(ents, k, i) {}
    assert !SameNamesYear(ents, i) ==> Behind(ents, i) == 0;
    assert SameNamesYear(ents, i + 1) ==> Behind(ents, i + 1) == Behind(ents, i) + 1;
    assert Number(ents, i, i + 1) == if SameNamesYear(ents, i + 1) then Behind(ents, i) + 1 else Number(ents, i, i);
    assert Number(ents, i + 1, i + 1) == if SameNamesYear(ents, i + 1) then Behind(ents, i) + 2 else 0;
    var thisNames, nextNames := WhichAllnames(ents[i]), WhichAllnames(ents[i + 1]);
    if StrCmp(thisNames, nextNames) == 0 {
      ents[i + 1].sameauth := true;
      if ents[i].year == ents[i + 1].year {
        if ents[i].disamb == 0 { ents[i].disamb := 1; }
        ents[i + 1].disamb := ents[i].disamb + 1;
      }
    }
  }

  lemma {:induction false} NamesNext(ents: seq<Bibentry>, i: nat)
    requires i < |ents|
    ensures AllNames(ents[..i + 1]) == AllNames(ents[..i]) + NamesOf(ents[i])
  {
    assert ents[..i + 1][..i] == ents[..i];
  }

  lemma {:induction false} NothingYet()
    ensures TableOf(map[], [])
  {
  }

  lemma {:induction false} NumberedFirst(ents: seq<Bibentry>)
    ensures forall k :: 0 <= k < |ents| ==> Number(ents, k, 0) == 0
    ensures |ents| > 0 ==> !SameNames(ents, 0)
  {
  }

  lemma {:induction false} NumberedLast(ents: seq<Bibentry>)
    ensures forall k :: 0 <= k < |ents| ==> Number(ents, k, |ents| - 1) == Number(ents, k, |ents|)
  {
  }

  /** bib_disambiguate up to its call of bib_disamb_people. */
  method Disambiguate(ents: seq<Bibentry>) returns (people: People)
    requires forall e :: e in ents ==> e.disamb == 0 && !e.sameauth && EntryKeyed(e)
    requires forall i, j :: 0 <= i < j < |ents| ==> ents[i] != ents[j]
    modifies ents
    ensures forall i :: 0 <= i < |ents| ==> ents[i].disamb == Number(ents, i, |ents|)
    ensures forall i :: 0 <= i < |ents| ==> (ents[i].sameauth <==> SameNames(ents, i))
    ensures TableOf(people, AllNames(ents))
  {
    hide TableOf, Number, SameNames, EntryKeyed, NamesOf;
    people := map[];
    NothingYet();
    if |ents| == 0 { return; }
    var i, penult := 0, |ents| - 1;
    assert ents[..0] == [];
    NumberedFirst(ents);
    while i < penult
      invariant 0 <= i <= penult
      invariant forall k :: 0 <= k < |ents| ==> ents[k].disamb == Number(ents, k, i)
      invariant forall k :: 0 <= k < |ents| ==> (ents[k].sameauth <==> k <= i && SameNames(ents, k))
      invariant TableOf(people, AllNames(ents[..i]))
    {
      NamesNext(ents, i);
      people := BibAddPeople(people, AllNames(ents[..i]), ents[i]);
      CompareNeighbours(ents, i);
      i := i + 1;
    }
    assert ents[..penult + 1] == ents;
    NamesNext(ents, penult);
    NumberedLast(ents);
    people := BibAddPeople(people, AllNames(ents[..penult]), ents[penult]);
  }

  // ---------- The whole of it ----------

  predicate EndsWith(r: seq<Name>, people: seq<Name>, n: Name) {
    r != [] && (r[|r| - 1] == n || (people != [] && r[|r| - 1] == people[|people| - 1]))
  }

  /** A list in order with one more name where it belongs. */
  method Insert(people: seq<Name>, n: Name) returns (r: seq<Name>)
    requires Sorted(people)
    ensures Sorted(r) && multiset(r) == multiset(people) + multiset{n} && EndsWith(r, people, n)
    decreases |people|
  {
    hide NamCmp, Sorted;
    if people == [] || NamCmp(people[|people| - 1], n) <= 0 {
      SortedMore(people, n);
      r := people + [n];
    } else {
      var front, last := people[..|people| - 1], people[|people| - 1];
      NamCmpOrders(last, n, n);
      SortedFront(people);
      r := Insert(front, n);
      SortedMore(r, last);
      assert people == front + [last];
      r := r + [last];
    }
  }

  lemma {:induction false} SortedMore(people: seq<Name>, n: Name)
    requires Sorted(people) && (people != [] ==> NamCmp(people[|people| - 1], n) <= 0)
    ensures Sorted(people + [n])
  {
    hide NamCmp;
  }

  lemma {:induction false} SortedFront(people: seq<Name>)
    requires Sorted(people) && people != []
    ensures var front, last := people[..|people| - 1], people[|people| - 1];
            Sorted(front) && (front != [] ==> NamCmp(front[|front| - 1], last) <= 0)
  {
    hide NamCmp;
  }

  /** Stands for hash_vals2 and qsort: the people of the table in the order of nam_cmp. */
  method Ordered(table: set<Name>) returns (people: seq<Name>)
    ensures Sorted(people) && multiset(people) == multiset(table)
  {
    people := [];
    var rest := table;
    while rest != {}
      invariant rest <= table && Sorted(people) && multiset(people) == multiset(table - rest)
      decreases |rest|
    {
      var n :| n in rest;
      people := Insert(people, n);
      assert multiset(table - (rest - {n})) == multiset(table - rest) + multiset{n};
      rest := rest - {n};
    }
    assert table - rest == table;
  }

  function Everyone(people: People): set<Name> {
    set k | k in people :: people[k]
  }

  lemma {:induction false} EveryoneNamed(people: People, names: seq<Name>)
    requires TableOf(people, names)
    ensures forall p :: p in Everyone(people) ==> p in names
  {
    forall p | p in Everyone(people) ensures p in names {
      var k :| k in people && people[k] == p;
      assert LastWith(names, k, p);
    }
  }

  /** bib_disambiguate: entries are numbered within their runs, and of the people in the table those who share
      a last name with another are marked. */
  method BibDisambiguate(ents: seq<Bibentry>, ghost names: seq<Name>) returns (people: People)
    requires forall e :: e in ents ==> e.disamb == 0 && !e.sameauth && EntryKeyed(e)
    requires forall i, j :: 0 <= i < j < |ents| ==> ents[i] != ents[j]
    requires names == AllNames(ents) && forall n :: n in names ==> !n.sames
    modifies ents, names
    ensures forall i :: 0 <= i < |ents| ==> ents[i].disamb == Number(ents, i, |ents|)
    ensures forall i :: 0 <= i < |ents| ==>
              (ents[i].sameauth <==> i > 0 && WhichAllnames(ents[i - 1]) == WhichAllnames(ents[i]))
    ensures TableOf(people, names)
    ensures forall k :: k in people ==>
              (people[k].sames <==>
               people[k].last.Some? &&
               exists l :: l in people && people[l] != people[k] && people[l].last == people[k].last)
  {
    hide TableOf, Number, EntryKeyed, AllNames, Sorted, SharesLast;
    people := Disambiguate(ents);
    EveryoneNamed(people, names);
    var table := Everyone(people);
    var order := Ordered(table);
    InTable(table, order);
    forall i | 0 <= i < |order| ensures order[i] in names { assert order[i] in order; }
    DisambPeople(table, order);
    forall k | k in people { SharesInTable(people, k); }
  }

  lemma {:induction false} SharesInTable(people: People, k: Text)
    requires k in people
    ensures people[k] in Everyone(people)
    ensures SharesLast(Everyone(people), people[k]) <==>
            people[k].last.Some? &&
            exists l :: l in people && people[l] != people[k] && people[l].last == people[k].last
  {
    if SharesLast(Everyone(people), people[k]) {
      var q :| q in Everyone(people) && q != people[k] && q.last == people[k].last;
      var l :| l in people && people[l] == q;
    }
  }

  lemma {:induction false} InTable(table: set<Name>, people: seq<Name>)
    requires multiset(people) == multiset(table)
    ensures forall p :: p in people ==> p in table
  {
    forall p | p in people ensures p in table { assert p in multiset(people); }
  }
}
