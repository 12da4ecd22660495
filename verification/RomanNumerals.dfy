/** Reading a column number in Roman numerals: Arabicised. */
module RomanNumerals {

  function ToUpper(c: char): char {
    if 'a' <= c <= 'z' then ((c as int) - 32) as char else c
  }

  function Value(c: char): nat {
    match ToUpper(c)
    case 'I' => 1
    case 'V' => 5
    case 'X' => 10
    case 'L' => 50
    case 'C' => 100
    case 'D' => 500
    case 'M' => 1000
    case _ => 0
  }

  /** The running value and the biggest letter so far. */
  datatype State = State(v: int, big: nat)

  function Step(st: State, c: char): State {
    var n := Value(c);
    if n < st.big then st.(v := st.v - n) else State(st.v + n, n)
  }

  /** The letters taken from the right. */
  function Read(s: string, st: State): State {
    if s == [] then st else Read(s[..|s| - 1], Step(st, s[|s| - 1]))
  }

  /** Arabicised. */
  method Arabicised(roman: string) returns (v: int)
    ensures v == Read(roman, State(0, 0)).v
  {
    v := 0;
    var big := 0;
    if |roman| == 0 { return; }
    var i := |roman| - 1;
    assert roman[..i + 1] == roman;
    while i >= 0
      invariant -1 <= i < |roman|
      invariant Read(roman[..i + 1], State(v, big)) == Read(roman, State(0, 0))
    {
      assert roman[..i + 1][..i] == roman[..i];
      var n := Value(roman[i]);
      if n < big {
        v := v - n;
      } else {
        v := v + n;
        if n > big { big := n; }
      }
      i := i - 1;
    }
  }

  // ---------- What it reads ----------

  /** One decimal digit in the letters for one, five and ten of it. */
  function Digit(d: nat, one: char, five: char, ten: char): string
    requires d < 10
  {
    match d
    case 0 => []
    case 1 => [one]
    case 2 => [one, one]
    case 3 => [one, one, one]
    case 4 => [one, five]
    case 5 => [five]
    case 6 => [five, one]
    case 7 => [five, one, one]
    case 8 => [five, one, one, one]
    case 9 => [one, ten]
  }

  function Thousands(n: nat): string {
    if n == 0 then [] else ['M'] + Thousands(n - 1)
  }

  /** The standard form of n, with as many M as it takes. */
  function Roman(n: nat): string {
    var tens := n / 10;
    var hundreds := tens / 10;
    Thousands(hundreds / 10) + Digit(hundreds % 10, 'C', 'D', 'M') + Digit(tens % 10, 'X', 'L', 'C') +
        Digit(n % 10, 'I', 'V', 'X')
  }

  lemma {:induction false} ReadAppend(a: string, b: string, st: State)
    ensures Read(a + b, st) == Read(a, Read(b, st))
    decreases |b|
  {
    if b == [] {
      assert a + b == a;
    } else {
      assert (a + b)[..|a + b| - 1] == a + b[..|b| - 1];
      ReadAppend(a, b[..|b| - 1], Step(st, b[|b| - 1]));
    }
  }

  lemma {:induction false} ReadOne(c: char, st: State)
    ensures Read([c], st) == Step(st, c)
  {
    assert [c][..0] == [];
  }

  lemma {:induction false} ReadFew(a: char, b: char, c: char, d: char, st: State)
    ensures Read([a, b], st) == Step(Step(st, b), a)
    ensures Read([a, b, c], st) == Step(Step(Step(st, c), b), a)
    ensures Read([a, b, c, d], st) == Step(Step(Step(Step(st, d), c), b), a)
  {
    assert [a, b, c, d] == [a] + [b] + [c] + [d] && [a, b, c] == [a] + [b] + [c] && [a, b] == [a] + [b];
    ReadAppend([a] + [b] + [c], [d], st);
    ReadAppend([a] + [b], [c], Step(st, d));
    ReadAppend([a] + [b], [c], st);
    ReadAppend([a], [b], Step(Step(st, d), c));
    ReadAppend([a], [b], Step(st, c));
    ReadAppend([a], [b], st);
    forall e, t { ReadOne(e, t); }
  }

  /** Read from the right, a digit adds its value as long as nothing bigger than its unit came before. */
  lemma {:induction false} ReadDigit(d: nat, one: char, five: char, ten: char, st: State)
    requires d < 10 && Value(one) > 0 && Value(five) == 5 * Value(one) && Value(ten) == 10 * Value(one)
    requires st.big <= Value(one)
    ensures var r := Read(Digit(d, one, five, ten), st); r.v == st.v + d * Value(one) && r.big <= Value(ten)
  {
    ReadOne(one, st);
    ReadOne(five, st);
    ReadFew(one, one, one, one, st);
    ReadFew(five, one, one, one, st);
    ReadFew(one, five, one, one, st);
    ReadFew(one, ten, one, one, st);
  }

  lemma {:induction false} ReadThousands(n: nat, st: State)
    requires st.big <= 1000
    ensures Read(Thousands(n), st).v == st.v + 1000 * n && Read(Thousands(n), st).big <= 1000
  {
    if n > 0 {
      ReadAppend(['M'], Thousands(n - 1), st);
      ReadThousands(n - 1, st);
      ReadOne('M', Read(Thousands(n - 1), st));
    }
  }

  lemma {:induction false} ReadParts(m: nat, c: nat, x: nat, i: nat)
    requires c < 10 && x < 10 && i < 10
    ensures Read(Thousands(m) + Digit(c, 'C', 'D', 'M') + Digit(x, 'X', 'L', 'C') +
            Digit(i, 'I', 'V', 'X'), State(0, 0)).v
            == 1000 * m + 100 * c + 10 * x + i
  {
    ReadDigit(i, 'I', 'V', 'X', State(0, 0));
    var s1 := Read(Digit(i, 'I', 'V', 'X'), State(0, 0));
    ReadDigit(x, 'X', 'L', 'C', s1);
    var s2 := Read(Digit(x, 'X', 'L', 'C'), s1);
    ReadDigit(c, 'C', 'D', 'M', s2);
    ReadThousands(m, Read(Digit(c, 'C', 'D', 'M'), s2));
    ReadJoined(Thousands(m), Digit(c, 'C', 'D', 'M'), Digit(x, 'X', 'L', 'C'), Digit(i, 'I', 'V', 'X'), State(0, 0));
  }

  /** Round trip: the standard form of n reads as n. */
  lemma {:induction false} ReadRoman(n: nat)
    ensures Read(Roman(n), State(0, 0)).v == n
  {
    var tens := n / 10;
    var hundreds := tens / 10;
    ReadParts(hundreds / 10, hundreds % 10, tens % 10, n % 10);
  }

  lemma {:induction false} ReadJoined(m: string, c: string, x: string, i: string, st: State)
    ensures Read(m + c + x + i, st) == Read(m, Read(c, Read(x, Read(i, st))))
  {
    ReadAppend(m + c + x, i, st);
    ReadAppend(m + c, x, Read(i, st));
    ReadAppend(m, c, Read(x, Read(i, st)));
  }

  /** What each character is worth, in either case. */
  lemma {:induction false} LetterValue(c: char)
    ensures Value(c) ==
            if c == 'I' || c == 'i' then 1
            else if c == 'V' || c == 'v' then 5
            else if c == 'X' || c == 'x' then 10
            else if c == 'L' || c == 'l' then 50
            else if c == 'C' || c == 'c' then 100
            else if c == 'D' || c == 'd' then 500
            else if c == 'M' || c == 'm' then 1000
            else 0
  {
  }

  /** Whichever letters of a numeral are lower case, it reads the same. */
  lemma {:induction false} CaseReadsAlike(s: string, t: string, st: State)
    requires |s| == |t|
    requires forall k :: 0 <= k < |s| ==>
               s[k] == t[k] || [s[k], t[k]] in {"Ii", "Vv", "Xx", "Ll", "Cc", "Dd", "Mm"}
    ensures Read(s, st) == Read(t, st)
    decreases |s|
  {
    if s != [] {
      var c, d := s[|s| - 1], t[|t| - 1];
      LetterValue(c);
      LetterValue(d);
      assert c == d || ([c, d][0] == c && [c, d][1] == d);
      CaseReadsAlike(s[..|s| - 1], t[..|t| - 1], Step(st, c));
    }
  }

  /** A letter is taken off if one further right is worth more, and added otherwise, whatever the letters are. */
  lemma {:induction false} EachLetterCounts(c: char, s: string)
    ensures var v := Read(s, State(0, 0)).v;
            Read([c] + s, State(0, 0)).v ==
            if exists j :: 0 <= j < |s| && Value(s[j]) > Value(c) then v - Value(c) else v + Value(c)
  {
    ReadAppend([c], s, State(0, 0));
    ReadOne(c, Read(s, State(0, 0)));
    BiggestSoFar(s, State(0, 0));
  }

  lemma {:induction false} BiggestSoFar(s: string, st: State)
    ensures var big := Read(s, st).big;
            && big >= st.big && (forall j :: 0 <= j < |s| ==> Value(s[j]) <= big)
            && (big == st.big || exists j :: 0 <= j < |s| && Value(s[j]) == big)
    decreases |s|
  {
    if s != [] { BiggestSoFar(s[..|s| - 1], Step(st, s[|s| - 1])); }
  }

  /** Characters that are no numerals, such as the leading blank, count for nothing wherever they stand. */
  function Letters(s: string): string {
    if s == [] then []
    else Letters(s[..|s| - 1]) + if Value(s[|s| - 1]) == 0 then [] else [s[|s| - 1]]
  }

  lemma {:induction false} OthersIgnored(s: string, st: State)
    ensures Read(s, st).v == Read(Letters(s), st).v
    decreases |s|
  {
    if s != [] {
      var t, c := s[..|s| - 1], s[|s| - 1];
      OthersIgnored(t, Step(st, c));
      if Value(c) == 0 {
        assert Letters(s) == Letters(t);
        assert Step(st, c) == st;
      } else {
        ReadAppend(Letters(t), [c], st);
        ReadOne(c, st);
      }
    }
  }

  /** So a standard numeral among any other characters, and in either case, is read as its number. */
  lemma {:induction false} ReadsStandardForm(s: string, n: nat)
    requires Upper(Letters(s)) == Roman(n)
    ensures Read(s, State(0, 0)).v == n
  {
    OthersIgnored(s, State(0, 0));
    CaseIgnored(Letters(s), State(0, 0));
    ReadRoman(n);
  }

  function Upper(s: string): string {
    if s == [] then [] else Upper(s[..|s| - 1]) + [ToUpper(s[|s| - 1])]
  }

  lemma {:induction false} CaseIgnored(s: string, st: State)
    ensures Read(s, st) == Read(Upper(s), st)
    decreases |s|
  {
    if s != [] {
      var t, c := s[..|s| - 1], s[|s| - 1];
      CaseIgnored(t, Step(st, c));
      ReadAppend(Upper(t), [ToUpper(c)], st);
      ReadOne(ToUpper(c), st);
    }
  }
}
