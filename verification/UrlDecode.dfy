/** Undoing percent-encoding: hex and CGI_decode_url. */
module UrlDecode {
  /** A byte as the number it is reckoned with here. */
  type octet = b: int | 0 <= b < 256

  type Text = seq<octet>

  const NUL := 0
  const PERCENT := 37
  const PLUS := 43
  const SPACE := 32

  /** The value of a hexadecimal digit, or -1. */
  function Hex(d: int): (r: int)
    ensures -1 <= r < 16
  {
    if 48 <= d <= 57 then d - 48
    else if 65 <= d <= 70 then 10 + d - 65
    else if 97 <= d <= 102 then 10 + d - 97
    else -1
  }

  /** Two digits stand at i; the first is looked at only if there is one. */
  predicate Escape(e: Text, i: nat)
    requires i < |e|
  {
    e[i] == PERCENT && i + 2 < |e| && Hex(e[i + 1]) >= 0 && Hex(e[i + 2]) >= 0
  }

  function Escaped(e: Text, i: nat): octet
    requires i < |e| && Escape(e, i)
  {
    Hex(e[i + 1]) * 16 + Hex(e[i + 2])
  }

  /** What the text from i on decodes to: a percent sign without two digits stands for itself. */
  function Decoded(e: Text, i: nat): Text
    requires i <= |e|
    decreases |e| - i
  {
    if i == |e| then []
    else if e[i] == PLUS then [SPACE] + Decoded(e, i + 1)
    else if Escape(e, i) then [Escaped(e, i)] + Decoded(e, i + 3)
    else [e[i]] + Decoded(e, i + 1)
  }

  /** The character c is the hexadecimal digit, of either case, for v. */
  predicate DigitFor(c: octet, v: int) {
    0 <= v < 16 && (c == "0123456789ABCDEF"[v] as int || c == "0123456789abcdef"[v] as int)
  }

  /** e from i on is a percent-encoding (section 2.1 of RFC 3986) of s: each byte as itself, as a plus sign (43) for
      a space (32), or as a percent sign (37) and its two digits. */
  predicate Encodes(e: Text, i: nat, s: Text)
    requires i <= |e|
    decreases |s|
  {
    if s == [] then i == |e|
    else
      || (i < |e| && e[i] == s[0] && e[i] != 37 && e[i] != 43 && Encodes(e, i + 1, s[1..]))
      || (i < |e| && e[i] == 43 && s[0] == 32 && Encodes(e, i + 1, s[1..]))
      || (i + 2 < |e| && e[i] == 37 && DigitFor(e[i + 1], s[0] / 16) && DigitFor(e[i + 2], s[0] % 16)
          && Encodes(e, i + 3, s[1..]))
  }

  /** From i on every percent sign that is met begins an escape. */
  predicate WellFormed(e: Text, i: nat)
    requires i <= |e|
    decreases |e| - i
  {
    i == |e| || if e[i] == PERCENT then Escape(e, i) && WellFormed(e, i + 3) else WellFormed(e, i + 1)
  }

  lemma {:induction false} HexIsDigit(c: octet, v: int)
    requires v >= 0
    ensures Hex(c) == v <==> DigitFor(c, v)
  {
  }

  lemma {:induction false} HexIsListed(c: octet)
    ensures Hex(c) >= 0 <==> c as char in "0123456789ABCDEFabcdef"
  {
    var all := "0123456789ABCDEFabcdef";
    if 48 <= c <= 57 { assert all[c - 48] == c as char; }
    if 65 <= c <= 70 { assert all[c - 55] == c as char; }
    if 97 <= c <= 102 { assert all[c - 81] == c as char; }
  }

  lemma {:induction false} EscapeIsDigits(e: Text, i: nat, b: octet)
    requires i < |e|
    ensures Escape(e, i) && Escaped(e, i) == b <==>
            i + 2 < |e| && e[i] == 37 && DigitFor(e[i + 1], b / 16) && DigitFor(e[i + 2], b % 16)
  {
    hide Hex, DigitFor;
    if i + 2 < |e| {
      HexIsDigit(e[i + 1], b / 16);
      HexIsDigit(e[i + 2], b % 16);
    }
  }

  /** A percent sign that two digits do not follow stands for itself. */
  lemma {:induction false} StrayPercent(e: Text, i: nat)
    requires i < |e| && e[i] == 37
    requires i + 2 < |e| ==>
               e[i + 1] as char !in "0123456789ABCDEFabcdef" || e[i + 2] as char !in "0123456789ABCDEFabcdef"
    ensures Decoded(e, i) == [37] + Decoded(e, i + 1)
  {
    if i + 2 < |e| {
      HexIsListed(e[i + 1]);
      HexIsListed(e[i + 2]);
    }
  }

  /** Every encoding of s decodes to s, and the well-formed texts that decode to s are its encodings. */
  lemma {:induction false} DecodesExactlyEncodings(e: Text, i: nat, s: Text)
    requires i <= |e|
    ensures Encodes(e, i, s) <==> WellFormed(e, i) && Decoded(e, i) == s
    decreases |e| - i
  {
    if i < |e| {
      var n := if Escape(e, i) then i + 3 else i + 1;
      if s != [] {
        EscapeIsDigits(e, i, s[0]);
        DecodesExactlyEncodings(e, n, s[1..]);
        var head := Decoded(e, i)[0];
        assert Decoded(e, i) == [head] + Decoded(e, n);
        assert Decoded(e, i) == s <==> head == s[0] && Decoded(e, n) == s[1..] by {
          assert s == [s[0]] + s[1..];
        }
      }
    }
  }

  /** The digit for a value. */
  function Digit(v: int): (d: octet)
    requires 0 <= v < 16
    ensures Hex(d) == v
  {
    if v < 10 then 48 + v else 55 + v
  }

  function Triple(v: octet): (t: Text)
    ensures |t| == 3
  {
    [PERCENT, Digit(v / 16), Digit(v % 16)]
  }

  /** Every byte escaped: there is an encoding of every text. */
  function EncodeAll(s: Text): Text {
    if s == [] then []
    else Triple(s[0]) + EncodeAll(s[1..])
  }

  lemma {:induction false} EscapeStands(pre: Text, v: octet, rest: Text)
    ensures var e := pre + Triple(v) + rest; Escape(e, |pre|) && Escaped(e, |pre|) == v
  {
    hide Hex, Digit;
    var e := pre + Triple(v) + rest;
    assert e[|pre|] == PERCENT && e[|pre| + 1] == Digit(v / 16) && e[|pre| + 2] == Digit(v % 16);
  }

  lemma {:induction false} EncodeAllEncodes(pre: Text, s: Text)
    ensures Encodes(pre + EncodeAll(s), |pre|, s)
    decreases |s|
  {
    if s != [] {
      hide Escape, Escaped, Triple, Encodes;
      var rest := EncodeAll(s[1..]);
      EscapeStands(pre, s[0], rest);
      EncodeAllEncodes(pre + Triple(s[0]), s[1..]);
      assert |Triple(s[0])| == 3;
      assert pre + EncodeAll(s) == pre + Triple(s[0]) + rest;
      EncodesMore(pre + EncodeAll(s), |pre|, s);
    } else {
      EncodesNothing(pre + EncodeAll(s));
    }
  }

  lemma {:induction false} EncodesMore(e: Text, i: nat, s: Text)
    requires i + 3 <= |e| && s != [] && Escape(e, i) && Escaped(e, i) == s[0] && Encodes(e, i + 3, s[1..])
    ensures Encodes(e, i, s)
  {
    EscapeIsDigits(e, i, s[0]);
    hide DigitFor, Escape, Escaped;
  }

  lemma {:induction false} EncodesNothing(e: Text)
    ensures Encodes(e, |e|, [])
  {
  }

  /** Round trip. */
  lemma {:induction false} DecodeEncodeAll(s: Text)
    ensures Decoded(EncodeAll(s), 0) == s
  {
    EncodeAllEncodes([], s);
    assert [] + EncodeAll(s) == EncodeAll(s);
    DecodesExactlyEncodings(EncodeAll(s), 0, s);
  }

  /** One turn of the loop of CGI_decode_url: the byte it writes, and how far it moves on. */
  method OneByte(p: Text, i: nat, ghost e: Text) returns (b: octet, step: nat)
    requires p == e + [NUL] && i < |e| && NUL !in e
    ensures 1 <= step <= |e| - i && Decoded(e, i) == [b] + Decoded(e, i + step)
  {
    assert forall j :: 0 <= j < |e| ==> p[j] == e[j] != NUL;
    b, step := p[i], 1;
    if p[i] == PLUS {
      b := SPACE;
    } else if p[i] == PERCENT {
      var l := Hex(p[i + 1]);
      if l >= 0 {
        var r := Hex(p[i + 2]);
        if r >= 0 {
          b := l * 16 + r;
          step := 3;
        }
      }
    }
  }

  /** CGI_decode_url on a C string: out holds the decoded text and its terminator; the place written is
      never ahead of the place read. */
  method CgiDecodeUrl(p: Text, ghost e: Text) returns (out: array<octet>, k: nat)
    requires p == e + [0] && 0 !in e
    ensures k < out.Length == |p| && out[..k] == Decoded(e, 0) && out[k] == 0
  {
    hide Decoded;
    out := new octet[|p|];
    var i := 0;
    k := 0;
    assert forall j :: 0 <= j < |e| ==> p[j] == e[j] && e[j] in e;
    while p[i] != NUL
      invariant k <= i <= |e| && out.Length == |p|
      invariant out[..k] + Decoded(e, i) == Decoded(e, 0)
      decreases |e| - i
    {
      ghost var before := out[..k];
      var b, step := OneByte(p, i, e);
      out[k] := b;
      Moved(before, b, Decoded(e, i + step));
      assert out[..k + 1] == before + [b];
      k := k + 1;
      i := i + step;
    }
    assert p[|e|] == NUL;
    DecodedEnd(e);
    out[k] := NUL;
  }

  lemma {:induction false} DecodedEnd(e: Text)
    ensures Decoded(e, |e|) == []
  {
  }

  lemma {:induction false} Moved(a: Text, b: octet, c: Text)
    ensures a + ([b] + c) == (a + [b]) + c
  {
  }
}
