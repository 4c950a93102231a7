// A reader for what the escaper prints. It takes a backslash for itself where no escape starts, and an
// escape for what it stands for where one does.
module Unescaper {
  import opened Utf8
  import opened Escaper

  const BACKSLASH: byte := 0x5C

  function HexValue(c: char): (v: int)
    ensures -1 <= v < 16
  {
    if '0' <= c <= '9' then c as int - '0' as int
    else if 'a' <= c <= 'f' then c as int - 'a' as int + 10
    else -1
  }

  /** The number that lower-case hexadecimal digits stand for, or -1. */
  function ParseHex(h: string): (v: int)
    ensures -1 <= v
  {
    if h == "" then 0
    else
      var high, low := ParseHex(h[..|h| - 1]), HexValue(h[|h| - 1]);
      if high < 0 || low < 0 then -1 else high * 16 + low
  }

  lemma HexDigitValue(n: nat)
    requires n < 16
    ensures HexValue(HexDigit(n)) == n
  {
  }

  lemma ValueHexDigit(c: char)
    requires HexValue(c) >= 0
    ensures HexDigit(HexValue(c)) == c
  {
  }

  /** A number of at most `width` digits. */
  predicate HasDigits(n: nat, width: nat)
    decreases width
  {
    if width == 0 then n == 0 else HasDigits(n / 16, width - 1)
  }

  lemma {:induction false} ParseInvertsHex(n: nat, width: nat)
    requires HasDigits(n, width)
    ensures ParseHex(Hex(n, width)) == n
    decreases width
  {
    if width > 0 {
      var h := Hex(n / 16, width - 1);
      ParseInvertsHex(n / 16, width - 1);
      HexDigitValue(n % 16);
      assert (h + [HexDigit(n % 16)])[..width - 1] == h;
    }
  }

  lemma {:induction false} HexInvertsParse(h: string)
    requires ParseHex(h) >= 0
    ensures Hex(ParseHex(h), |h|) == h && HasDigits(ParseHex(h), |h|)
  {
    if h != "" {
      var high, low := ParseHex(h[..|h| - 1]), HexValue(h[|h| - 1]);
      HexInvertsParse(h[..|h| - 1]);
      ValueHexDigit(h[|h| - 1]);
      assert (high * 16 + low) / 16 == high && (high * 16 + low) % 16 == low;
      assert h == h[..|h| - 1] + [h[|h| - 1]];
    }
  }

  lemma FourDigits(n: nat)
    ensures HasDigits(n, 4) <==> n < 0x10000
  {
    var x := n / 16;
    var y := x / 16;
    assert HasDigits(n, 4) == HasDigits(x, 3) == HasDigits(y, 2) == HasDigits(y / 16, 1);
    assert HasDigits(y / 16, 1) == HasDigits(y / 16 / 16, 0);
  }

  datatype Token = Token(cp: scalar, length: nat) | NoToken

  /** The number in a text that starts with `\u` and four digits, or -1. */
  function HexAfterU(x: string): (v: int)
    ensures -1 <= v && (v >= 0 ==> |x| >= 6)
  {
    if |x| >= 6 && x[0] == '\\' && x[1] == 'u' then ParseHex(x[2..6]) else -1
  }

  lemma HexAfterUIff(x: string, n: nat)
    ensures HexAfterU(x) == n <==> n < 0x10000 && |x| >= 6 && x[..6] == "\\u" + Hex4(n)
  {
    FourDigits(n);
    if HexAfterU(x) == n {
      HexInvertsParse(x[2..6]);
      assert x[..6] == [x[0], x[1]] + x[2..6];
    }
    if n < 0x10000 && |x| >= 6 && x[..6] == "\\u" + Hex4(n) {
      assert x[2..6] == x[..6][2..] == Hex4(n) && x[0] == x[..6][0] && x[1] == x[..6][1];
      ParseInvertsHex(n, 4);
    }
  }

  lemma HexIsSmall(x: string)
    ensures HexAfterU(x) < 0x10000
  {
    if HexAfterU(x) >= 0 { HexAfterUIff(x, HexAfterU(x)); }
  }

  predicate IsHigh(v: int) { 0xD800 <= v <= 0xDBFF }

  predicate IsLow(v: int) { 0xDC00 <= v <= 0xDFFF }

  /** The code point of a surrogate pair (section 2.1 of RFC 2781). */
  function FromSurrogates(high: int, low: int): scalar
    requires IsHigh(high) && IsLow(low)
  {
    (high - 0xD7C0) * 1024 + (low - 0xDC00)
  }

  lemma SurrogatesSplit(high: int, low: int)
    requires IsHigh(high) && IsLow(low)
    ensures FromSurrogates(high, low) > 0xFFFF
    ensures HighSurrogate(FromSurrogates(high, low)) == high
    ensures LowSurrogate(FromSurrogates(high, low)) == low
  {
  }

  lemma SurrogatesJoin(cp: scalar)
    requires cp > 0xFFFF
    ensures IsHigh(HighSurrogate(cp)) && IsLow(LowSurrogate(cp))
    ensures FromSurrogates(HighSurrogate(cp), LowSurrogate(cp)) == cp
  {
  }

  /** `\uxxxx`, or two of them for a code point above U+FFFF. */
  function HexToken(x: string): Token
  {
    var v := HexAfterU(x);
    HexIsSmall(x);
    if IsHigh(v) then
      var w := HexAfterU(x[6..]);
      if IsLow(w) then Token(FromSurrogates(v, w), 12) else NoToken
    else if 0 <= v && !IsLow(v) && IsHexEscaped(v) then Token(v, 6)
    else NoToken
  }

  /** The escapes with a name. */
  function NamedToken(x: string): Token
  {
    if "\\b" <= x then Token(0x08, 2)
    else if "\\t" <= x then Token(0x09, 2)
    else if "\\n" <= x then Token(0x0A, 2)
    else if "\\f" <= x then Token(0x0C, 2)
    else if "\\r" <= x then Token(0x0D, 2)
    else if "&quot;" <= x then Token(0x22, 6)
    else if "&apos;" <= x then Token(0x27, 6)
    else if "&amp;" <= x then Token(0x26, 5)
    else if "\\lt;" <= x then Token(0x3C, 4)
    else if "\\gt;" <= x then Token(0x3E, 4)
    else NoToken
  }

  predicate IsPlain(cp: scalar) {
    0x20 <= cp <= 0x7E && cp != 0x22 && cp != 0x26 && cp != 0x27 && cp != 0x3C && cp != 0x3E && cp != 0x5C
  }

  function FirstToken(x: string): Token
    requires x != ""
  {
    if x[0] != '\\' && x[0] != '&' then
      var cp := x[0] as int;
      if IsPlain(cp) then Token(cp, 1) else NoToken
    else if NamedToken(x).Token? then NamedToken(x)
    else if HexToken(x).Token? then HexToken(x)
    else if x[0] == '\\' then Token(BACKSLASH, 1)
    else NoToken
  }

  lemma HexTokenOfEscape(cp: scalar, rest: string)
    requires IsHexEscaped(cp)
    ensures HexToken(Escape(cp) + rest) == Token(cp, |Escape(cp)|)
  {
    var x := Escape(cp) + rest;
    if cp <= 0xFFFF {
      assert x[..6] == "\\u" + Hex4(cp);
      HexAfterUIff(x, cp);
    } else {
      SurrogatesJoin(cp);
      assert x[..6] == "\\u" + Hex4(HighSurrogate(cp));
      HexAfterUIff(x, HighSurrogate(cp));
      assert x[6..][..6] == "\\u" + Hex4(LowSurrogate(cp));
      HexAfterUIff(x[6..], LowSurrogate(cp));
    }
  }

  lemma UIsNotNamed(x: string)
    requires |x| > 1 && x[0] == '\\' && x[1] == 'u'
    ensures NamedToken(x).NoToken?
  {
  }

  lemma NamedTokenOfEscape(cp: scalar, rest: string)
    requires cp != BACKSLASH && !IsHexEscaped(cp) && !IsPlain(cp)
    ensures NamedToken(Escape(cp) + rest) == Token(cp, |Escape(cp)|)
    ensures Escape(cp)[0] == '\\' || Escape(cp)[0] == '&'
  {
    var e := Escape(cp);
    var x := e + rest;
    assert forall k | 0 <= k < |e| :: x[k] == e[k];
    assert e <= x && x[0] == e[0] && x[1] == e[1] && (|e| > 2 ==> x[2] == e[2]);
  }

  lemma HexEscapeStartsU(cp: scalar)
    requires IsHexEscaped(cp)
    ensures |Escape(cp)| > 1 && Escape(cp)[0] == '\\' && Escape(cp)[1] == 'u'
  {
  }

  lemma TokenOfEscape(cp: scalar, rest: string)
    requires cp != BACKSLASH
    ensures FirstToken(Escape(cp) + rest) == Token(cp, |Escape(cp)|)
  {
    var e := Escape(cp);
    var x := e + rest;
    assert x[0] == e[0] && (|e| > 1 ==> x[1] == e[1]);
    if IsHexEscaped(cp) {
      HexEscapeStartsU(cp);
      HexTokenOfEscape(cp, rest);
      UIsNotNamed(x);
    } else if !IsPlain(cp) {
      NamedTokenOfEscape(cp, rest);
    }
  }

  lemma EscapeOfHexToken(x: string)
    requires HexToken(x).Token?
    ensures HexToken(x).length <= |x|
    ensures IsHexEscaped(HexToken(x).cp) && x[..HexToken(x).length] == Escape(HexToken(x).cp)
  {
    var v := HexAfterU(x);
    HexAfterUIff(x, v);
    if IsHigh(v) {
      var w := HexAfterU(x[6..]);
      HexAfterUIff(x[6..], w);
      SurrogatesSplit(v, w);
      assert x[..12] == x[..6] + x[6..][..6];
    }
  }

  lemma EscapeOfToken(x: string)
    requires x != "" && FirstToken(x).Token?
    ensures 0 < FirstToken(x).length <= |x|
    ensures x[..FirstToken(x).length] == Escape(FirstToken(x).cp)
  {
    if (x[0] == '\\' || x[0] == '&') && NamedToken(x).NoToken? && HexToken(x).Token? {
      EscapeOfHexToken(x);
    }
  }

  datatype Unescaped = Text(cps: seq<scalar>) | Invalid

  function Unescape(x: string): Unescaped
  {
    if x == "" then Text([])
    else
      match FirstToken(x)
      case NoToken => Invalid
      case Token(cp, n) =>
        EscapeOfToken(x);
        match Unescape(x[n..])
        case Invalid => Invalid
        case Text(cps) => Text([cp] + cps)
  }

  // ---------------------------------------------------------------------------------------------
  // Lists of scalar values that spell out an escape.

  /** The list starts with the characters of a text. */
  predicate Spells(cps: seq<scalar>, p: string) {
    |p| <= |cps| && forall k | 0 <= k < |p| :: cps[k] == p[k] as int
  }

  predicate IsBackslashEscape(e: string) { |e| > 1 && e[0] == '\\' }

  /** From some backslash on, the list spells the escape of a code point. */
  ghost predicate SpellsEscape(cps: seq<scalar>) {
    exists i, cp: scalar | 0 <= i < |cps| && IsBackslashEscape(Escape(cp)) :: Spells(cps[i..], Escape(cp))
  }

  lemma SpellsEscapeStep(cps: seq<scalar>)
    requires cps != []
    ensures SpellsEscape(cps) <==>
            (exists cp: scalar | IsBackslashEscape(Escape(cp)) :: Spells(cps, Escape(cp))) || SpellsEscape(cps[1..])
  {
    var rest := cps[1..];
    assert cps[0..] == cps;
    if i, cp: scalar :| 0 <= i < |rest| && IsBackslashEscape(Escape(cp)) && Spells(rest[i..], Escape(cp)) {
      assert cps[i + 1..] == rest[i..];
    }
    if i, cp: scalar :| 0 <= i < |cps| && IsBackslashEscape(Escape(cp)) && Spells(cps[i..], Escape(cp)) {
      assert i > 0 ==> cps[i..] == rest[i - 1..];
    }
  }

  function TextOf(cps: seq<scalar>): string { EscapeAll(AsUnits(cps)) }

  lemma TextInFront(cp: scalar, cps: seq<scalar>)
    ensures TextOf([cp] + cps) == Escape(cp) + TextOf(cps)
  {
    assert ([cp] + cps)[1..] == cps;
    FirstUnit(Scalar(cp), AsUnits(cps), 0, 0);
  }

  lemma TextStep(cps: seq<scalar>)
    requires cps != []
    ensures TextOf(cps) == Escape(cps[0]) + TextOf(cps[1..])
  {
    assert cps == [cps[0]] + cps[1..];
    TextInFront(cps[0], cps[1..]);
  }

  predicate IsWord(p: string) { forall k | 0 <= k < |p| :: p[k] != '\\' && p[k] != '&' }

  lemma FirstOfEscape(cp: scalar)
    ensures Escape(cp)[0] == '\\' || Escape(cp)[0] == '&' || (IsPlain(cp) && Escape(cp) == [cp as char])
  {
  }

  /** A text that starts with a word comes from a list that spells it. */
  lemma {:induction false} WordIsSpelled(p: string, cps: seq<scalar>)
    requires IsWord(p) && p <= TextOf(cps)
    ensures Spells(cps, p) && TextOf(cps)[|p|..] == TextOf(cps[|p|..])
  {
    if p == "" {
      assert cps[0..] == cps;
    } else {
      assert cps != [];
      var x, rest := TextOf(cps), cps[1..];
      TextStep(cps);
      FirstOfEscape(cps[0]);
      assert x[0] == p[0] == cps[0] as char;
      assert x[1..] == TextOf(rest) && p[1..] <= x[1..];
      WordIsSpelled(p[1..], rest);
      assert x[|p|..] == x[1..][|p| - 1..] && cps[|p|..] == rest[|p| - 1..];
      forall k | 0 <= k < |p| ensures cps[k] == p[k] as int {
        assert k > 0 ==> cps[k] == rest[k - 1] && p[k] == p[1..][k - 1];
      }
    }
  }

  lemma {:induction false} HexIsWord(n: nat, width: nat)
    ensures forall k | 0 <= k < width :: Hex(n, width)[k] in "0123456789abcdef"
    decreases width
  {
    if width > 0 {
      HexIsWord(n / 16, width - 1);
    }
  }

  function UText(v: nat): string { "\\u" + Hex4(v) }

  lemma UTextIsWord(v: nat)
    ensures UText(v) == ['\\'] + UText(v)[1..] && |UText(v)| == 6 && IsWord(UText(v)[1..])
    ensures forall k | 1 <= k < 6 :: IsPlain(UText(v)[k] as int)
  {
    HexIsWord(v, 4);
  }

  /** The text of a list starts with `\u` and the digits of a low surrogate only if the list spells them: no
      scalar value has that escape. */
  lemma LowIsSpelled(v: nat, cps: seq<scalar>)
    requires IsLow(v) && UText(v) <= TextOf(cps)
    ensures Spells(cps, UText(v))
  {
    assert cps != [];
    var x := TextOf(cps);
    TextStep(cps);
    UTextIsWord(v);
    assert x[..6] == UText(v) && x[0] == '\\' && x[1] == 'u';
    if cps[0] == BACKSLASH {
      assert x[1..] == TextOf(cps[1..]) && UText(v)[1..] <= x[1..];
      WordIsSpelled(UText(v)[1..], cps[1..]);
      SpellsInFront(BACKSLASH, cps[1..], UText(v));
      assert cps == [BACKSLASH] + cps[1..];
    } else {
      EscapeStartsU(cps[0], x, TextOf(cps[1..]), v);
    }
  }

  lemma SpellsInFront(cp: scalar, cps: seq<scalar>, p: string)
    requires p != "" && p[0] as int == cp && Spells(cps, p[1..])
    ensures Spells([cp] + cps, p)
  {
    forall k | 0 <= k < |p| ensures ([cp] + cps)[k] == p[k] as int {
      assert k > 0 ==> p[k] == p[1..][k - 1];
    }
  }

  lemma NamedIsNoU(cp: scalar, x: string, rest: string)
    requires cp != BACKSLASH && !IsHexEscaped(cp) && x == Escape(cp) + rest && |x| > 1
    ensures x[0] != '\\' || x[1] != 'u'
  {
    assert x[0] == Escape(cp)[0] && (|Escape(cp)| > 1 ==> x[1] == Escape(cp)[1]);
  }

  lemma EscapeStartsU(cp: scalar, x: string, rest: string, v: nat)
    requires cp != BACKSLASH && x == Escape(cp) + rest && |x| >= 6 && x[..6] == UText(v) && v < 0x10000
    ensures !IsLow(v)
  {
    assert x[0] == UText(v)[0] == '\\' && x[1] == UText(v)[1] == 'u';
    if !IsHexEscaped(cp) {
      NamedIsNoU(cp, x, rest);
    } else {
      HexAfterUIff(x, v);
      if cp <= 0xFFFF {
        assert x[..6] == "\\u" + Hex4(cp);
        HexAfterUIff(x, cp);
      } else {
        assert x[..6] == "\\u" + Hex4(HighSurrogate(cp));
        SurrogatesJoin(cp);
        HexAfterUIff(x, HighSurrogate(cp));
      }
    }
  }

  lemma PairOfEscape(cp: scalar)
    requires cp > 0xFFFF
    ensures Escape(cp) == UText(HighSurrogate(cp)) + UText(LowSurrogate(cp))
  {
  }

  lemma SpellsBoth(cps: seq<scalar>, p: string, q: string)
    requires Spells(cps, p) && Spells(cps[|p|..], q)
    ensures Spells(cps, p + q)
  {
    forall k | |p| <= k < |p + q| ensures cps[k] == (p + q)[k] as int {
      assert cps[k] == cps[|p|..][k - |p|];
    }
  }

  lemma SplitPrefix(p: string, q: string, x: string)
    requires p + q <= x
    ensures p <= x && q <= x[|p|..]
  {
    assert p == (p + q)[..|p|] && q == (p + q)[|p|..];
  }

  lemma PairIsSpelled(high: nat, low: nat, cps: seq<scalar>)
    requires IsLow(low) && UText(high)[1..] + UText(low) <= TextOf(cps)
    ensures Spells(cps, UText(high)[1..] + UText(low))
  {
    UTextIsWord(high);
    SplitPrefix(UText(high)[1..], UText(low), TextOf(cps));
    WordIsSpelled(UText(high)[1..], cps);
    LowIsSpelled(low, cps[5..]);
    SpellsBoth(cps, UText(high)[1..], UText(low));
  }

  lemma TailOfEscape(cp: scalar)
    requires IsBackslashEscape(Escape(cp))
    ensures cp <= 0xFFFF ==> IsWord(Escape(cp)[1..])
    ensures cp > 0xFFFF ==> Escape(cp)[1..] == UText(HighSurrogate(cp))[1..] + UText(LowSurrogate(cp))
  {
    if cp > 0xFFFF {
      PairOfEscape(cp);
    } else if IsHexEscaped(cp) {
      UTextIsWord(cp);
    }
  }

  /** Where the text of a list starts with a backslash and goes on like an escape, the list spells it. */
  lemma EscapeIsSpelled(cp: scalar, cps: seq<scalar>)
    requires IsBackslashEscape(Escape(cp)) && Escape(cp)[1..] <= TextOf(cps)
    ensures Spells([BACKSLASH] + cps, Escape(cp))
  {
    TailOfEscape(cp);
    if cp <= 0xFFFF {
      WordIsSpelled(Escape(cp)[1..], cps);
    } else {
      SurrogatesJoin(cp);
      PairIsSpelled(HighSurrogate(cp), LowSurrogate(cp), cps);
    }
    SpellsInFront(BACKSLASH, cps, Escape(cp));
  }

  predicate IsOwnText(c: char) { IsPlain(c as int) || c == '\\' }

  predicate AreOwnText(p: string) { forall k | 0 <= k < |p| :: IsOwnText(p[k]) }

  lemma OwnTextIsPrinted(cps: seq<scalar>, c: char)
    requires cps != [] && cps[0] == c as int && IsOwnText(c)
    ensures TextOf(cps) == [c] + TextOf(cps[1..])
  {
    TextStep(cps);
  }

  /** What a list spells with plain characters and backslashes is printed as it is. */
  lemma {:induction false} SpelledIsPrinted(cps: seq<scalar>, p: string)
    requires Spells(cps, p) && AreOwnText(p)
    ensures TextOf(cps) == p + TextOf(cps[|p|..])
  {
    if p == "" {
      assert cps[0..] == cps;
    } else {
      var c, q, rest := p[0], p[1..], cps[1..];
      OwnTextIsPrinted(cps, c);
      forall k | 0 <= k < |q| ensures IsOwnText(q[k]) && rest[k] == q[k] as int {
        assert IsOwnText(p[k + 1]) && cps[k + 1] == p[k + 1] as int;
      }
      SpelledIsPrinted(rest, q);
      assert rest[|q|..] == cps[|p|..];
      assert p == [c] + q;
      AppendIsAssociative([c], q, TextOf(cps[|p|..]));
    }
  }

  lemma AppendIsAssociative(a: string, b: string, c: string)
    ensures a + b + c == a + (b + c)
  {
  }

  lemma EscapeIsOwnText(cp: scalar)
    requires IsBackslashEscape(Escape(cp))
    ensures AreOwnText(Escape(cp))
  {
    if IsHexEscaped(cp) {
      if cp <= 0xFFFF {
        UTextIsWord(cp);
      } else {
        PairOfEscape(cp);
        UTextIsWord(HighSurrogate(cp));
        UTextIsWord(LowSurrogate(cp));
      }
    }
  }

  lemma BackslashStartsToken(x: string)
    requires x != "" && x[0] == '\\'
    ensures FirstToken(x).Token?
    ensures FirstToken(x) != Token(BACKSLASH, 1) ==> IsBackslashEscape(Escape(FirstToken(x).cp))
  {
    if NamedToken(x).NoToken? && HexToken(x).Token? {
      EscapeOfHexToken(x);
    }
  }

  lemma SpelledIsToken(cps: seq<scalar>, cp: scalar)
    requires IsBackslashEscape(Escape(cp)) && Spells(cps, Escape(cp))
    ensures FirstToken(TextOf(cps)) == Token(cp, |Escape(cp)|)
  {
    EscapeIsOwnText(cp);
    SpelledIsPrinted(cps, Escape(cp));
    TokenOfEscape(cp, TextOf(cps[|Escape(cp)|..]));
  }

  lemma TailOfPrefix(x: string, n: nat, e: string)
    requires 0 < n <= |x| && x[..n] == e
    ensures e[1..] <= x[1..]
  {
    assert e[1..] == x[1..n];
  }

  lemma TokenIsSpelled(cps: seq<scalar>, cp: scalar, n: nat)
    requires cps != [] && cps[0] == BACKSLASH && FirstToken(TextOf(cps)) == Token(cp, n) && IsBackslashEscape(Escape(cp))
    ensures Spells(cps, Escape(cp))
  {
    var x, rest := TextOf(cps), cps[1..];
    TextStep(cps);
    EscapeOfToken(x);
    TailOfPrefix(x, n, Escape(cp));
    Drop("\\", TextOf(rest));
    EscapeIsSpelled(cp, rest);
    assert cps == [BACKSLASH] + rest;
  }

  /** The first token of a text whose list starts with a backslash: an escape if the list spells one, and
      otherwise the backslash. */
  lemma TokenOfBackslash(cps: seq<scalar>)
    requires cps != [] && cps[0] == BACKSLASH
    ensures TextOf(cps) == "\\" + TextOf(cps[1..])
    ensures FirstToken(TextOf(cps)) == Token(BACKSLASH, 1) <==>
            !exists cp: scalar | IsBackslashEscape(Escape(cp)) :: Spells(cps, Escape(cp))
  {
    var x := TextOf(cps);
    TextStep(cps);
    BackslashStartsToken(x);
    if cp: scalar :| IsBackslashEscape(Escape(cp)) && Spells(cps, Escape(cp)) {
      SpelledIsToken(cps, cp);
    } else if FirstToken(x) != Token(BACKSLASH, 1) {
      TokenIsSpelled(cps, FirstToken(x).cp, FirstToken(x).length);
    }
  }

  /** The reader recovers a list of scalar values exactly when no backslash in it is followed by the rest of
      an escape. */
  lemma {:induction false} UnescapeInvertsEscapeIff(cps: seq<scalar>)
    ensures Unescape(TextOf(cps)) == Text(cps) <==> !SpellsEscape(cps)
  {
    if cps != [] {
      var x, rest := TextOf(cps), cps[1..];
      UnescapeInvertsEscapeIff(rest);
      SpellsEscapeStep(cps);
      TextStep(cps);
      if cps[0] == BACKSLASH {
        TokenOfBackslash(cps);
        BackslashStartsToken(x);
        if FirstToken(x) == Token(BACKSLASH, 1) {
          Drop("\\", TextOf(rest));
          UnescapeStep(x, BACKSLASH, 1, cps);
        } else {
          OtherToken(x, cps);
        }
      } else {
        NoBackslashNoEscape(cps);
        TokenOfEscape(cps[0], TextOf(rest));
        Drop(Escape(cps[0]), TextOf(rest));
        UnescapeStep(x, cps[0], |Escape(cps[0])|, cps);
      }
    }
  }

  lemma NoBackslashNoEscape(cps: seq<scalar>)
    requires cps != [] && cps[0] != BACKSLASH
    ensures !exists cp: scalar | IsBackslashEscape(Escape(cp)) :: Spells(cps, Escape(cp))
  {
    forall cp: scalar | IsBackslashEscape(Escape(cp)) ensures !Spells(cps, Escape(cp)) {
      assert Escape(cp)[0] == '\\';
    }
  }

  lemma UnescapeStep(x: string, cp: scalar, n: nat, cps: seq<scalar>)
    requires x != "" && FirstToken(x) == Token(cp, n) && 0 < n <= |x| && cps != [] && cps[0] == cp
    ensures Unescape(x) == Text(cps) <==> Unescape(x[n..]) == Text(cps[1..])
  {
    assert cps == [cp] + cps[1..];
  }

  lemma Drop(a: string, b: string)
    ensures (a + b)[|a|..] == b
  {
  }

  /** A token for another code point than a backslash. */
  lemma OtherToken(x: string, cps: seq<scalar>)
    requires x != "" && x[0] == '\\' && FirstToken(x) != Token(BACKSLASH, 1) && cps != [] && cps[0] == BACKSLASH
    ensures Unescape(x) != Text(cps)
  {
    BackslashStartsToken(x);
    EscapeOfToken(x);
    assert FirstToken(x).cp != BACKSLASH;
  }

  /** How a text that can be read splits into its first token and the rest. */
  lemma FirstRead(x: string) returns (cp: scalar, rest: string)
    requires x != "" && Unescape(x).Text?
    ensures x == Escape(cp) + rest && |rest| < |x|
    ensures Unescape(rest).Text? && Unescape(x).cps == [cp] + Unescape(rest).cps
  {
    EscapeOfToken(x);
    cp, rest := FirstToken(x).cp, x[FirstToken(x).length..];
    assert x == x[..FirstToken(x).length] + rest;
  }

  /** Whatever is read is printed again. */
  lemma EscapeInvertsUnescape(x: string, cps: seq<scalar>)
    requires Unescape(x) == Text(cps)
    ensures TextOf(cps) == x && !SpellsEscape(cps)
  {
    EscapeReadAgain(x, cps);
    UnescapeInvertsEscapeIff(cps);
  }

  lemma {:induction false} EscapeReadAgain(x: string, cps: seq<scalar>)
    requires Unescape(x) == Text(cps)
    ensures TextOf(cps) == x
    decreases |x|
  {
    if x != "" {
      var cp, rest := FirstRead(x);
      EscapeReadAgain(rest, cps[1..]);
      TextInFront(cp, cps[1..]);
    }
  }

  // ---------------------------------------------------------------------------------------------
  // Every printed text can be read.

  predicate IsTextAt(x: string, i: nat)
    requires i < |x|
  {
    x[i] == '\\' || IsPlain(x[i] as int) || (x[i] == '&' && NamedToken(x[i..]).Token?)
  }

  predicate IsText(x: string) { forall i | 0 <= i < |x| :: IsTextAt(x, i) }

  lemma NamedTokenLonger(a: string, b: string)
    requires a != "" && a[0] == '&' && NamedToken(a).Token?
    ensures NamedToken(a + b).Token?
  {
    var n := NamedToken(a).length;
    assert forall k | 0 <= k < n :: (a + b)[k] == a[k];
  }

  lemma IsTextAppend(a: string, b: string)
    requires IsText(a) && IsText(b)
    ensures IsText(a + b)
  {
    forall i | 0 <= i < |a + b| ensures IsTextAt(a + b, i) {
      if i < |a| {
        assert IsTextAt(a, i);
        assert (a + b)[i..] == a[i..] + b;
        if a[i] == '&' { NamedTokenLonger(a[i..], b); }
      } else {
        assert IsTextAt(b, i - |a|);
        assert (a + b)[i..] == b[i - |a|..];
      }
    }
  }

  lemma EscapeIsText(cp: scalar)
    ensures IsText(Escape(cp))
  {
    if IsBackslashEscape(Escape(cp)) {
      EscapeIsOwnText(cp);
    } else if |Escape(cp)| > 1 {
      assert Escape(cp)[0..] == Escape(cp) && NamedToken(Escape(cp)).Token?;
    }
  }

  lemma EscapeUnitIsText(u: Unit)
    ensures IsText(EscapeUnit(u))
  {
    if u.Scalar? { EscapeIsText(u.cp); }
  }

  lemma {:induction false} EscapeAllIsText(units: seq<Unit>)
    ensures IsText(EscapeAll(units))
  {
    if units != [] {
      EscapeAllIsText(units[1..]);
      EscapeUnitIsText(units[0]);
      IsTextAppend(EscapeUnit(units[0]), EscapeAll(units[1..]));
    }
  }

  lemma {:induction false} TextIsRead(x: string)
    requires IsText(x)
    ensures Unescape(x).Text?
    decreases |x|
  {
    if x != "" {
      assert IsTextAt(x, 0) && x[0..] == x;
      assert FirstToken(x).Token?;
      EscapeOfToken(x);
      var n := FirstToken(x).length;
      forall i | 0 <= i < |x[n..]| ensures IsTextAt(x[n..], i) {
        assert IsTextAt(x, n + i);
        assert x[n..][i..] == x[n + i..];
      }
      TextIsRead(x[n..]);
    }
  }

  // ---------------------------------------------------------------------------------------------
  // Byte strings.

  /** The bytes a text stands for, read back through the escaper's inverse. */
  datatype Bytes = Bytes(bytes: seq<byte>) | NoBytes

  function ReadBack(x: string): Bytes {
    match Unescape(x)
    case Text(cps) => Bytes(EncodeAll(cps))
    case Invalid => NoBytes
  }

  /** A string that is well-formed and in which no backslash is followed by the rest of an escape. */
  ghost predicate Readable(s: seq<byte>) { WellFormed(s) && !SpellsEscape(Scalars(s)) }

  /** Of all byte strings, exactly these can be read back from what is printed for them. */
  lemma ReadsBackExactly(s: seq<byte>)
    ensures ReadBack(Escaped(s)) == Bytes(s) <==> Readable(s)
  {
    if Readable(s) {
      DecodedOfWellFormed(s);
      UnescapeInvertsEscapeIff(Scalars(s));
      EncodeAllInvertsScalars(s);
    } else if ReadBack(Escaped(s)) == Bytes(s) {
      var cps := Unescape(Escaped(s)).cps;
      EscapeInvertsUnescape(Escaped(s), cps);
      ScalarsInvertEncodeAll(cps);
      assert false;
    }
  }

  /** What is printed for any string can be read, and prints the same when it is printed again: of the
      strings that share a text it is the only readable one. */
  lemma ReadIsCanonical(s: seq<byte>)
    ensures var back := ReadBack(Escaped(s));
            && back.Bytes? && Readable(back.bytes) && Escaped(back.bytes) == Escaped(s)
            && forall t | Readable(t) && Escaped(t) == Escaped(s) :: t == back.bytes
  {
    EscapeAllIsText(Decoded(s));
    TextIsRead(Escaped(s));
    var cps := Unescape(Escaped(s)).cps;
    var t := EncodeAll(cps);
    EscapeInvertsUnescape(Escaped(s), cps);
    ScalarsInvertEncodeAll(cps);
    DecodedOfWellFormed(t);
    forall u | Readable(u) && Escaped(u) == Escaped(s) ensures u == t {
      ReadsBackExactly(u);
    }
  }

  /** So every string that is not readable shares its text with another one. */
  lemma UnreadableIsAmbiguous(s: seq<byte>)
    requires !Readable(s)
    ensures exists t | t != s :: Escaped(t) == Escaped(s)
  {
    ReadIsCanonical(s);
    assert Escaped(ReadBack(Escaped(s)).bytes) == Escaped(s);
  }

  // ---------------------------------------------------------------------------------------------
  // Ill-formed input.

  const REPLACEMENT_CHARACTER: scalar := 0xFFFD

  /** A character for each unit, U+FFFD for what is none. */
  function WithReplacements(units: seq<Unit>): seq<scalar> {
    seq(|units|, i requires 0 <= i < |units| => if units[i].Scalar? then units[i].cp else REPLACEMENT_CHARACTER)
  }

  lemma OneMoreDigit(h: string, c: char, h': string, value: nat)
    requires ParseHex(h) == value && HexValue(c) >= 0 && h' == h + [c]
    ensures ParseHex(h') == value * 16 + HexValue(c)
  {
    assert h'[..|h|] == h;
  }

  function FourDigitValue(a: char, b: char, c: char, d: char): int {
    ((HexValue(a) * 16 + HexValue(b)) * 16 + HexValue(c)) * 16 + HexValue(d)
  }

  lemma FourDigitsDenote(a: char, b: char, c: char, d: char)
    requires HexValue(a) >= 0 && HexValue(b) >= 0 && HexValue(c) >= 0 && HexValue(d) >= 0
    ensures ParseHex([a, b, c, d]) == FourDigitValue(a, b, c, d)
  {
    var x, y := HexValue(a) * 16 + HexValue(b), (HexValue(a) * 16 + HexValue(b)) * 16 + HexValue(c);
    OneMoreDigit("", a, [a], 0);
    OneMoreDigit([a], b, [a, b], HexValue(a));
    OneMoreDigit([a, b], c, [a, b, c], x);
    OneMoreDigit([a, b, c], d, [a, b, c, d], y);
  }

  lemma HexOfValue(h: string, n: nat)
    requires |h| == 4 && ParseHex(h) == n
    ensures Hex4(n) == h
  {
    HexInvertsParse(h);
  }

  lemma FourHexDigits(a: char, b: char, c: char, d: char, n: nat)
    requires HexValue(a) >= 0 && HexValue(b) >= 0 && HexValue(c) >= 0 && HexValue(d) >= 0
    requires n == FourDigitValue(a, b, c, d)
    ensures Hex4(n) == [a, b, c, d]
  {
    FourDigitsDenote(a, b, c, d);
    HexOfValue([a, b, c, d], n);
  }

  lemma ReplacementIsEscaped()
    ensures EscapeUnit(IllFormed) == EscapeUnit(Truncated) == Escape(REPLACEMENT_CHARACTER)
  {
    FourHexDigits('f', 'f', 'f', 'd', 0xFFFD);
    assert REPLACEMENT == "\\u" + ['f', 'f', 'f', 'd'];
  }

  lemma {:induction false} ReplacementsArePrinted(units: seq<Unit>)
    ensures EscapeAll(units) == TextOf(WithReplacements(units))
  {
    if units != [] {
      ReplacementsArePrinted(units[1..]);
      ReplacementIsEscaped();
      var cps := WithReplacements(units);
      TextStep(cps);
      assert cps[1..] == WithReplacements(units[1..]);
    }
  }

  /** Any byte string, ill-formed ones included, is printed as its characters with U+FFFD for each ill-formed
      part, and read back as those exactly when no backslash among them starts an escape. */
  lemma IllFormedIsReplaced(s: seq<byte>)
    ensures var cps := WithReplacements(Decoded(s));
            && Escaped(s) == TextOf(cps)
            && (Unescape(Escaped(s)) == Text(cps) <==> !SpellsEscape(cps))
  {
    ReplacementsArePrinted(Decoded(s));
    UnescapeInvertsEscapeIff(WithReplacements(Decoded(s)));
  }

  /** One character, and what it is printed as. */
  lemma OneCharacter(c: seq<byte>)
    requires IsChar(c)
    ensures Escaped(c) == Escape(ScalarOf(c))
  {
    DecodedChar(c, []);
    assert c + [] == c && Decoded([]) == [];
    FirstUnit(Scalar(ScalarOf(c)), [], 0, 0);
  }

  /** The characters with a text of their own, each told by its byte. */
  lemma KnownTexts()
    ensures Escaped([0x08]) == ['\\', 'b'] && Escaped([0x09]) == ['\\', 't'] && Escaped([0x0A]) == ['\\', 'n']
    ensures Escaped([0x0C]) == ['\\', 'f'] && Escaped([0x0D]) == ['\\', 'r']
    ensures Escaped([0x22]) == "&quot;" && Escaped([0x26]) == "&amp;" && Escaped([0x27]) == "&apos;"
    ensures Escaped([0x3C]) == "\\lt;" && Escaped([0x3E]) == "\\gt;"
    ensures forall b: byte | 0x20 <= b <= 0x7E && b !in [0x22, 0x26, 0x27, 0x3C, 0x3E] :: Escaped([b]) == [b as char]
  {
    forall b: byte | b < 0x80 ensures Escaped([b]) == Escape(b) {
      OneCharacter([b]);
    }
  }

  /** A character that is printed as one number. */
  lemma PrintedNumber(s: seq<byte>, a: char, b: char, c: char, d: char)
    requires IsChar(s) && IsHexEscaped(ScalarOf(s)) && ScalarOf(s) <= 0xFFFF
    requires HexValue(a) >= 0 && HexValue(b) >= 0 && HexValue(c) >= 0 && HexValue(d) >= 0
    requires ScalarOf(s) == FourDigitValue(a, b, c, d)
    ensures Escaped(s) == ['\\', 'u', a, b, c, d]
  {
    OneCharacter(s);
    FourHexDigits(a, b, c, d, ScalarOf(s));
  }

  lemma PairIsPrinted(s: seq<byte>, high: nat, low: nat)
    requires IsChar(s) && ScalarOf(s) > 0xFFFF
    requires high == HighSurrogate(ScalarOf(s)) && low == LowSurrogate(ScalarOf(s))
    ensures Escaped(s) == UText(high) + UText(low)
  {
    OneCharacter(s);
    PairOfEscape(ScalarOf(s));
  }

  lemma UTextIs(n: nat, a: char, b: char, c: char, d: char)
    requires HexValue(a) >= 0 && HexValue(b) >= 0 && HexValue(c) >= 0 && HexValue(d) >= 0
    requires n == FourDigitValue(a, b, c, d)
    ensures UText(n) == ['\\', 'u', a, b, c, d]
  {
    FourHexDigits(a, b, c, d, n);
  }

  lemma KnownPair()
    ensures Escaped([0xF0, 0x9F, 0x98, 0x80]) == ['\\', 'u', 'd', '8', '3', 'd'] + ['\\', 'u', 'd', 'e', '0', '0']
  {
    UTextIs(0xD83D, 'd', '8', '3', 'd');
    UTextIs(0xDE00, 'd', 'e', '0', '0');
    PairIsPrinted([0xF0, 0x9F, 0x98, 0x80], 0xD83D, 0xDE00);
  }

  /** Characters that are printed as numbers, and a byte that starts none. */
  lemma KnownControls()
    ensures Escaped([0x1B]) == ['\\', 'u', '0', '0', '1', 'b'] && Escaped([0x7F]) == ['\\', 'u', '0', '0', '7', 'f']
  {
    PrintedNumber([0x1B], '0', '0', '1', 'b');
    PrintedNumber([0x7F], '0', '0', '7', 'f');
  }

  lemma KnownLetters()
    ensures Escaped([0xC3, 0xA9]) == ['\\', 'u', '0', '0', 'e', '9']
    ensures Escaped([0xE2, 0x82, 0xAC]) == ['\\', 'u', '2', '0', 'a', 'c']
  {
    PrintedNumber([0xC3, 0xA9], '0', '0', 'e', '9');
    PrintedNumber([0xE2, 0x82, 0xAC], '2', '0', 'a', 'c');
  }

  lemma KnownReplacement(b: byte)
    requires !Pending([b]) && !IsChar([b])
    ensures Escaped([b]) == ['\\', 'u', 'f', 'f', 'f', 'd']
  {
    DecodedDead([], b, []);
    assert [] + [b] + [] == [b] && Decoded([]) == [];
    FirstUnit(IllFormed, [], 0, 0);
  }
}
