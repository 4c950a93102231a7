// Texts in URIs: percent-encoding, and the encoding of names as path segments.
module UriText {
  import opened Options
  import opened Utf8

  // ---------------------------------------------------------------------------------------------
  // Percent-encoding (section 2.1 of RFC 3986).

  /** The unreserved characters of section 2.3 of RFC 3986. */
  predicate IsUnreserved(c: int) {
    || '0' as int <= c <= '9' as int
    || 'A' as int <= c <= 'Z' as int
    || 'a' as int <= c <= 'z' as int
    || c == '-' as int || c == '_' as int || c == '.' as int || c == '~' as int
  }

  function UpperHex(n: nat): char
    requires n < 16
  {
    "0123456789ABCDEF"[n]
  }

  function EncodeByte(b: byte): string {
    if IsUnreserved(b) then [b as char] else ['%', UpperHex(b / 16), UpperHex(b % 16)]
  }

  function UrlEncoded(value: seq<byte>): string {
    if value == [] then "" else EncodeByte(value[0]) + UrlEncoded(value[1..])
  }

  method UrlEncode(value: seq<byte>) returns (escaped: string)
    ensures escaped == UrlEncoded(value)
  {
    escaped := "";
    var i := 0;
    while i < |value|
      invariant i <= |value| && escaped + UrlEncoded(value[i..]) == UrlEncoded(value)
    {
      var c := value[i];
      Reassociate(escaped, EncodeByte(c), UrlEncoded(value[i + 1..]));
      if IsUnreserved(c) {
        escaped := escaped + [c as char];
      } else {
        escaped := escaped + ['%', UpperHex(c / 16), UpperHex(c % 16)];
      }
      i := i + 1;
    }
  }

  lemma Reassociate(a: string, b: string, c: string)
    ensures a + b + c == a + (b + c)
  {
  }

  function HexValue(c: char): (v: int)
    ensures -1 <= v < 16
  {
    if '0' <= c <= '9' then c as int - '0' as int
    else if 'A' <= c <= 'F' then c as int - 'A' as int + 10
    else if 'a' <= c <= 'f' then c as int - 'a' as int + 10
    else -1
  }

  /** What a percent-encoded text stands for; digits of either case are read. */
  function UrlDecoded(x: string): Option<seq<byte>> {
    if x == "" then Some([])
    else if x[0] == '%' then
      if |x| < 3 || HexValue(x[1]) < 0 || HexValue(x[2]) < 0 then None
      else
        var rest := UrlDecoded(x[3..]);
        if rest.None? then None else Some([HexValue(x[1]) * 16 + HexValue(x[2])] + rest.value)
    else if !IsUnreserved(x[0] as int) then None
    else
      var rest := UrlDecoded(x[1..]);
      if rest.None? then None else Some([x[0] as int] + rest.value)
  }

  lemma UpperHexValue(n: nat)
    requires n < 16
    ensures HexValue(UpperHex(n)) == n
  {
  }

  lemma DecodeByte(b: byte, rest: string)
    requires UrlDecoded(rest).Some?
    ensures UrlDecoded(EncodeByte(b) + rest) == Some([b] + UrlDecoded(rest).value)
  {
    if IsUnreserved(b) {
      DecodeKept(b as char, rest);
    } else {
      UpperHexValue(b / 16);
      UpperHexValue(b % 16);
      DecodePercent(UpperHex(b / 16), UpperHex(b % 16), rest);
    }
  }

  lemma DecodeKept(c: char, rest: string)
    requires IsUnreserved(c as int) && UrlDecoded(rest).Some?
    ensures UrlDecoded([c] + rest) == Some([c as int] + UrlDecoded(rest).value)
  {
    var x := [c] + rest;
    assert x[0] == c && c != '%';
    assert x[1..] == rest;
  }

  lemma DecodePercent(high: char, low: char, rest: string)
    requires HexValue(high) >= 0 && HexValue(low) >= 0 && UrlDecoded(rest).Some?
    ensures UrlDecoded(['%', high, low] + rest) == Some([HexValue(high) * 16 + HexValue(low)] + UrlDecoded(rest).value)
  {
    var x := ['%', high, low] + rest;
    assert x[0] == '%' && x[1] == high && x[2] == low;
    assert x[3..] == rest;
  }

  /** Any byte string is recovered from its encoding. */
  lemma {:induction false} DecodeInvertsEncode(value: seq<byte>)
    ensures UrlDecoded(UrlEncoded(value)) == Some(value)
  {
    if value != [] {
      DecodeInvertsEncode(value[1..]);
      DecodeByte(value[0], UrlEncoded(value[1..]));
      assert value == [value[0]] + value[1..];
    }
  }

  /** And the encoding holds nothing that ends a query value. */
  lemma {:induction false} EncodedIsPlain(value: seq<byte>)
    ensures forall i | 0 <= i < |UrlEncoded(value)| :: UrlEncoded(value)[i] == '%' || IsUnreserved(UrlEncoded(value)[i] as int)
  {
    if value != [] {
      EncodedIsPlain(value[1..]);
    }
  }

  predicate IsLetterOrDigit(c: char) { '0' <= c <= '9' || 'A' <= c <= 'Z' || 'a' <= c <= 'z' }

  predicate IsUpperHexDigit(c: char) { '0' <= c <= '9' || 'A' <= c <= 'F' }

  /** A byte kept, or spelled out. */
  predicate IsByteText(x: string, b: byte) {
    if b < 0x80 && (IsLetterOrDigit(b as char) || b as char == '-' || b as char == '_' || b as char == '.' || b as char == '~')
    then x == [b as char]
    else
      && |x| == 3 && x[0] == '%' && IsUpperHexDigit(x[1]) && IsUpperHexDigit(x[2])
      && HexValue(x[1]) * 16 + HexValue(x[2]) == b
  }

  lemma ByteIsEncoded(b: byte)
    ensures IsByteText(EncodeByte(b), b)
  {
    if !IsUnreserved(b) {
      UpperHexValue(b / 16);
      UpperHexValue(b % 16);
    }
  }

  function Concat(pieces: seq<string>): string {
    if pieces == [] then "" else pieces[0] + Concat(pieces[1..])
  }

  /** Letters, digits and "-_.~" stand for themselves; every other byte is a percent sign and its two upper-case
      hexadecimal digits. */
  lemma {:induction false} BytesAreEncoded(value: seq<byte>) returns (pieces: seq<string>)
    ensures UrlEncoded(value) == Concat(pieces) && |pieces| == |value|
    ensures forall i | 0 <= i < |value| :: IsByteText(pieces[i], value[i])
  {
    if value == [] {
      pieces := [];
    } else {
      ByteIsEncoded(value[0]);
      var later := BytesAreEncoded(value[1..]);
      pieces := [EncodeByte(value[0])] + later;
      assert pieces[1..] == later;
    }
  }

  // ---------------------------------------------------------------------------------------------
  // Names as segments.

  function Replaced(s: string, what: char, with: char): (r: string)
    ensures |r| == |s|
  {
    seq(|s|, i requires 0 <= i < |s| => if s[i] == what then with else s[i])
  }

  method Replace(value: string, what: char, with: char) returns (r: string)
    ensures r == Replaced(value, what, with)
  {
    r := value;
    for i := 0 to |value|
      invariant |r| == |value|
      invariant forall k | 0 <= k < i :: r[k] == if value[k] == what then with else value[k]
      invariant forall k | i <= k < |value| :: r[k] == value[k]
    {
      if r[i] == what {
        r := r[i := with];
      }
    }
  }

  function EncodeUriSegment(value: string): string { Replaced(value, ' ', '_') }

  function DecodeUriSegment(value: string): string { Replaced(value, '_', ' ') }

  /** A name is recovered from its segment exactly when it has no underscore. */
  lemma SegmentIsReadBackIff(name: string)
    ensures DecodeUriSegment(EncodeUriSegment(name)) == name <==> '_' !in name
  {
    var back := DecodeUriSegment(EncodeUriSegment(name));
    if '_' in name {
      var i :| 0 <= i < |name| && name[i] == '_';
      assert back[i] == ' ';
    } else {
      assert forall i | 0 <= i < |name| :: name[i] in name;
      assert back == name;
    }
  }

  lemma DecodedIsPlain(segment: string)
    ensures '_' !in DecodeUriSegment(segment)
  {
  }

  lemma DecodeForgetsEncode(name: string)
    ensures DecodeUriSegment(EncodeUriSegment(name)) == DecodeUriSegment(name)
  {
  }

  /** Two names have one segment, and so one link, exactly when they differ in no more than spaces
      against underscores. */
  lemma SameSegmentIff(a: string, b: string)
    ensures EncodeUriSegment(a) == EncodeUriSegment(b) <==> DecodeUriSegment(a) == DecodeUriSegment(b)
  {
    SameReplaced(a, b, ' ', '_');
    SameReplaced(a, b, '_', ' ');
  }

  lemma SameReplaced(a: string, b: string, c: char, d: char)
    ensures Replaced(a, c, d) == Replaced(b, c, d) <==>
            |a| == |b| && forall i | 0 <= i < |a| :: a[i] == b[i] || {a[i], b[i]} == {c, d}
  {
    var x, y := Replaced(a, c, d), Replaced(b, c, d);
    if |a| == |b| {
      assert forall i | 0 <= i < |a| :: x[i] == y[i] <==> a[i] == b[i] || {a[i], b[i]} == {c, d};
    }
  }
}
