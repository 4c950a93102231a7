// The string escaper of the Redfish HTML printer: a UTF-8 decoder with error recovery that fills a
// buffer of fixed size and flushes it to the output.
module Escaper {
  import opened Utf8

  // ---------------------------------------------------------------------------------------------
  // What a byte string decodes to, ill-formed input included.

  /** A decoded character, a maximal ill-formed subpart, or an unfinished character at the end. */
  datatype Unit = Scalar(cp: scalar) | IllFormed | Truncated

  /** The bytes that one replacement character stands for (section 3.9 of the Unicode Standard). */
  function SubpartLength(s: seq<byte>): (n: nat)
    requires s != [] && CharLength(s) == 0 && !Pending(s)
    ensures 0 < n <= |s|
  {
    if StartsPending(s, 3) then 3
    else if StartsPending(s, 2) then 2
    else 1
  }

  /** It is the longest start of a character found here, or a single byte. */
  lemma SubpartIsMaximal(s: seq<byte>)
    requires s != [] && CharLength(s) == 0 && !Pending(s)
    ensures SubpartLength(s) == 1 || IsInitial(s[..SubpartLength(s)])
    ensures forall m | SubpartLength(s) < m <= |s| :: !IsInitial(s[..m])
  {
    var n := SubpartLength(s);
    PendingIsInitial(s[..n]);
    forall m | n < m <= |s| ensures !IsInitial(s[..m]) {
      PendingIsInitial(s[..m]);
      if m == |s| { assert s[..m] == s; }
    }
  }

  function Decoded(s: seq<byte>): seq<Unit>
    decreases |s|
  {
    if s == [] then []
    else if CharLength(s) > 0 then [Scalar(ScalarOf(s[..CharLength(s)]))] + Decoded(s[CharLength(s)..])
    else if Pending(s) then [Truncated]
    else [IllFormed] + Decoded(s[SubpartLength(s)..])
  }

  function AsUnits(cps: seq<scalar>): seq<Unit> {
    if cps == [] then [] else [Scalar(cps[0])] + AsUnits(cps[1..])
  }

  lemma {:induction false} DecodedOfWellFormed(s: seq<byte>)
    requires WellFormed(s)
    ensures Decoded(s) == AsUnits(Scalars(s))
    decreases |s|
  {
    if s != [] {
      DecodedOfWellFormed(s[CharLength(s)..]);
    }
  }

  lemma DecodedChar(c: seq<byte>, rest: seq<byte>)
    requires IsChar(c)
    ensures Decoded(c + rest) == [Scalar(ScalarOf(c))] + Decoded(rest)
  {
    CharLengthOfChar(c, rest);
    assert (c + rest)[..|c|] == c && (c + rest)[|c|..] == rest;
  }

  lemma DecodedDead(p: seq<byte>, b: byte, rest: seq<byte>)
    requires Pending(p) && !Pending(p + [b]) && !IsChar(p + [b])
    ensures Decoded(p + [b] + rest) ==
            [IllFormed] + (if p == [] then Decoded(rest) else Decoded([b] + rest))
  {
    var s, q := p + [b] + rest, p + [b];
    DeadHasNoChar(p, b, rest);
    assert forall k | 0 <= k < |q| :: s[k] == q[k];
    assert !Pending(s);
    if p == [] {
      assert !Pending(s[..1]);
      assert s[1..] == rest;
    } else {
      assert s[..|p|] == p && s[..|q|] == q;
      assert SubpartLength(s) == |p|;
      assert s[|p|..] == [b] + rest;
    }
  }

  // ---------------------------------------------------------------------------------------------
  // How decoded units are written.

  function HexDigit(n: nat): char
    requires n < 16
  {
    "0123456789abcdef"[n]
  }

  /** The last `width` hexadecimal digits of a number, zeros in front. */
  function Hex(n: nat, width: nat): (h: string)
    ensures |h| == width
    decreases width
  {
    if width == 0 then "" else Hex(n / 16, width - 1) + [HexDigit(n % 16)]
  }

  function Hex4(n: nat): (h: string)
    ensures |h| == 4
  {
    Hex(n, 4)
  }

  function HighSurrogate(cp: scalar): nat { 0xD7C0 + cp / 1024 }

  function LowSurrogate(cp: scalar): nat { 0xDC00 + cp % 1024 }

  predicate IsHexEscaped(cp: scalar) {
    (cp <= 0x1F || cp >= 0x7F) && cp != 0x08 && cp != 0x09 && cp != 0x0A && cp != 0x0C && cp != 0x0D
  }

  function Escape(cp: scalar): (e: string)
    ensures 0 < |e| <= 12
  {
    if cp == 0x08 then "\\b"
    else if cp == 0x09 then "\\t"
    else if cp == 0x0A then "\\n"
    else if cp == 0x0C then "\\f"
    else if cp == 0x0D then "\\r"
    else if cp == 0x22 then "&quot;"
    else if cp == 0x27 then "&apos;"
    else if cp == 0x26 then "&amp;"
    else if cp == 0x3C then "\\lt;"
    else if cp == 0x3E then "\\gt;"
    else if IsHexEscaped(cp) then
      if cp <= 0xFFFF then "\\u" + Hex4(cp)
      else "\\u" + Hex4(HighSurrogate(cp)) + "\\u" + Hex4(LowSurrogate(cp))
    else [cp as char]
  }

  const REPLACEMENT := "\\ufffd"

  function EscapeUnit(u: Unit): string
  {
    if u.Scalar? then Escape(u.cp) else REPLACEMENT
  }

  function EscapeAll(units: seq<Unit>): string
  {
    if units == [] then [] else EscapeUnit(units[0]) + EscapeAll(units[1..])
  }

  /** The text a byte string is printed as. */
  function Escaped(s: seq<byte>): string {
    EscapeAll(Decoded(s))
  }

  // ---------------------------------------------------------------------------------------------
  // The buffer.

  const BUFFER_SIZE := 512

  /** Room that is kept for the longest escape and the terminator snprintf writes after it. */
  const RESERVE := 13

  /** The buffer index after an accepted character: 0 when less than the reserve was left. The
      subtraction is unsigned, so past the end of the buffer it leaves plenty. */
  function AfterFlush(index: nat): nat {
    if index <= BUFFER_SIZE && BUFFER_SIZE - index < RESERVE then 0 else index
  }

  /** How many buffer cells the escape of a character touches, terminator included. */
  function Touched(cp: scalar): nat
  {
    |Escape(cp)| + if IsHexEscaped(cp) then 1 else 0
  }

  /** Every buffer write made for these units, starting at an index, stays below `size`. */
  predicate Fits(units: seq<Unit>, index: nat, size: nat)
  {
    units == [] ||
    match units[0]
    case Scalar(cp) =>
      index + Touched(cp) <= size && Fits(units[1..], AfterFlush(index + |Escape(cp)|), size)
    case IllFormed => index + |REPLACEMENT| <= size && Fits(units[1..], index + |REPLACEMENT|, size)
    case Truncated => Fits(units[1..], index, size)
  }

  /** `stringBuffer[bytes++] = c`, once for each character of a text. */
  method Put(buffer: array<char>, bytes: nat, text: string) returns (bytes': nat)
    requires bytes + |text| <= buffer.Length
    modifies buffer
    ensures bytes' == bytes + |text|
    ensures buffer[..bytes'] == old(buffer[..bytes]) + text
  {
    bytes' := bytes;
    while bytes' < bytes + |text|
      invariant bytes <= bytes' <= bytes + |text|
      invariant buffer[..bytes'] == old(buffer[..bytes]) + text[..bytes' - bytes]
    {
      buffer[bytes'] := text[bytes' - bytes];
      bytes' := bytes' + 1;
    }
  }

  /** snprintf of an escape: its characters and a terminator that stays past the index. */
  method PutHex(buffer: array<char>, bytes: nat, text: string) returns (inBounds: bool, bytes': nat)
    modifies buffer
    ensures inBounds == (bytes + |text| + 1 <= buffer.Length)
    ensures inBounds ==> bytes' == bytes + |text| && buffer[..bytes'] == old(buffer[..bytes]) + text
    ensures !inBounds ==> bytes' == bytes
  {
    inBounds, bytes' := bytes + |text| + 1 <= buffer.Length, bytes;
    if inBounds {
      var end := Put(buffer, bytes, text + ['\0']);
      bytes' := end - 1;
      assert buffer[..bytes'] == buffer[..end][..bytes'];
    }
  }

  /** The branch taken on a new code point. `last` is the byte just read. */
  method PutEscape(buffer: array<char>, bytes: nat, codePoint: scalar, last: byte)
    returns (inBounds: bool, bytes': nat)
    requires codePoint < 0x80 ==> last == codePoint
    modifies buffer
    ensures inBounds == (bytes + Touched(codePoint) <= buffer.Length)
    ensures inBounds ==> bytes' == bytes + |Escape(codePoint)|
    ensures inBounds ==> buffer[..bytes'] == old(buffer[..bytes]) + Escape(codePoint)
  {
    var text: string;
    match codePoint {
      case 0x08 => text := "\\b";
      case 0x09 => text := "\\t";
      case 0x0A => text := "\\n";
      case 0x0C => text := "\\f";
      case 0x0D => text := "\\r";
      case 0x22 => text := "&quot;";
      case 0x27 => text := "&apos;";
      case 0x26 => text := "&amp;";
      case 0x3C => text := "\\lt;";
      case 0x3E => text := "\\gt;";
      case _ =>
        if codePoint <= 0x1F || codePoint >= 0x7F {
          if codePoint <= 0xFFFF {
            text := "\\u" + Hex4(codePoint);
          } else {
            text := "\\u" + Hex4(HighSurrogate(codePoint)) + "\\u" + Hex4(LowSurrogate(codePoint));
          }
          inBounds, bytes' := PutHex(buffer, bytes, text);
          return;
        }
        text := [last as char];
    }
    inBounds, bytes' := bytes + |text| <= buffer.Length, bytes;
    if inBounds {
      bytes' := Put(buffer, bytes, text);
    }
  }

  /** What the first unit adds to the text and asks of the buffer. */
  lemma FirstUnit(u: Unit, units: seq<Unit>, index: nat, size: nat)
    ensures EscapeAll([u] + units) == EscapeUnit(u) + EscapeAll(units)
    ensures u.Scalar? ==>
              (Fits([u] + units, index, size) <==>
               index + Touched(u.cp) <= size && Fits(units, AfterFlush(index + |Escape(u.cp)|), size))
    ensures u.IllFormed? ==>
              (Fits([u] + units, index, size) <==>
               index + |REPLACEMENT| <= size && Fits(units, index + |REPLACEMENT|, size))
    ensures u.Truncated? ==> (Fits([u] + units, index, size) <==> Fits(units, index, size))
  {
    assert ([u] + units)[1..] == units;
  }

  lemma DecodedUnfinished(p: seq<byte>)
    requires Pending(p) && p != []
    ensures Decoded(p) == [Truncated] + []
  {
    PendingHasNoChar(p, []);
    assert p + [] == p;
  }

  /** What the input still holds from some position on: its units, the text they print, and the
      buffer indices from which that text can be written. */
  datatype Rest = Rest(units: seq<Unit>, text: string, fits: nat -> bool)

  ghost predicate IsRest(r: Rest, s: seq<byte>, size: nat) {
    r.units == Decoded(s) && r.text == Escaped(s) &&
    forall index: nat :: r.fits(index) == Fits(Decoded(s), index, size)
  }

  /** One entry for each suffix of the input. The trigger keeps the decoder's definition out of
      proofs that only compare entries. */
  ghost predicate IsTable(str: seq<byte>, size: nat, table: seq<Rest>) {
    |table| == |str| + 1 &&
    forall k {:trigger Decoded(str[k..])} | 0 <= k <= |str| :: IsRest(table[k], str[k..], size)
  }

  lemma SuffixTable(str: seq<byte>, size: nat) returns (table: seq<Rest>)
    ensures IsTable(str, size, table) && IsRest(table[0], str, size)
  {
    table := seq(|str| + 1, k requires 0 <= k <= |str| =>
      Rest(Decoded(str[k..]), Escaped(str[k..]), (index: nat) => Fits(Decoded(str[k..]), index, size)));
    assert str[0..] == str;
  }

  lemma TableEnd(str: seq<byte>, start: nat, size: nat, table: seq<Rest>, bytes: nat)
    requires IsTable(str, size, table) && start <= |str| && Pending(str[start..])
    ensures table[start].text == if start == |str| then "" else REPLACEMENT
    ensures table[start].fits(bytes)
  {
    if start < |str| {
      DecodedUnfinished(str[start..]);
      FirstUnit(Truncated, [], bytes, size);
    } else {
      assert Decoded(str[start..]) == [];
    }
  }

  /** A new code point: its escape is written, and the buffer is flushed when it runs low. */
  method Accept(out: string, buffer: array<char>, bytes: nat, codePoint: scalar, last: byte)
    returns (inBounds: bool, out': string, bytes': nat)
    requires codePoint < 0x80 ==> last == codePoint
    requires bytes <= buffer.Length
    modifies buffer
    ensures inBounds == (bytes + Touched(codePoint) <= buffer.Length)
    ensures inBounds ==> bytes' == AfterFlush(bytes + |Escape(codePoint)|) <= buffer.Length
    ensures inBounds ==> out' + buffer[..bytes'] == out + old(buffer[..bytes]) + Escape(codePoint)
  {
    out' := out;
    ghost var buffered := buffer[..bytes];
    inBounds, bytes' := PutEscape(buffer, bytes, codePoint, last);
    Append(out, buffered, Escape(codePoint));
    if inBounds && bytes' <= BUFFER_SIZE && BUFFER_SIZE - bytes' < RESERVE {
      out' := out' + buffer[..bytes'];
      bytes' := 0;
      assert buffer[..0] == "";
    }
  }

  /** An ill-formed subpart: a replacement is written after the last accepted character. */
  method Replace(ghost out: string, buffer: array<char>, bytes: nat)
    returns (inBounds: bool, bytes': nat)
    requires bytes <= buffer.Length
    modifies buffer
    ensures inBounds == (bytes + |REPLACEMENT| <= buffer.Length)
    ensures inBounds ==> bytes' == bytes + |REPLACEMENT|
    ensures inBounds ==> out + buffer[..bytes'] == out + old(buffer[..bytes]) + REPLACEMENT
  {
    inBounds, bytes' := bytes + |REPLACEMENT| <= buffer.Length, bytes;
    if inBounds {
      bytes' := Put(buffer, bytes, REPLACEMENT);
    }
  }

  /** What is printed or buffered, followed by what is still to come. */
  lemma Append(written: string, next: string, rest: string)
    ensures written + next + rest == written + (next + rest)
  {
  }

  lemma RestAfterUnit(u: Unit, str: seq<byte>, k: nat, next: nat, index: nat, size: nat, table: seq<Rest>)
    requires IsTable(str, size, table) && k <= next <= |str|
    requires table[k].units == [u] + table[next].units
    ensures table[k].text == EscapeUnit(u) + table[next].text
    ensures u.Scalar? ==> (table[k].fits(index) <==>
              index + Touched(u.cp) <= size && table[next].fits(AfterFlush(index + |Escape(u.cp)|)))
    ensures u.IllFormed? ==> (table[k].fits(index) <==>
              index + |REPLACEMENT| <= size && table[next].fits(index + |REPLACEMENT|))
  {
    var here, after := Decoded(str[k..]), Decoded(str[next..]);
    assert here == [u] + after;
    FirstUnit(u, after, index, size);
  }

  /** What the byte at i makes of the unfinished character in front of it. */
  lemma Decided(str: seq<byte>, start: nat, i: nat, codePoint: nat, state': nat, codePoint': nat)
    requires start <= i < |str| && Pending(str[start..i])
    requires start < i ==> codePoint == PartialOf(str[start..i])
    requires state' == NextState(StateOf(str[start..i]), str[i])
    requires codePoint' == NextCodePoint(StateOf(str[start..i]), codePoint, str[i])
    ensures state' == ACCEPT ==>
              && (codePoint' < 0xD800 || 0xDFFF < codePoint' <= 0x10FFFF)
              && (codePoint' < 0x80 ==> str[i] == codePoint')
              && Decoded(str[start..]) == [Scalar(codePoint')] + Decoded(str[i + 1..])
    ensures state' == REJECT ==>
              Decoded(str[start..]) == [IllFormed] + Decoded(str[if start == i then i + 1 else i..])
    ensures state' != ACCEPT && state' != REJECT ==>
              && Pending(str[start..i + 1])
              && state' == StateOf(str[start..i + 1]) && codePoint' == PartialOf(str[start..i + 1])
  {
    var p, b, rest := str[start..i], str[i], str[i + 1..];
    Step(p, codePoint, b);
    assert str[start..i + 1] == p + [b];
    assert str[start..] == p + [b] + rest;
    if state' == ACCEPT {
      DecodedChar(p + [b], rest);
      AsciiIsItself(p, b);
    } else if state' == REJECT {
      assert str[i..] == [b] + rest;
      DecodedDead(p, b, rest);
    }
  }

  lemma AsciiIsItself(p: seq<byte>, b: byte)
    requires IsChar(p + [b])
    ensures ScalarOf(p + [b]) < 0x80 ==> b == ScalarOf(p + [b])
  {
    if p != [] {
      assert (p + [b])[0] == p[0];
    }
  }

  /** One decoder call, told in terms of the unfinished character str[start..i] that it continues:
      it finishes a unit of the decoding, or leaves a longer unfinished character. */
  method ReadUnit(state: nat, codePoint: nat, str: seq<byte>, i: nat,
                  ghost start: nat, ghost size: nat, ghost table: seq<Rest>)
    returns (state': nat, codePoint': nat)
    requires start <= i < |str| && IsTable(str, size, table)
    requires Pending(str[start..i]) && state == StateOf(str[start..i])
    requires start < i ==> codePoint == PartialOf(str[start..i])
    ensures state' == ACCEPT ==>
              && (codePoint' < 0xD800 || 0xDFFF < codePoint' <= 0x10FFFF)
              && (codePoint' < 0x80 ==> str[i] == codePoint')
              && table[start].units == [Scalar(codePoint')] + table[i + 1].units
    ensures state' == REJECT ==>
              table[start].units == [IllFormed] + table[if start == i then i + 1 else i].units
    ensures state' != ACCEPT && state' != REJECT ==>
              && Pending(str[start..i + 1])
              && state' == StateOf(str[start..i + 1]) && codePoint' == PartialOf(str[start..i + 1])
  {
    state', codePoint' := Decode(state, codePoint, str[i]);
    Decided(str, start, i, codePoint, state', codePoint');
  }

  /** The same call, told in terms of the table of suffixes. */
  method Read(state: nat, codePoint: nat, str: seq<byte>, i: nat,
              ghost start: nat, ghost bytes: nat, ghost size: nat, ghost table: seq<Rest>)
    returns (state': nat, codePoint': nat)
    requires start <= i < |str| && IsTable(str, size, table)
    requires Pending(str[start..i]) && state == StateOf(str[start..i])
    requires start < i ==> codePoint == PartialOf(str[start..i])
    ensures state' == ACCEPT ==>
              && (codePoint' < 0xD800 || 0xDFFF < codePoint' <= 0x10FFFF)
              && (codePoint' < 0x80 ==> str[i] == codePoint')
              && table[start].text == Escape(codePoint') + table[i + 1].text
              && (table[start].fits(bytes) <==>
                  bytes + Touched(codePoint') <= size &&
                  table[i + 1].fits(AfterFlush(bytes + |Escape(codePoint')|)))
    ensures state' == REJECT ==>
              var next := if start == i then i + 1 else i;
              && table[start].text == REPLACEMENT + table[next].text
              && (table[start].fits(bytes) <==>
                  bytes + |REPLACEMENT| <= size && table[next].fits(bytes + |REPLACEMENT|))
    ensures state' != ACCEPT && state' != REJECT ==>
              && Pending(str[start..i + 1])
              && state' == StateOf(str[start..i + 1]) && codePoint' == PartialOf(str[start..i + 1])
  {
    state', codePoint' := ReadUnit(state, codePoint, str, i, start, size, table);
    if state' == ACCEPT {
      RestAfterUnit(Scalar(codePoint'), str, start, i + 1, bytes, size, table);
    } else if state' == REJECT {
      RestAfterUnit(IllFormed, str, start, if start == i then i + 1 else i, bytes, size, table);
    }
  }

  /** One round of the escaper's loop at byte i, with str[start..i] not yet decided: afterwards the
      undecided bytes are str[start'..i'], and what is printed, buffered and left is still the same
      text. */
  method Round(out: string, str: seq<byte>, buffer: array<char>, i: nat, state: nat, codePoint: nat,
               bytes: nat, undumpedChars: nat, ghost start: nat, ghost table: seq<Rest>)
    returns (inBounds: bool, out': string, i': nat, state': nat, codePoint': nat, bytes': nat,
             undumpedChars': nat, ghost start': nat)
    requires start == i - undumpedChars <= i < |str| && IsTable(str, buffer.Length, table)
    requires Pending(str[start..i]) && state == StateOf(str[start..i])
    requires start < i ==> codePoint == PartialOf(str[start..i])
    requires bytes <= buffer.Length
    modifies buffer
    ensures inBounds ==>
              && start' == i' - undumpedChars' <= i' <= |str|
              && Pending(str[start'..i']) && state' == StateOf(str[start'..i'])
              && (start' < i' ==> codePoint' == PartialOf(str[start'..i']))
              && (i' > i || (i' == i && undumpedChars' < undumpedChars))
              && bytes' <= buffer.Length
              && out' + buffer[..bytes'] + table[start'].text ==
                 out + old(buffer[..bytes]) + table[start].text
    ensures table[start].fits(bytes) <==> inBounds && table[start'].fits(bytes')
  {
    inBounds, out', i', bytes', undumpedChars' := true, out, i, bytes, undumpedChars;
    state', codePoint' := Read(state, codePoint, str, i, start, bytes, buffer.Length, table);
    start' := start;
    if state' == ACCEPT {
      start' := i + 1;
      Append(out + buffer[..bytes], Escape(codePoint'), table[start'].text);
      inBounds, out', bytes' := Accept(out, buffer, bytes, codePoint', str[i]);
      undumpedChars' := 0;
    } else if state' == REJECT {
      if undumpedChars > 0 {
        i' := i - 1;
      }
      start' := i' + 1;
      Append(out + buffer[..bytes], REPLACEMENT, table[start'].text);
      inBounds, bytes' := Replace(out, buffer, bytes);
      undumpedChars' := 0;
      state' := ACCEPT;
    } else {
      undumpedChars' := undumpedChars + 1;
    }
    i' := i' + 1;
  }

  /** The loop of the escaper and what follows it, against the table of suffixes. */
  method DumpLoop(out: string, str: seq<byte>, buffer: array<char>, ghost table: seq<Rest>)
    returns (inBounds: bool, out': string)
    requires IsTable(str, buffer.Length, table)
    modifies buffer
    ensures inBounds == table[0].fits(0)
    ensures inBounds ==> out' == out + table[0].text
  {
    var codePoint: nat, state: nat := 0, ACCEPT;
    var bytes: nat, undumpedChars: nat := 0, 0;
    out', inBounds := out, true;
    ghost var start := 0;
    var i := 0;
    while i < |str|
      invariant 0 <= start == i - undumpedChars <= i <= |str|
      invariant Pending(str[start..i]) && state == StateOf(str[start..i])
      invariant start < i ==> codePoint == PartialOf(str[start..i])
      invariant bytes <= buffer.Length
      invariant table[0].fits(0) == table[start].fits(bytes)
      invariant out' + buffer[..bytes] + table[start].text == out + table[0].text
      decreases |str| - i, undumpedChars
    {
      inBounds, out', i, state, codePoint, bytes, undumpedChars, start :=
        Round(out', str, buffer, i, state, codePoint, bytes, undumpedChars, start, table);
      if !inBounds {
        return;
      }
    }
    assert str[start..i] == str[start..];
    TableEnd(str, start, buffer.Length, table, bytes);
    if state == ACCEPT {
      if bytes > 0 {
        out' := out' + buffer[..bytes];
      }
    } else {
      out' := out' + buffer[..bytes];
      out' := out' + REPLACEMENT;
    }
  }

  /** The escaper over a buffer of any length; the printer's has BUFFER_SIZE cells. A write past the
      buffer is undefined in the source: here the call ends at once with inBounds false. The index
      after the last accepted character is always the index itself, and has no variable here. */
  method DumpEscaped(out: string, str: seq<byte>, buffer: array<char>)
    returns (inBounds: bool, out': string)
    modifies buffer
    ensures inBounds == Fits(Decoded(str), 0, buffer.Length)
    ensures inBounds ==> out' == out + Escaped(str)
  {
    ghost var table := SuffixTable(str, buffer.Length);
    inBounds, out' := DumpLoop(out, str, buffer, table);
  }

  /** A code point below 0x80 comes from a single byte, which is the code point. */
  lemma AsciiIsOneByte(c: seq<byte>)
    requires IsChar(c)
    ensures ScalarOf(c) < 0x80 ==> c == [ScalarOf(c)]
  {
  }

  // ---------------------------------------------------------------------------------------------
  // When the printer's buffer is large enough.

  lemma {:induction false} ScalarsFit(cps: seq<scalar>, index: nat)
    requires index <= BUFFER_SIZE - RESERVE
    ensures Fits(AsUnits(cps), index, BUFFER_SIZE)
  {
    if cps != [] {
      FirstUnit(Scalar(cps[0]), AsUnits(cps[1..]), index, BUFFER_SIZE);
      ScalarsFit(cps[1..], AfterFlush(index + |Escape(cps[0])|));
    }
  }

  /** On well-formed input every write stays inside the 512 cells: from an index of at most 499 the
      next loop head is again at most 499. */
  lemma WellFormedFits(s: seq<byte>, index: nat)
    requires WellFormed(s) && index <= BUFFER_SIZE - RESERVE
    ensures Fits(Decoded(s), index, BUFFER_SIZE)
  {
    DecodedOfWellFormed(s);
    ScalarsFit(Scalars(s), index);
  }

  /** Only characters flush, so a run of ill-formed bytes needs six cells for each of them. */
  lemma {:induction false} IllFormedRunNeedsSixEach(n: nat, b: byte, index: nat, size: nat)
    requires !Pending([b]) && !IsChar([b])
    ensures index <= size ==> (Fits(Decoded(seq(n, _ => b)), index, size) <==> index + 6 * n <= size)
    decreases n
  {
    var s: seq<byte> := seq(n, _ => b);
    if n > 0 {
      var rest: seq<byte> := seq(n - 1, _ => b);
      assert s == [] + [b] + rest;
      DecodedDead([], b, rest);
      FirstUnit(IllFormed, Decoded(rest), index, size);
      IllFormedRunNeedsSixEach(n - 1, b, index + 6, size);
    }
  }

  /** Units in which no run of ill-formed ones, together with the character behind it, asks for more cells
      than are kept in reserve; `before` of them come in front. */
  predicate ShortRuns(units: seq<Unit>, before: nat) {
    if units == [] then 6 * before <= RESERVE
    else
      match units[0]
      case Scalar(cp) => 6 * before + Touched(cp) <= RESERVE && ShortRuns(units[1..], 0)
      case IllFormed => ShortRuns(units[1..], before + 1)
      case Truncated => ShortRuns(units[1..], before)
  }

  lemma {:induction false} RunIsShort(units: seq<Unit>, before: nat)
    requires ShortRuns(units, before)
    ensures 6 * before <= RESERVE
  {
    if units != [] && !units[0].Scalar? {
      RunIsShort(units[1..], before + if units[0].IllFormed? then 1 else 0);
    }
  }

  /** Input with short runs fits wherever the index stands at a loop head. */
  lemma {:induction false} ShortRunsFit(units: seq<Unit>, before: nat, index: nat)
    requires ShortRuns(units, before) && index <= BUFFER_SIZE - RESERVE
    ensures Fits(units, index + 6 * before, BUFFER_SIZE)
  {
    if units != [] {
      match units[0]
      case Scalar(cp) => ShortRunsFit(units[1..], 0, AfterFlush(index + 6 * before + |Escape(cp)|));
      case IllFormed =>
        RunIsShort(units[1..], before + 1);
        ShortRunsFit(units[1..], before + 1, index);
      case Truncated => ShortRunsFit(units[1..], before, index);
    }
  }

  const LETTER: byte := 0x61

  lemma LetterIsOneCell()
    ensures IsChar([LETTER]) && ScalarOf([LETTER]) == LETTER
    ensures |Escape(LETTER)| == 1 && Touched(LETTER) == 1
  {
  }

  lemma OneCellFills(cp: scalar, units: seq<Unit>, index: nat)
    requires index < BUFFER_SIZE - RESERVE && |Escape(cp)| == 1 && Touched(cp) == 1
    ensures Fits([Scalar(cp)] + units, index, BUFFER_SIZE) <==> Fits(units, index + 1, BUFFER_SIZE)
  {
    FirstUnit(Scalar(cp), units, index, BUFFER_SIZE);
  }

  lemma LetterFills(rest: seq<byte>, index: nat)
    requires index < BUFFER_SIZE - RESERVE
    ensures Fits(Decoded([LETTER] + rest), index, BUFFER_SIZE) <==> Fits(Decoded(rest), index + 1, BUFFER_SIZE)
  {
    LetterIsOneCell();
    DecodedChar([LETTER], rest);
    OneCellFills(LETTER, Decoded(rest), index);
  }

  /** If a byte moves the index on by one, equal bytes move it on by their number. */
  lemma {:induction false} EachFills(n: nat, b: byte, rest: seq<byte>, index: nat, bound: nat, fits: (seq<byte>, nat) -> bool)
    requires forall s, i: nat | i < bound :: fits([b] + s, i) <==> fits(s, i + 1)
    requires index + n <= bound
    ensures fits(seq(n, _ => b) + rest, index) <==> fits(rest, index + n)
    decreases n
  {
    var s: seq<byte> := seq(n, _ => b);
    if n == 0 {
      assert s + rest == rest;
    } else {
      var t: seq<byte> := seq(n - 1, _ => b);
      assert s + rest == [b] + (t + rest);
      EachFills(n - 1, b, rest, index + 1, bound, fits);
    }
  }

  /** Whether a byte string fits, as a value: an induction over strings need not look inside. */
  function FitsBytes(): (seq<byte>, nat) -> bool { (s: seq<byte>, i: nat) => Fits(Decoded(s), i, BUFFER_SIZE) }

  lemma LetterFillsOne(s: seq<byte>, index: nat)
    requires index < BUFFER_SIZE - RESERVE
    ensures FitsBytes()([LETTER] + s, index) <==> FitsBytes()(s, index + 1)
  {
    LetterFills(s, index);
  }

  /** Letters fill the buffer one cell at a time. */
  lemma LettersFill(n: nat, rest: seq<byte>, index: nat)
    requires index + n <= BUFFER_SIZE - RESERVE
    ensures FitsBytes()(seq(n, _ => LETTER) + rest, index) <==> FitsBytes()(rest, index + n)
  {
    var fits := FitsBytes();
    forall s, i: nat | i < BUFFER_SIZE - RESERVE ensures fits([LETTER] + s, i) <==> fits(s, i + 1) {
      LetterFillsOne(s, i);
    }
    EachFills(n, LETTER, rest, index, BUFFER_SIZE - RESERVE, fits);
  }

  const NO_CHAR: byte := 0xFF

  lemma NoCharFills(rest: seq<byte>, index: nat, size: nat)
    ensures Fits(Decoded([NO_CHAR] + rest), index, size) <==> index + 6 <= size && Fits(Decoded(rest), index + 6, size)
  {
    assert [NO_CHAR] + rest == [] + [NO_CHAR] + rest;
    DecodedDead([], NO_CHAR, rest);
    FirstUnit(IllFormed, Decoded(rest), index, size);
  }

  lemma CharFitsIff(cp: scalar, index: nat, size: nat)
    ensures Fits(Decoded(Encode(cp)), index, size) <==> index + Touched(cp) <= size
  {
    EncodeIsChar(cp);
    DecodedChar(Encode(cp), []);
    assert Encode(cp) + [] == Encode(cp);
    FirstUnit(Scalar(cp), [], index, size);
  }

  lemma {:induction false} RunThenCharFitsIff(k: nat, cp: scalar, index: nat)
    ensures Fits(Decoded(seq(k, _ => NO_CHAR) + Encode(cp)), index, BUFFER_SIZE) <==> index + 6 * k + Touched(cp) <= BUFFER_SIZE
    decreases k
  {
    var s: seq<byte> := seq(k, _ => NO_CHAR);
    if k == 0 {
      assert s + Encode(cp) == Encode(cp);
      CharFitsIff(cp, index, BUFFER_SIZE);
    } else {
      var t: seq<byte> := seq(k - 1, _ => NO_CHAR);
      assert s + Encode(cp) == [NO_CHAR] + (t + Encode(cp));
      NoCharFills(t + Encode(cp), index, BUFFER_SIZE);
      RunThenCharFitsIff(k - 1, cp, index + 6);
    }
  }

  /** Letters, a run of bytes that start no character, and a character: how much of each fits. */
  lemma RunAfterLettersFitsIff(n: nat, k: nat, cp: scalar)
    requires n <= BUFFER_SIZE - RESERVE
    ensures Fits(Decoded(seq(n, _ => LETTER) + (seq(k, _ => NO_CHAR) + Encode(cp))), 0, BUFFER_SIZE) <==>
            n + 6 * k + Touched(cp) <= BUFFER_SIZE
  {
    LettersFill(n, seq(k, _ => NO_CHAR) + Encode(cp), 0);
    RunThenCharFitsIff(k, cp, n);
  }

  /** One such byte is enough, between 499 letters and a character above U+FFFF. */
  lemma IllFormedInputCanOverrun()
    ensures !Fits(Decoded(seq(499, _ => LETTER) + (seq(1, _ => NO_CHAR) + Encode(0x10000))), 0, BUFFER_SIZE)
  {
    RunAfterLettersFitsIff(499, 1, 0x10000);
  }

  lemma FirstDecoded(s: seq<byte>) returns (u: Unit, rest: seq<byte>)
    requires s != []
    ensures Decoded(s) == [u] + Decoded(rest) && |rest| < |s|
  {
    if CharLength(s) > 0 {
      u, rest := Scalar(ScalarOf(s[..CharLength(s)])), s[CharLength(s)..];
    } else if Pending(s) {
      u, rest := Truncated, [];
    } else {
      u, rest := IllFormed, s[SubpartLength(s)..];
    }
  }

  function IndexAfter(u: Unit, index: nat): (next: nat)
    ensures next <= index + 12
  {
    match u
    case Scalar(cp) => AfterFlush(index + |Escape(cp)|)
    case IllFormed => index + |REPLACEMENT|
    case Truncated => index
  }

  /** Read with a buffer that is long enough, any input fits. */
  lemma {:induction false} LongBufferFits(s: seq<byte>, index: nat, size: nat)
    requires index + RESERVE * |s| <= size
    ensures Fits(Decoded(s), index, size)
    decreases |s|
  {
    if s != [] {
      var u, rest := FirstDecoded(s);
      FirstUnit(u, Decoded(rest), index, size);
      LongBufferFits(rest, IndexAfter(u, index), size);
    }
  }

  // ---------------------------------------------------------------------------------------------
  // Nothing that could end an element or an attribute is printed.

  predicate IsInert(text: string) {
    forall c | c in text :: c != '<' && c != '>' && c != '"' && c != '\''
  }

  lemma {:induction false} HexIsInert(n: nat, width: nat)
    ensures forall c | c in Hex(n, width) :: '0' <= c <= '9' || 'a' <= c <= 'f'
    decreases width
  {
    if width > 0 {
      HexIsInert(n / 16, width - 1);
    }
  }

  lemma EscapeIsInert(cp: scalar)
    ensures IsInert(Escape(cp))
  {
    if IsHexEscaped(cp) {
      if cp <= 0xFFFF {
        HexIsInert(cp, 4);
      } else {
        HexIsInert(HighSurrogate(cp), 4);
        HexIsInert(LowSurrogate(cp), 4);
      }
    }
  }

  lemma {:induction false} EscapeAllIsInert(units: seq<Unit>)
    ensures IsInert(EscapeAll(units))
  {
    if units != [] {
      if units[0].Scalar? {
        EscapeIsInert(units[0].cp);
      }
      EscapeAllIsInert(units[1..]);
    }
  }

  lemma EscapedIsInert(s: seq<byte>)
    ensures IsInert(Escaped(s))
  {
    EscapeAllIsInert(Decoded(s));
  }
}
