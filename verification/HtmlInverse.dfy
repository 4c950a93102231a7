// No two payloads print the same text: what the HTML printer shows can be read back.
module HtmlInverse {
  import opened Utf8
  import opened Escaper
  import opened Unescaper
  import opened Numerals
  import opened HtmlPrinter

  // ---------------------------------------------------------------------------------------------
  // Where a part of a text ends.

  lemma Cancel(a: string, r1: string, r2: string)
    requires a + r1 == a + r2
    ensures r1 == r2
  {
    assert (a + r1)[|a|..] == r1 && (a + r2)[|a|..] == r2;
  }

  predicate EndsRun(stop: char -> bool, r: string) { r != "" ==> stop(r[0]) }

  predicate IsRun(stop: char -> bool, p: string) { forall i | 0 <= i < |p| :: !stop(p[i]) }

  /** A part without a stopping character, in front of one or at the end, is as long as it can be. */
  lemma RunIsUnique(stop: char -> bool, p1: string, r1: string, p2: string, r2: string)
    requires IsRun(stop, p1) && IsRun(stop, p2) && EndsRun(stop, r1) && EndsRun(stop, r2)
    requires p1 + r1 == p2 + r2
    ensures p1 == p2 && r1 == r2
  {
    RunIsLongest(stop, p1, r1, p2, r2);
    RunIsLongest(stop, p2, r2, p1, r1);
    SameLength(p1, r1, p2, r2);
  }

  lemma RunIsLongest(stop: char -> bool, p1: string, r1: string, p2: string, r2: string)
    requires IsRun(stop, p2) && EndsRun(stop, r1) && p1 + r1 == p2 + r2
    ensures |p1| >= |p2|
  {
    assert r1 != "" ==> (p1 + r1)[|p1|] == r1[0];
    assert forall k | 0 <= k < |p2| :: (p2 + r2)[k] == p2[k];
  }

  // ---------------------------------------------------------------------------------------------
  // Strings and keys.

  lemma EscapedIsInjective(s: seq<byte>, t: seq<byte>)
    requires Readable(s) && Readable(t) && Escaped(s) == Escaped(t)
    ensures s == t
  {
    ReadsBackExactly(s);
    ReadsBackExactly(t);
  }

  predicate IsQuote(c: char) { c == '"' }

  lemma EscapedHasNoQuote(s: seq<byte>)
    ensures IsRun(IsQuote, Escaped(s))
  {
    EscapedIsInert(s);
    var e := Escaped(s);
    assert forall i | 0 <= i < |e| :: e[i] in e;
  }

  lemma QuotedIsUnique(s: seq<byte>, r1: string, t: seq<byte>, r2: string)
    requires Readable(s) && Readable(t)
    requires Escaped(s) + ("\"" + r1) == Escaped(t) + ("\"" + r2)
    ensures s == t && r1 == r2
  {
    EscapedHasNoQuote(s);
    EscapedHasNoQuote(t);
    RunIsUnique(IsQuote, Escaped(s), "\"" + r1, Escaped(t), "\"" + r2);
    EscapedIsInjective(s, t);
    Cancel("\"", r1, r2);
  }

  /** An ampersand and a q start a whole `&quot;`. */
  predicate QuotEndsAt(e: string, i: nat)
    requires i < |e|
  {
    e[i] == '&' ==> i + 1 < |e| && (e[i + 1] == 'q' ==> i + 5 < |e| && e[i + 5] == ';')
  }

  predicate QuotEnds(e: string) { forall i {:trigger e[i]} {:trigger QuotEndsAt(e, i)} | 0 <= i < |e| :: QuotEndsAt(e, i) }

  lemma EscapeQuotEnds(cp: scalar)
    ensures QuotEnds(Escape(cp))
  {
    if IsHexEscaped(cp) {
      if cp <= 0xFFFF {
        HexIsInert(cp, 4);
      } else {
        HexIsInert(HighSurrogate(cp), 4);
        HexIsInert(LowSurrogate(cp), 4);
      }
      NoAmpersand(Escape(cp));
    }
  }

  lemma NoAmpersand(e: string)
    requires '&' !in e
    ensures QuotEnds(e)
  {
    assert forall i | 0 <= i < |e| :: e[i] in e;
  }

  lemma QuotEndsAppend(a: string, b: string)
    requires QuotEnds(a) && QuotEnds(b)
    ensures QuotEnds(a + b)
  {
    var e := a + b;
    forall i | 0 <= i < |e| ensures QuotEndsAt(e, i) {
      if i < |a| {
        assert QuotEndsAt(a, i);
      } else {
        assert QuotEndsAt(b, i - |a|);
      }
    }
  }

  lemma {:induction false} EscapedQuotEnds(units: seq<Unit>)
    ensures QuotEnds(EscapeAll(units))
  {
    if units != [] {
      if units[0].Scalar? { EscapeQuotEnds(units[0].cp); }
      EscapedQuotEnds(units[1..]);
      QuotEndsAppend(EscapeUnit(units[0]), EscapeAll(units[1..]));
    }
  }

  lemma KeyEndIsUnique(e1: string, r1: string, e2: string, r2: string)
    requires QuotEnds(e1) && QuotEnds(e2)
    requires e1 + ("&quot: " + r1) == e2 + ("&quot: " + r2)
    ensures |e1| >= |e2|
  {
    var n, x := |e1|, e1 + ("&quot: " + r1);
    assert x[n] == '&' && x[n + 1] == 'q' && x[n + 5] == ':';
    assert forall k | 0 <= k < |e2| :: x[k] == e2[k];
  }

  lemma KeyIsUnique(s: seq<byte>, r1: string, t: seq<byte>, r2: string)
    requires Readable(s) && Readable(t)
    requires Escaped(s) + ("&quot: " + r1) == Escaped(t) + ("&quot: " + r2)
    ensures s == t && r1 == r2
  {
    EscapedQuotEnds(Decoded(s));
    EscapedQuotEnds(Decoded(t));
    KeyEndIsUnique(Escaped(s), r1, Escaped(t), r2);
    KeyEndIsUnique(Escaped(t), r2, Escaped(s), r1);
    SameLength(Escaped(s), "&quot: " + r1, Escaped(t), "&quot: " + r2);
    EscapedIsInjective(s, t);
    Cancel("&quot: ", r1, r2);
  }

  lemma SameLength(a: string, r1: string, b: string, r2: string)
    requires |a| == |b| && a + r1 == b + r2
    ensures a == b && r1 == r2
  {
    assert (a + r1)[..|a|] == a && (b + r2)[..|b|] == b;
    Cancel(a, r1, r2);
  }

  // ---------------------------------------------------------------------------------------------
  // Values.

  /** Digits with a sign, a point or an exponent, as a float prints that is finite. */
  predicate IsFinite(text: string) {
    text != "" && IsNumeric(text[0]) && ('.' in text || 'e' in text) && forall c | c in text :: IsNumberChar(c)
  }

  /** Every key and string can be read back. Floats that are not finite are out, as they print like null, and so
      are discarded values. */
  ghost predicate Faithful(val: Json) {
    match val
    case Obj(members) => forall i | 0 <= i < |members| :: Readable(members[i].key) && Faithful(members[i].value)
    case Arr(items) => forall i | 0 <= i < |items| :: Faithful(items[i])
    case Str(s) => Readable(s)
    case Float(text) => IsFinite(text)
    case Discarded => false
    case _ => true
  }

  /** What follows a value: the end, a comma or a tag. */
  predicate Follows(r: string) { r != "" ==> r[0] == ',' || r[0] == '<' }

  predicate IsNumeric(c: char) { '0' <= c <= '9' || c == '-' }

  function FirstChar(val: Json): char
    requires Faithful(val)
  {
    match val
    case Obj(_) => '{'
    case Arr(_) => '['
    case Str(_) => '"'
    case Bool(b) => if b then 't' else 'f'
    case Integer(n) => IntegerText(n)[0]
    case Float(text) => text[0]
    case Null => 'n'
  }

  lemma StartsWith(val: Json)
    requires Faithful(val)
    ensures Html(val) != "" && Html(val)[0] == FirstChar(val)
    ensures IsNumeric(FirstChar(val)) <==> val.Integer? || val.Float?
  {
    if val.Integer? {
      ValueInvertsDecimal(if val.n < 0 then -val.n else val.n);
    }
  }

  predicate IsNumberChar(c: char) { IsNumeric(c) || c == '+' || c == '.' || c == 'e' }

  predicate NotNumberChar(c: char) { !IsNumberChar(c) }

  /** A number ends where its characters do; a float has one that no integer has. */
  lemma NumberIsUnique(a: Json, ra: string, b: Json, rb: string)
    requires Faithful(a) && Faithful(b) && (a.Integer? || a.Float?) && (b.Integer? || b.Float?)
    requires Html(a) + ra == Html(b) + rb && Follows(ra) && Follows(rb)
    ensures a == b && ra == rb
  {
    NumberIsRun(a);
    NumberIsRun(b);
    RunIsUnique(NotNumberChar, Html(a), ra, Html(b), rb);
    if a.Integer? && b.Integer? {
      TextIsNumber(a.n, b.n);
    }
  }

  lemma NumberIsRun(a: Json)
    requires Faithful(a) && (a.Integer? || a.Float?)
    ensures IsRun(NotNumberChar, Html(a))
    ensures a.Integer? <==> '.' !in Html(a) && 'e' !in Html(a)
  {
    if a.Integer? {
      ValueInvertsDecimal(if a.n < 0 then -a.n else a.n);
      assert forall i | 0 <= i < |Html(a)| :: IsNumeric(Html(a)[i]);
    } else {
      assert forall i | 0 <= i < |Html(a)| :: Html(a)[i] in Html(a);
    }
  }

  lemma TextIsNumber(n: int, m: int)
    requires IntegerText(n) == IntegerText(m)
    ensures n == m
  {
    ValueInvertsDecimal(if n < 0 then -n else n);
    ValueInvertsDecimal(if m < 0 then -m else m);
    if n < 0 && m < 0 {
      Cancel("-", Decimal(-n), Decimal(-m));
    }
  }

  lemma StrText(s: seq<byte>, r: string)
    ensures Html(Str(s)) + r == "\"" + (Escaped(s) + ("\"" + r))
  {
    Append3("\"", Escaped(s), "\"", r);
    assert Html(Str(s)) + r == "\"" + Escaped(s) + "\"" + r;
  }

  /** A box in front of a text, taken apart. */
  lemma BoxText(left: string, inner: string, right: string, r: string)
    ensures Boxed(left, inner, right) + r == (left + DIV) + (inner + (END_DIV + right + r))
  {
    assert left + (DIV + inner + END_DIV) + right + r == left + DIV + inner + END_DIV + right + r;
  }

  lemma ItemText(items: seq<Json>, i: nat, t: string) returns (rest: string)
    requires i < |items| && t != "" && t[0] == '<'
    ensures HtmlItems(items, i) + t == Html(items[i]) + rest && rest != ""
    ensures i + 1 < |items| ==> rest == ",<br>" + (HtmlItems(items, i + 1) + t) && rest[0] == ','
    ensures i + 1 == |items| ==> rest == t
  {
    var sep := if i + 1 < |items| then ",<br>" else "";
    rest := sep + (HtmlItems(items, i + 1) + t);
    Append3(Html(items[i]), sep, HtmlItems(items, i + 1), t);
    assert i + 1 == |items| ==> HtmlItems(items, i + 1) == "";
    assert Html(items[i]) + sep + HtmlItems(items, i + 1) + t == Html(items[i]) + (sep + HtmlItems(items, i + 1) + t);
    assert sep + HtmlItems(items, i + 1) + t == rest;
  }

  lemma MemberLine(members: seq<Member>, i: nat, t: string) returns (rest: string)
    requires i < |members|
    ensures HtmlMembers(members, i) + t == MemberText(members[i]) + rest && rest != ""
    ensures i + 1 < |members| ==> rest == ",<br>" + (HtmlMembers(members, i + 1) + t) && rest[0] == ','
    ensures i + 1 == |members| ==> rest == "<br>" + t && rest[0] == '<'
  {
    var comma := if i + 1 < |members| then "," else "";
    var text, after := MemberText(members[i]), HtmlMembers(members, i + 1);
    rest := (comma + "<br>") + (after + t);
    assert text + (comma + "<br>") + after + t == text + rest;
    assert "," + "<br>" == ",<br>" && "" + "<br>" == "<br>";
    if i + 1 == |members| {
      assert after + t == t;
    }
  }

  /** A printed value is not a part of the text of another: whatever follows, value and rest are found. */
  lemma {:induction false} ValueIsUnique(a: Json, ra: string, b: Json, rb: string)
    requires Faithful(a) && Faithful(b) && Follows(ra) && Follows(rb)
    requires Html(a) + ra == Html(b) + rb
    ensures a == b && ra == rb
    decreases a, 1
  {
    StartsWith(a);
    StartsWith(b);
    assert (Html(a) + ra)[0] == FirstChar(a) && (Html(b) + rb)[0] == FirstChar(b);
    match a
    case Str(s) =>
      StrText(s, ra);
      StrText(b.s, rb);
      Cancel("\"", Escaped(s) + ("\"" + ra), Escaped(b.s) + ("\"" + rb));
      QuotedIsUnique(s, ra, b.s, rb);
    case Integer(_) => NumberIsUnique(a, ra, b, rb);
    case Float(_) => NumberIsUnique(a, ra, b, rb);
    case Arr(items) => ArrayIsUnique(items, ra, b.items, rb);
    case Obj(members) => ObjectIsUnique(members, ra, b.members, rb);
    case _ => Cancel(Html(a), ra, rb);
  }

  lemma {:induction false} ArrayIsUnique(xs: seq<Json>, ra: string, ys: seq<Json>, rb: string)
    requires Faithful(Arr(xs)) && Faithful(Arr(ys))
    requires Html(Arr(xs)) + ra == Html(Arr(ys)) + rb
    ensures xs == ys && ra == rb
    decreases xs, |xs| + 1
  {
    BoxText("[", HtmlItems(xs, 0), "]", ra);
    BoxText("[", HtmlItems(ys, 0), "]", rb);
    SecondChar("[]", ra, "[" + DIV, HtmlItems(ys, 0) + (END_DIV + "]" + rb));
    SecondChar("[]", rb, "[" + DIV, HtmlItems(xs, 0) + (END_DIV + "]" + ra));
    if xs == [] || ys == [] {
      Cancel("[]", ra, rb);
    } else {
      Cancel("[" + DIV, HtmlItems(xs, 0) + (END_DIV + "]" + ra), HtmlItems(ys, 0) + (END_DIV + "]" + rb));
      ItemsAreUnique(xs, ys, 0, END_DIV + "]" + ra, END_DIV + "]" + rb);
      Cancel(END_DIV + "]", ra, rb);
    }
  }

  lemma SecondChar(empty: string, r1: string, box: string, r2: string)
    requires |empty| == 2 && |box| >= 2 && empty[1] != box[1]
    ensures empty + r1 != box + r2
  {
    assert (empty + r1)[1] == empty[1] && (box + r2)[1] == box[1];
  }

  lemma {:induction false} ItemsAreUnique(xs: seq<Json>, ys: seq<Json>, i: nat, t1: string, t2: string)
    requires Faithful(Arr(xs)) && Faithful(Arr(ys)) && i < |xs| && i < |ys|
    requires t1 != "" && t2 != "" && t1[0] == '<' && t2[0] == '<'
    requires HtmlItems(xs, i) + t1 == HtmlItems(ys, i) + t2
    ensures |xs| == |ys| && t1 == t2 && forall k | i <= k < |xs| :: xs[k] == ys[k]
    decreases xs, |xs| - i, 1
  {
    FirstItemIsUnique(xs, ys, i, t1, t2);
    if i + 1 < |xs| {
      ItemsAreUnique(xs, ys, i + 1, t1, t2);
    }
  }

  lemma {:induction false} FirstItemIsUnique(xs: seq<Json>, ys: seq<Json>, i: nat, t1: string, t2: string)
    requires Faithful(Arr(xs)) && Faithful(Arr(ys)) && i < |xs| && i < |ys|
    requires t1 != "" && t2 != "" && t1[0] == '<' && t2[0] == '<'
    requires HtmlItems(xs, i) + t1 == HtmlItems(ys, i) + t2
    ensures xs[i] == ys[i] && (i + 1 < |xs| <==> i + 1 < |ys|)
    ensures if i + 1 < |xs| then HtmlItems(xs, i + 1) + t1 == HtmlItems(ys, i + 1) + t2 else t1 == t2
    decreases xs, |xs| - i, 0
  {
    var r1 := ItemText(xs, i, t1);
    var r2 := ItemText(ys, i, t2);
    ValueIsUnique(xs[i], r1, ys[i], r2);
    if i + 1 < |xs| {
      Cancel(",<br>", HtmlItems(xs, i + 1) + t1, HtmlItems(ys, i + 1) + t2);
    }
  }

  lemma {:induction false} ObjectIsUnique(xs: seq<Member>, ra: string, ys: seq<Member>, rb: string)
    requires Faithful(Obj(xs)) && Faithful(Obj(ys))
    requires Html(Obj(xs)) + ra == Html(Obj(ys)) + rb
    ensures xs == ys && ra == rb
    decreases xs, |xs| + 1
  {
    BoxText("{", HtmlMembers(xs, 0), "}", ra);
    BoxText("{", HtmlMembers(ys, 0), "}", rb);
    SecondChar("{}", ra, "{" + DIV, HtmlMembers(ys, 0) + (END_DIV + "}" + rb));
    SecondChar("{}", rb, "{" + DIV, HtmlMembers(xs, 0) + (END_DIV + "}" + ra));
    if xs == [] || ys == [] {
      Cancel("{}", ra, rb);
    } else {
      Cancel("{" + DIV, HtmlMembers(xs, 0) + (END_DIV + "}" + ra), HtmlMembers(ys, 0) + (END_DIV + "}" + rb));
      MembersAreUnique(xs, ys, 0, END_DIV + "}" + ra, END_DIV + "}" + rb);
      Cancel(END_DIV + "}", ra, rb);
    }
  }

  /** Whether two lists of members have one text from an index on, as a value: the induction below need not
      look inside. */
  function SameText(xs: seq<Member>, t1: string, ys: seq<Member>, t2: string): nat -> bool {
    (k: nat) => k < |xs| && k < |ys| && HtmlMembers(xs, k) + t1 == HtmlMembers(ys, k) + t2
  }

  lemma MembersAreUnique(xs: seq<Member>, ys: seq<Member>, i: nat, t1: string, t2: string)
    requires Faithful(Obj(xs)) && Faithful(Obj(ys)) && SameText(xs, t1, ys, t2)(i)
    ensures |xs| == |ys| && t1 == t2 && forall k | i <= k < |xs| :: xs[k] == ys[k]
    decreases xs, |xs| - i, 2
  {
    var same, atEnd := SameText(xs, t1, ys, t2), t1 == t2;
    forall k: nat | i <= k < |xs| && k < |ys| ensures GoesOn(xs, ys, k, atEnd, same) {
      if same(k) { NextIsSame(xs, ys, k, t1, t2); }
    }
    AllAreSame(xs, ys, i, atEnd, same);
  }

  predicate GoesOn<T(==)>(xs: seq<T>, ys: seq<T>, k: nat, atEnd: bool, same: nat -> bool)
    requires k < |xs| && k < |ys|
  {
    same(k) ==>
      xs[k] == ys[k] && (k + 1 < |xs| <==> k + 1 < |ys|) && if k + 1 < |xs| then same(k + 1) else atEnd
  }

  lemma {:induction false} AllAreSame<T>(xs: seq<T>, ys: seq<T>, i: nat, atEnd: bool, same: nat -> bool)
    requires i < |xs| && i < |ys| && same(i)
    requires forall k: nat | i <= k < |xs| && k < |ys| :: GoesOn(xs, ys, k, atEnd, same)
    ensures |xs| == |ys| && atEnd && forall k | i <= k < |xs| :: xs[k] == ys[k]
    decreases |xs| - i
  {
    assert GoesOn(xs, ys, i, atEnd, same);
    if i + 1 < |xs| {
      AllAreSame(xs, ys, i + 1, atEnd, same);
    }
  }

  lemma NextIsSame(xs: seq<Member>, ys: seq<Member>, i: nat, t1: string, t2: string)
    requires Faithful(Obj(xs)) && Faithful(Obj(ys)) && SameText(xs, t1, ys, t2)(i)
    ensures xs[i] == ys[i] && (i + 1 < |xs| <==> i + 1 < |ys|)
    ensures if i + 1 < |xs| then SameText(xs, t1, ys, t2)(i + 1) else t1 == t2
    decreases xs, |xs| - i, 1
  {
    FirstMemberIsUnique(xs, ys, i, t1, t2);
  }

  lemma {:induction false} FirstMemberIsUnique(xs: seq<Member>, ys: seq<Member>, i: nat, t1: string, t2: string)
    requires Faithful(Obj(xs)) && Faithful(Obj(ys)) && i < |xs| && i < |ys|
    requires HtmlMembers(xs, i) + t1 == HtmlMembers(ys, i) + t2
    ensures xs[i] == ys[i] && (i + 1 < |xs| <==> i + 1 < |ys|)
    ensures if i + 1 < |xs| then HtmlMembers(xs, i + 1) + t1 == HtmlMembers(ys, i + 1) + t2 else t1 == t2
    decreases xs, |xs| - i, 0
  {
    var r1 := MemberLine(xs, i, t1);
    var r2 := MemberLine(ys, i, t2);
    MemberIsUnique(xs[i], r1, ys[i], r2);
    if i + 1 < |xs| {
      Cancel(",<br>", HtmlMembers(xs, i + 1) + t1, HtmlMembers(ys, i + 1) + t2);
    } else {
      Cancel("<br>", t1, t2);
    }
  }

  lemma KeyPart(m: Member, r: string)
    ensures MemberText(m) + r == "&quot" + (Escaped(m.key) + ("&quot: " + (LinkOpen(m) + (Html(m.value) + (LinkClose(m) + r)))))
  {
    var k, o, v, c := KeyText(m), LinkOpen(m), Html(m.value), LinkClose(m);
    assert k + o + v + c + r == k + (o + (v + (c + r)));
    KeyTextSplit(m, o + (v + (c + r)));
  }

  lemma KeyTextSplit(m: Member, r: string)
    ensures KeyText(m) + r == "&quot" + (Escaped(m.key) + ("&quot: " + r))
  {
    Append3("&quot", Escaped(m.key), "&quot: ", r);
    assert KeyText(m) + r == "&quot" + Escaped(m.key) + "&quot: " + r;
  }

  lemma LinkPart(m: Member, r: string)
    requires IsLink(m)
    ensures LinkOpen(m) + r == "<a href=\"" + (Escaped(m.value.s) + ("\"" + (">" + r)))
  {
    LinkText(Escaped(m.value.s), r);
  }

  lemma LinkText(e: string, r: string)
    ensures "<a href=\"" + e + "\">" + r == "<a href=\"" + (e + ("\"" + (">" + r)))
  {
    assert "<a href=\"" + e + "\">" + r == "<a href=\"" + (e + ("\">" + r));
    assert "\">" + r == "\"" + (">" + r);
  }

  lemma {:induction false} MemberIsUnique(m1: Member, r1: string, m2: Member, r2: string)
    requires Readable(m1.key) && Faithful(m1.value) && Readable(m2.key) && Faithful(m2.value)
    requires Follows(r1) && Follows(r2)
    requires MemberText(m1) + r1 == MemberText(m2) + r2
    ensures m1 == m2 && r1 == r2
    decreases m1, 0
  {
    var v1, v2 := Html(m1.value) + (LinkClose(m1) + r1), Html(m2.value) + (LinkClose(m2) + r2);
    KeyPart(m1, r1);
    KeyPart(m2, r2);
    Cancel("&quot", Escaped(m1.key) + ("&quot: " + (LinkOpen(m1) + v1)), Escaped(m2.key) + ("&quot: " + (LinkOpen(m2) + v2)));
    KeyIsUnique(m1.key, LinkOpen(m1) + v1, m2.key, LinkOpen(m2) + v2);
    SameLinks(m1, v1, m2, v2);
    if IsLink(m1) {
      LinkIsUnique(m1, v1, m2, v2);
      Cancel(Html(m1.value), LinkClose(m1) + r1, LinkClose(m2) + r2);
      Cancel(LinkClose(m1), r1, r2);
    } else {
      NoLink(m1, v1, r1);
      NoLink(m2, v2, r2);
      ValueIsUnique(m1.value, r1, m2.value, r2);
    }
  }

  lemma NoLink(m: Member, v: string, r: string)
    requires !IsLink(m) && v == Html(m.value) + (LinkClose(m) + r)
    ensures LinkOpen(m) + v == Html(m.value) + r
  {
    assert LinkClose(m) + r == r;
    assert LinkOpen(m) + v == v;
  }

  lemma LinkIsUnique(m1: Member, v1: string, m2: Member, v2: string)
    requires IsLink(m1) && IsLink(m2) && Readable(m1.value.s) && Readable(m2.value.s)
    requires LinkOpen(m1) + v1 == LinkOpen(m2) + v2
    ensures m1.value == m2.value && v1 == v2
  {
    var s1, s2 := m1.value.s, m2.value.s;
    LinkPart(m1, v1);
    LinkPart(m2, v2);
    Cancel("<a href=\"", Escaped(s1) + ("\"" + (">" + v1)), Escaped(s2) + ("\"" + (">" + v2)));
    QuotedIsUnique(s1, ">" + v1, s2, ">" + v2);
    Cancel(">", v1, v2);
  }

  /** Only a link starts with a tag. */
  lemma SameLinks(m1: Member, v1: string, m2: Member, v2: string)
    requires Faithful(m1.value) && Faithful(m2.value)
    requires Html(m1.value) <= v1 && Html(m2.value) <= v2
    requires LinkOpen(m1) + v1 == LinkOpen(m2) + v2
    ensures IsLink(m1) <==> IsLink(m2)
  {
    TextStart(m1, v1);
    TextStart(m2, v2);
  }

  lemma TextStart(m: Member, v: string)
    requires Faithful(m.value) && Html(m.value) <= v
    ensures LinkOpen(m) + v != "" && (IsLink(m) <==> (LinkOpen(m) + v)[0] == '<')
  {
    StartsWith(m.value);
    if IsLink(m) {
      LinkPart(m, v);
    } else {
      assert LinkOpen(m) + v == v;
      assert v[0] == Html(m.value)[0];
    }
  }

  /** Payloads whose strings can be read back print the same text only if they are the same. */
  lemma HtmlIsInjective(a: Json, b: Json)
    requires Faithful(a) && Faithful(b) && Html(a) == Html(b)
    ensures a == b
  {
    assert Html(a) + "" == Html(b) + "";
    ValueIsUnique(a, "", b, "");
  }
}
