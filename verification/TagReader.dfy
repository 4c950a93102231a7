// A reader of tags, and what it finds in the output of the HTML printer.
module TagReader {
  import opened Utf8
  import opened Escaper
  import opened Numerals
  import opened HtmlPrinter

  /** Outside tags, inside one, or past an error. `open` holds the elements that are still open,
      `links` the tags that opened a link. */
  datatype Scan =
    | Text(open: seq<string>, links: seq<string>)
    | Tag(open: seq<string>, links: seq<string>, content: string, quoted: bool)
    | Broken

  function Name(content: string): string {
    if content == "" || content[0] == ' ' then "" else [content[0]] + Name(content[1..])
  }

  /** The end of a tag: `br` stands alone, an end tag closes the innermost element, any other opens one. */
  function Close(open: seq<string>, links: seq<string>, content: string): Scan {
    if content == "br" then Text(open, links)
    else if content != "" && content[0] == '/' then
      if open != [] && open[|open| - 1] == content[1..] then Text(open[..|open| - 1], links) else Broken
    else Text(open + [Name(content)], if Name(content) == "a" then links + [content] else links)
  }

  function Step(s: Scan, c: char): Scan {
    match s
    case Broken => Broken
    case Text(open, links) =>
      if c == '<' then Tag(open, links, "", false) else if c == '>' then Broken else s
    case Tag(open, links, content, quoted) =>
      if c == '<' || (c == '>' && quoted) then Broken
      else if c == '>' then Close(open, links, content)
      else Tag(open, links, content + [c], if c == '"' then !quoted else quoted)
  }

  function Read(s: Scan, x: string): Scan
    decreases |x|
  {
    if x == "" then s else Read(Step(s, x[0]), x[1..])
  }

  /** Every element is closed, in order, and so is every attribute. */
  predicate WellNested(x: string) {
    var s := Read(Text([], []), x);
    s.Text? && s.open == []
  }

  // ---------------------------------------------------------------------------------------------
  // Reading a text piece by piece.

  lemma {:induction false} ReadAppend(s: Scan, x: string, y: string)
    ensures Read(s, x + y) == Read(Read(s, x), y)
    decreases |x|
  {
    if x == "" {
      assert x + y == y;
    } else {
      assert (x + y)[1..] == x[1..] + y;
      ReadAppend(Step(s, x[0]), x[1..], y);
    }
  }

  lemma {:induction false} ReadBroken(x: string)
    ensures Read(Broken, x) == Broken
  {
    if x != "" { ReadBroken(x[1..]); }
  }

  predicate NoTag(x: string) { forall i | 0 <= i < |x| :: x[i] != '<' && x[i] != '>' }

  lemma {:induction false} ReadNoTag(s: Scan, x: string)
    requires s.Text? && NoTag(x)
    ensures Read(s, x) == s
    decreases |x|
  {
    if x != "" {
      ReadNoTag(s, x[1..]);
    }
  }

  predicate Plain(x: string) { forall i | 0 <= i < |x| :: x[i] != '<' && x[i] != '>' && x[i] != '"' }

  lemma {:induction false} ReadInTag(s: Scan, x: string)
    requires s.Tag? && Plain(x)
    ensures Read(s, x) == s.(content := s.content + x)
    decreases |x|
  {
    if x == "" {
      assert s.content + x == s.content;
    } else {
      ReadInTag(Step(s, x[0]), x[1..]);
      assert s.content + [x[0]] + x[1..] == s.content + x;
    }
  }

  lemma ReadTag(s: Scan, content: string)
    requires s.Text? && Plain(content)
    ensures Read(s, "<" + content + ">") == Close(s.open, s.links, content)
  {
    var inside := Tag(s.open, s.links, "", false);
    ReadAppend(s, "<" + content, ">");
    ReadAppend(s, "<", content);
    ReadInTag(inside, content);
    assert "" + content == content;
  }

  /** A tag whose one attribute value is between quotes. */
  lemma ReadTagWithAttribute(s: Scan, front: string, value: string)
    requires s.Text? && Plain(front) && Plain(value)
    ensures Read(s, "<" + (front + "\"" + value + "\"") + ">")
         == Close(s.open, s.links, front + "\"" + value + "\"")
  {
    var content := front + "\"" + value + "\"";
    ReadAppend(s, "<" + content, ">");
    ReadAppend(s, "<", content);
    ReadAttribute(Tag(s.open, s.links, "", false), front, value);
    assert "" + content == content;
  }

  lemma ReadAttribute(t: Scan, front: string, value: string)
    requires t.Tag? && !t.quoted && Plain(front) && Plain(value)
    ensures Read(t, front + "\"" + value + "\"") == t.(content := t.content + (front + "\"" + value + "\""))
  {
    var before := t.(content := t.content + front);
    var q := t.(content := before.content + "\"", quoted := true);
    var after := q.(content := q.content + value);
    ReadInTag(t, front);
    ReadQuote(before);
    ReadInTag(q, value);
    ReadQuote(after);
    ReadFour(t, front, "\"", value, "\"");
    AppendFour(t.content, front, "\"", value, "\"");
  }

  lemma ReadQuote(t: Scan)
    requires t.Tag?
    ensures Read(t, "\"") == t.(content := t.content + "\"", quoted := !t.quoted)
  {
  }

  lemma ReadThree(s: Scan, a: string, b: string, c: string)
    ensures Read(s, a + b + c) == Read(Read(Read(s, a), b), c)
  {
    ReadAppend(s, a + b, c);
    ReadAppend(s, a, b);
  }

  lemma ReadFour(s: Scan, a: string, b: string, c: string, d: string)
    ensures Read(s, a + b + c + d) == Read(Read(Read(Read(s, a), b), c), d)
  {
    ReadAppend(s, a + b + c, d);
    ReadThree(s, a, b, c);
  }

  lemma AppendFour(x: string, a: string, b: string, c: string, d: string)
    ensures x + a + b + c + d == x + (a + b + c + d)
  {
  }

  // ---------------------------------------------------------------------------------------------
  // Reading a printed payload.

  predicate NoDiscarded(val: Json) {
    match val
    case Obj(members) => forall i | 0 <= i < |members| :: NoDiscarded(members[i].value)
    case Arr(items) => forall i | 0 <= i < |items| :: NoDiscarded(items[i])
    case Discarded => false
    case _ => true
  }

  /** The link tags a payload should have, in the order of its members. */
  function Links(val: Json): seq<string>
    decreases val, 0
  {
    match val
    case Obj(members) => MemberLinks(members, 0)
    case Arr(items) => ItemLinks(items, 0)
    case _ => []
  }

  function ItemLinks(items: seq<Json>, from: nat): seq<string>
    requires from <= |items|
    decreases items, |items| - from
  {
    if from == |items| then [] else Links(items[from]) + ItemLinks(items, from + 1)
  }

  function LinkTag(m: Member): seq<string> {
    if IsLink(m) then ["a href=\"" + Escaped(m.value.s) + "\""] else []
  }

  function MemberLinks(members: seq<Member>, from: nat): seq<string>
    requires from <= |members|
    decreases members, |members| - from
  {
    if from == |members| then []
    else LinkTag(members[from]) + Links(members[from].value) + MemberLinks(members, from + 1)
  }

  lemma {:induction false} DecimalIsNumeral(n: nat)
    ensures IsNumeral(Decimal(n))
  {
    ValueInvertsDecimal(n);
  }

  lemma EscapedIsPlain(s: seq<byte>)
    ensures Plain(Escaped(s))
  {
    EscapedIsInert(s);
    var e := Escaped(s);
    assert forall i | 0 <= i < |e| :: e[i] in e;
  }

  lemma ScalarHasNoTag(val: Json)
    requires !val.Obj? && !val.Arr? && !val.Discarded?
    ensures NoTag(Html(val))
  {
    match val
    case Str(s) => EscapedIsPlain(s);
    case Integer(n) =>
      DecimalIsNumeral(if n < 0 then -n else n);
    case Float(text) =>
      assert forall i | 0 <= i < |text| :: text[i] in text;
    case _ =>
  }

  const UNCLOSED := "discarded"

  /** After some value: as it should be, or with an element left open that nothing closes. */
  ghost predicate Stuck(s: Scan) {
    s.Broken? || (s.Text? && s.open != [] && s.open[|s.open| - 1] == UNCLOSED)
  }

  lemma ReadLineBreak(s: Scan, more: bool)
    requires s.Text? || s.Broken?
    ensures Read(s, (if more then "," else "") + "<br>") == s
  {
    var comma := if more then "," else "";
    ReadAppend(s, comma, "<br>");
    if s.Text? {
      ReadNoTag(s, comma);
      ReadTag(s, "br");
      assert "<" + "br" + ">" == "<br>";
    } else {
      ReadBroken(comma);
      ReadBroken("<br>");
    }
  }

  lemma ReadBoxed(s: Scan, left: string, inner: string, right: string)
    requires s.Text? && NoTag(left)
    ensures Read(s, Boxed(left, inner, right)) == Read(Read(Read(Text(s.open + ["div"], s.links), inner), END_DIV), right)
  {
    ReadThree(s, left, DIV + inner + END_DIV, right);
    ReadNoTag(s, left);
    ReadThree(s, DIV, inner, END_DIV);
    ReadDiv(s);
  }

  lemma ReadDiv(s: Scan)
    requires s.Text?
    ensures Read(s, DIV) == Text(s.open + ["div"], s.links)
  {
    var content := DivTag();
    ReadOpenTag(s, DIV, content);
  }

  lemma ReadOpenTag(s: Scan, x: string, content: string)
    requires s.Text? && Plain(content) && x == "<" + content + ">"
    requires content != "" && content[0] != '/' && content != "br" && Name(content) != "a"
    ensures Read(s, x) == Text(s.open + [Name(content)], s.links)
  {
    ReadTag(s, content);
  }

  lemma DivTag() returns (content: string)
    ensures Plain(content) && DIV == "<" + content + ">"
    ensures Name(content) == "div" && content != "" && content[0] == 'd'
  {
    content := "div class=tab";
    NameOfDiv();
  }

  /** The end of a box closes it, unless something inside was left open. */
  lemma ReadBoxEnd(open: seq<string>, mid: Scan, right: string)
    requires NoTag(right)
    ensures mid.Text? && mid.open == open + ["div"] ==> Read(Read(mid, END_DIV), right) == Text(open, mid.links)
    ensures Stuck(mid) ==> Read(Read(mid, END_DIV), right) == Broken
  {
    ReadBroken(END_DIV);
    ReadBroken(right);
    if mid.Text? {
      ReadTag(mid, "/div");
      assert END_DIV == "<" + "/div" + ">";
      assert "/div"[1..] == "div";
      if mid.open == open + ["div"] {
        assert mid.open[..|mid.open| - 1] == open;
        ReadNoTag(Text(open, mid.links), right);
      }
    }
  }

  lemma NameOfDiv()
    ensures Name("div class=tab") == "div"
  {
    var c := "div class=tab";
    assert Name(c[3..]) == "";
    assert c[2..][1..] == c[3..] && c[1..][1..] == c[2..];
    assert Name(c[2..]) == "v";
    assert Name(c[1..]) == "iv";
  }

  lemma ReadKey(s: Scan, m: Member)
    requires s.Text?
    ensures Read(s, KeyText(m)) == s
  {
    EscapedIsPlain(m.key);
    ReadNoTag(s, KeyText(m));
  }

  lemma ReadLinkOpen(s: Scan, m: Member)
    requires s.Text? && IsLink(m)
    ensures Read(s, LinkOpen(m)) == Text(s.open + ["a"], s.links + LinkTag(m))
  {
    var value := Escaped(m.value.s);
    EscapedIsPlain(m.value.s);
    var front := LinkFront(value);
    ReadTagWithAttribute(s, front, value);
  }

  /** The text of a link tag, taken apart. */
  lemma LinkFront(value: string) returns (front: string)
    ensures Plain(front)
    ensures "<a href=\"" + value + "\">" == "<" + (front + "\"" + value + "\"") + ">"
    ensures var content := front + "\"" + value + "\"";
            && content == "a href=\"" + value + "\"" && Name(content) == "a" && content[0] == 'a'
  {
    front := "a href=";
    NameOfLink(front + "\"" + value + "\"");
  }

  lemma NameOfLink(content: string)
    requires |content| > 1 && content[0] == 'a' && content[1] == ' '
    ensures Name(content) == "a"
  {
    assert content[1..][0] == ' ';
  }

  lemma ReadLinkClose(s: Scan, open: seq<string>, m: Member)
    requires s.Text? && IsLink(m) && s.open == open + ["a"]
    ensures Read(s, LinkClose(m)) == Text(open, s.links)
  {
    ReadEndOfLink(s, open);
  }

  lemma ReadEndOfLink(s: Scan, open: seq<string>)
    requires s.Text? && s.open == open + ["a"]
    ensures Read(s, "</a>") == Text(open, s.links)
  {
    ReadTag(s, "/a");
    assert "<" + "/a" + ">" == "</a>" && "/a"[1..] == "a";
    assert s.open[..|s.open| - 1] == open;
  }

  /** The reader after a value, for any reader outside a tag. */
  ghost predicate After(s: Scan, open: seq<string>, links: seq<string>, good: bool, found: seq<string>) {
    if good then s == Text(open, links + found) else Stuck(s)
  }

  lemma {:induction false} ReadHtml(val: Json, open: seq<string>, links: seq<string>)
    ensures After(Read(Text(open, links), Html(val)), open, links, NoDiscarded(val), Links(val))
    decreases val, 0
  {
    var s := Text(open, links);
    match val
    case Obj(members) =>
      if members == [] {
        ReadNoTag(s, "{}");
      } else {
        ReadMembers(members, 0, open + ["div"], links);
        ReadBox(open, links, "{", HtmlMembers(members, 0), "}", NoDiscarded(val), Links(val));
      }
    case Arr(items) =>
      if items == [] {
        ReadNoTag(s, "[]");
      } else {
        ReadItems(items, 0, open + ["div"], links);
        ReadBox(open, links, "[", HtmlItems(items, 0), "]", NoDiscarded(val), Links(val));
      }
    case Discarded => ReadDiscarded(s);
    case _ =>
      ScalarHasNoTag(val);
      ReadNoTag(s, Html(val));
  }

  lemma ReadBox(open: seq<string>, links: seq<string>, left: string, inner: string, right: string, good: bool, found: seq<string>)
    requires NoTag(left) && NoTag(right)
    requires After(Read(Text(open + ["div"], links), inner), open + ["div"], links, good, found)
    ensures After(Read(Text(open, links), Boxed(left, inner, right)), open, links, good, found)
  {
    ReadBoxed(Text(open, links), left, inner, right);
    ReadBoxEnd(open, Read(Text(open + ["div"], links), inner), right);
  }

  lemma ReadDiscarded(s: Scan)
    requires s.Text?
    ensures Read(s, "<discarded>") == Text(s.open + [UNCLOSED], s.links)
  {
    var content := DiscardedTag();
    ReadOpenTag(s, "<discarded>", content);
  }

  lemma DiscardedTag() returns (content: string)
    ensures Plain(content) && "<discarded>" == "<" + content + ">"
    ensures Name(content) == UNCLOSED && content != "" && content[0] == 'd' && UNCLOSED != "a"
  {
    content := Word();
    NameOfWord(content);
    TextOfTag(content);
  }

  lemma Word() returns (w: string)
    ensures w == UNCLOSED && Plain(w) && ' ' !in w && |w| == 9 && w[0] == 'd'
  {
    w := UNCLOSED;
  }

  lemma TextOfTag(content: string)
    requires content == UNCLOSED
    ensures "<discarded>" == "<" + content + ">"
  {
  }

  lemma {:induction false} NameOfWord(w: string)
    requires ' ' !in w
    ensures Name(w) == w
  {
    if w != "" {
      NameOfWord(w[1..]);
      assert w == [w[0]] + w[1..];
    }
  }

  predicate ItemsGood(items: seq<Json>, from: nat) {
    forall i | from <= i < |items| :: NoDiscarded(items[i])
  }

  lemma FirstItem(items: seq<Json>, from: nat) returns (sep: string)
    requires from < |items|
    ensures HtmlItems(items, from) == Html(items[from]) + sep + HtmlItems(items, from + 1)
    ensures forall s: Scan | s.Text? || s.Broken? :: Read(s, sep) == s
  {
    sep := if from + 1 < |items| then ",<br>" else "";
    forall s: Scan | s.Text? || s.Broken? ensures Read(s, sep) == s {
      if from + 1 < |items| {
        ReadLineBreak(s, true);
        assert "," + "<br>" == sep;
      }
    }
  }

  lemma {:induction false} ReadItems(items: seq<Json>, from: nat, open: seq<string>, links: seq<string>)
    requires from <= |items|
    ensures After(Read(Text(open, links), HtmlItems(items, from)), open, links, ItemsGood(items, from), ItemLinks(items, from))
    decreases items, |items| - from
  {
    var s := Text(open, links);
    if from == |items| {
      assert links + [] == links;
    } else {
      var sep := FirstItem(items, from);
      ReadHtml(items[from], open, links);
      var mid := Read(s, Html(items[from]));
      ReadThree(s, Html(items[from]), sep, HtmlItems(items, from + 1));
      if mid.Text? {
        ReadItems(items, from + 1, mid.open, mid.links);
        AfterBoth(mid, Read(s, HtmlItems(items, from)), open, links, NoDiscarded(items[from]), Links(items[from]),
                  ItemsGood(items, from + 1), ItemLinks(items, from + 1));
      } else {
        ReadBroken(HtmlItems(items, from + 1));
      }
    }
  }

  lemma AfterBoth(mid: Scan, end: Scan, open: seq<string>, links: seq<string>, good1: bool, found1: seq<string>,
                  good2: bool, found2: seq<string>)
    requires mid.Text? && After(mid, open, links, good1, found1) && After(end, mid.open, mid.links, good2, found2)
    ensures After(end, open, links, good1 && good2, found1 + found2)
  {
    assert links + found1 + found2 == links + (found1 + found2);
  }

  predicate MembersGood(members: seq<Member>, from: nat) {
    forall i | from <= i < |members| :: NoDiscarded(members[i].value)
  }

  lemma {:induction false} ReadMember(m: Member, open: seq<string>, links: seq<string>)
    ensures After(Read(Text(open, links), MemberText(m)), open, links, NoDiscarded(m.value), LinkTag(m) + Links(m.value))
    decreases m, 0
  {
    var s := Text(open, links);
    ReadFour(s, KeyText(m), LinkOpen(m), Html(m.value), LinkClose(m));
    ReadKey(s, m);
    if IsLink(m) {
      ReadLinkOpen(s, m);
      ReadHtml(m.value, open + ["a"], links + LinkTag(m));
      var mid := Text(open + ["a"], links + LinkTag(m) + []);
      ReadLinkClose(mid, open, m);
      assert links + LinkTag(m) + [] == links + (LinkTag(m) + []);
    } else {
      ReadHtml(m.value, open, links);
      assert [] + Links(m.value) == Links(m.value);
    }
  }

  lemma MemberEnd(members: seq<Member>, from: nat) returns (sep: string)
    requires from < |members|
    ensures HtmlMembers(members, from) == MemberText(members[from]) + sep + HtmlMembers(members, from + 1)
    ensures forall s: Scan | s.Text? || s.Broken? :: Read(s, sep) == s
  {
    sep := (if from + 1 < |members| then "," else "") + "<br>";
    forall s: Scan | s.Text? || s.Broken? ensures Read(s, sep) == s {
      ReadLineBreak(s, from + 1 < |members|);
    }
  }

  lemma {:induction false} FirstMember(members: seq<Member>, from: nat, open: seq<string>, links: seq<string>) returns (mid: Scan)
    requires from < |members|
    ensures Read(Text(open, links), HtmlMembers(members, from)) == Read(mid, HtmlMembers(members, from + 1))
    ensures After(mid, open, links, NoDiscarded(members[from].value), LinkTag(members[from]) + Links(members[from].value))
    decreases members, |members| - from, 0
  {
    var s, m := Text(open, links), members[from];
    var sep := MemberEnd(members, from);
    ReadMember(m, open, links);
    mid := Read(s, MemberText(m));
    ReadThree(s, MemberText(m), sep, HtmlMembers(members, from + 1));
  }

  lemma {:induction false} ReadMembers(members: seq<Member>, from: nat, open: seq<string>, links: seq<string>)
    requires from <= |members|
    ensures After(Read(Text(open, links), HtmlMembers(members, from)), open, links, MembersGood(members, from), MemberLinks(members, from))
    decreases members, |members| - from, 1
  {
    if from == |members| {
      assert links + [] == links;
    } else {
      var m := members[from];
      var mid := FirstMember(members, from, open, links);
      if mid.Text? {
        ReadMembers(members, from + 1, mid.open, mid.links);
        AfterBoth(mid, Read(mid, HtmlMembers(members, from + 1)), open, links, NoDiscarded(m.value), LinkTag(m) + Links(m.value),
                  MembersGood(members, from + 1), MemberLinks(members, from + 1));
      } else {
        ReadBroken(HtmlMembers(members, from + 1));
      }
    }
  }

  /** Exactly the payloads without discarded values print as well-nested text, whatever their keys
      and strings hold, and the links in the text are those of the payload. */
  lemma WellNestedExactly(val: Json)
    ensures WellNested(Html(val)) <==> NoDiscarded(val)
    ensures NoDiscarded(val) ==> Read(Text([], []), Html(val)) == Text([], Links(val))
  {
    ReadHtml(val, [], []);
    assert [] + Links(val) == Links(val);
  }

  // ---------------------------------------------------------------------------------------------
  // Links and words, spelled out.

  // The keys whose texts are links: @odata.id, @odata.context, Members@odata.nextLink, Uri.

  const ODATA_ID: seq<byte> := [0x40, 0x6F, 0x64, 0x61, 0x74, 0x61, 0x2E, 0x69, 0x64]

  const ODATA_CONTEXT: seq<byte> := [0x40, 0x6F, 0x64, 0x61, 0x74, 0x61, 0x2E, 0x63, 0x6F, 0x6E, 0x74, 0x65, 0x78, 0x74]

  const NEXT_LINK: seq<byte> := [0x4D, 0x65, 0x6D, 0x62, 0x65, 0x72, 0x73, 0x40, 0x6F, 0x64, 0x61, 0x74, 0x61, 0x2E, 0x6E, 0x65, 0x78, 0x74, 0x4C, 0x69, 0x6E, 0x6B]

  const URI: seq<byte> := [0x55, 0x72, 0x69]

  predicate IsLinkName(key: seq<byte>) { key == ODATA_ID || key == ODATA_CONTEXT || key == NEXT_LINK || key == URI }

  lemma {:induction false} SpellsExactly(key: seq<byte>, name: string)
    ensures Spells(key, name) <==> |key| == |name| && forall i | 0 <= i < |key| :: key[i] as int == name[i] as int
    decreases |name|
  {
    if name != "" && key != [] {
      SpellsExactly(key[1..], name[1..]);
      assert forall i | 0 < i < |key| :: key[i] == key[1..][i - 1];
      assert forall i | 0 < i < |name| :: name[i] == name[1..][i - 1];
    }
  }

  lemma SpellsOne(key: seq<byte>, name: string, bytes: seq<byte>)
    requires |bytes| == |name| && forall i | 0 <= i < |name| :: bytes[i] as int == name[i] as int
    ensures Spells(key, name) <==> key == bytes
  {
    SpellsExactly(key, name);
  }

  lemma LinkKeysAre(key: seq<byte>)
    ensures IsLinkKey(key) <==> IsLinkName(key)
  {
    var names := ["@odata.id", "@odata.context", "Members@odata.nextLink", "Uri"];
    SpellsOne(key, names[0], ODATA_ID);
    SpellsOne(key, names[1], ODATA_CONTEXT);
    SpellsOne(key, names[2], NEXT_LINK);
    SpellsOne(key, names[3], URI);
    OneOfFour(key, names);
  }

  lemma OneOfFour(key: seq<byte>, names: seq<string>)
    requires |names| == 4
    ensures IsOneOf(key, names) <==>
            Spells(key, names[0]) || Spells(key, names[1]) || Spells(key, names[2]) || Spells(key, names[3])
  {
    assert names[1..][1..] == names[2..] && names[2..][1..] == names[3..] && names[3..][1..] == [];
    assert IsOneOf(key, names[3..]) <==> Spells(key, names[3]);
    assert IsOneOf(key, names[2..]) <==> Spells(key, names[2]) || IsOneOf(key, names[3..]);
    assert IsOneOf(key, names[1..]) <==> Spells(key, names[1]) || IsOneOf(key, names[2..]);
  }

  lemma LinksOfOne(m: Member)
    requires !m.value.Obj? && !m.value.Arr?
    ensures Links(Obj([m])) == LinkTag(m)
  {
    assert MemberLinks([m], 1) == [] && Links(m.value) == [];
    assert MemberLinks([m], 0) == LinkTag(m) + [] + [] == LinkTag(m);
  }

  /** In an object with one member, a text under one of these keys stands inside a tag that links to it; under
      any other key, and for any other scalar value, there is no tag but the box. */
  lemma LinksAreTagged(key: seq<byte>, value: Json)
    requires !value.Obj? && !value.Arr? && !value.Discarded?
    ensures Read(Text([], []), Html(Obj([Member(key, value)]))) ==
            Text([], if IsLinkName(key) && value.Str? then ["a href=\"" + Escaped(value.s) + "\""] else [])
  {
    var m := Member(key, value);
    WellNestedExactly(Obj([m]));
    LinkKeysAre(key);
    LinksOfOne(m);
  }

  lemma OneMember(m: Member)
    ensures Html(Obj([m])) == Boxed("{", MemberText(m) + "<br>", "}")
  {
    assert HtmlMembers([m], 1) == "";
    Unseparated(MemberText(m), "<br>");
    assert HtmlMembers([m], 0) == MemberText(m) + ("" + "<br>") + "";
  }

  lemma Unseparated(a: string, b: string)
    ensures a + ("" + b) + "" == a + b
  {
  }

  lemma Flattened(left: string, div: string, quot: string, key: string, colon: string, open: string, value: string,
                  close: string, br: string, end: string, right: string)
    ensures left + (div + ((quot + key + colon) + open + value + close + br) + end) + right ==
            left + div + quot + key + colon + open + value + close + br + end + right
  {
    var inner := (quot + key + colon) + open + value + close + br;
    assert left + (div + inner + end) + right == left + div + inner + end + right;
    assert left + div + inner == left + div + quot + key + colon + open + value + close + br;
  }

  /** The text of one member, whole. */
  lemma MemberIsPrinted(key: seq<byte>, value: Json)
    ensures var isLink := IsLinkName(key) && value.Str?;
            var open := if isLink then "<a href=\"" + Escaped(value.s) + "\">" else "";
            Html(Obj([Member(key, value)])) ==
            "{" + "<div class=tab>" + "&quot" + Escaped(key) + "&quot: "
            + open + Html(value) + (if isLink then "</a>" else "") + "<br>" + "</div>" + "}"
  {
    var m := Member(key, value);
    LinkKeysAre(key);
    OneMember(m);
    Flattened("{", DIV, "&quot", Escaped(key), "&quot: ", LinkOpen(m), Html(value), LinkClose(m), "<br>", END_DIV, "}");
  }

  lemma TwoItems(a: Json, b: Json)
    ensures HtmlItems([a, b], 0) == Html(a) + ",<br>" + Html(b)
  {
    assert HtmlItems([a, b], 2) == "";
    Unseparated(Html(b), "");
    assert HtmlItems([a, b], 1) == Html(b) + "" + "" == Html(b);
  }

  lemma TwoMembers(a: Member, b: Member)
    ensures HtmlMembers([a, b], 0) == MemberText(a) + ",<br>" + (MemberText(b) + "<br>")
  {
    assert HtmlMembers([a, b], 2) == "";
    Unseparated(MemberText(b), "<br>");
    assert HtmlMembers([a, b], 1) == MemberText(b) + "<br>";
  }

  /** Members of an object are kept apart by a comma and a break, with a break behind the last one. */
  lemma MembersAreKeptApart(a: Member, b: Member)
    ensures Html(Obj([a, b])) ==
            "{" + ("<div class=tab>" + (MemberText(a) + ",<br>" + (MemberText(b) + "<br>")) + "</div>") + "}"
  {
    TwoMembers(a, b);
  }

  /** The text of an integer denotes it. */
  lemma IntegerIsPrinted(n: printable)
    ensures IsText(Html(Integer(n)), n)
  {
    Numerals.TextIsRead("", n);
  }

  /** Which word is which, and how items are kept apart. */
  lemma WordsArePrinted(s: seq<byte>, a: Json, b: Json)
    ensures Html(Null) == "null" && Html(Bool(true)) == "true" && Html(Bool(false)) == "false"
    ensures Html(Str(s)) == "\"" + Escaped(s) + "\""
    ensures Html(Obj([])) == "{}" && Html(Arr([])) == "[]" && Html(Discarded) == "<discarded>"
    ensures Html(Arr([a, b])) == "[" + ("<div class=tab>" + (Html(a) + ",<br>" + Html(b)) + "</div>") + "]"
  {
    TwoItems(a, b);
  }
}
