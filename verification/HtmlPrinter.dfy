// The recursive HTML printer for Redfish payloads.
module HtmlPrinter {
  import opened Utf8
  import opened Escaper
  import opened Numerals

  // ---------------------------------------------------------------------------------------------
  // Payloads, and the text they are printed as.

  /** The signed and unsigned 64-bit integers a payload can hold, the smallest one left out. */
  type printable = n: int | INT64_MIN < n <= UINT64_MAX

  predicate IsFloatText(s: string) {
    forall c | c in s :: '0' <= c <= '9' || 'a' <= c <= 'z' || c == '+' || c == '-' || c == '.'
  }

  /** What the float printer emits: digits, sign, point and exponent, or "null". */
  type floatText = s: string | IsFloatText(s) witness "0.0"

  datatype Member = Member(key: seq<byte>, value: Json)

  /** A payload; object members stand in the order of iteration. */
  datatype Json =
    | Null
    | Bool(b: bool)
    | Integer(n: printable)
    | Float(text: floatText)
    | Str(s: seq<byte>)
    | Arr(items: seq<Json>)
    | Obj(members: seq<Member>)
    | Discarded

  /** A key is a given text. */
  predicate Spells(key: seq<byte>, name: string)
    decreases |name|
  {
    if name == "" then key == [] else key != [] && key[0] as int == name[0] as int && Spells(key[1..], name[1..])
  }

  predicate IsOneOf(key: seq<byte>, names: seq<string>) {
    names != [] && (Spells(key, names[0]) || IsOneOf(key, names[1..]))
  }

  predicate IsLinkKey(key: seq<byte>) {
    IsOneOf(key, ["@odata.id", "@odata.context", "Members@odata.nextLink", "Uri"])
  }

  predicate IsLink(m: Member) { IsLinkKey(m.key) && m.value.Str? }

  const DIV := "<div class=tab>"
  const END_DIV := "</div>"

  function Boxed(open: string, inner: string, close: string): string {
    open + (DIV + inner + END_DIV) + close
  }

  lemma BoxedAppend(out: string, open: string, inner: string, close: string)
    ensures out + open + DIV + inner + END_DIV + close == out + Boxed(open, inner, close)
  {
  }

  function Html(val: Json): string
    decreases val, 0
  {
    match val
    case Obj(members) =>
      if members == [] then "{}" else Boxed("{", HtmlMembers(members, 0), "}")
    case Arr(items) =>
      if items == [] then "[]" else Boxed("[", HtmlItems(items, 0), "]")
    case Str(s) => "\"" + Escaped(s) + "\""
    case Bool(b) => if b then "true" else "false"
    case Integer(n) => IntegerText(n)
    case Float(text) => text
    case Null => "null"
    case Discarded => "<discarded>"
  }

  function HtmlItems(items: seq<Json>, from: nat): string
    requires from <= |items|
    decreases items, |items| - from
  {
    if from == |items| then ""
    else
      Html(items[from]) + (if from + 1 < |items| then ",<br>" else "") + HtmlItems(items, from + 1)
  }

  function KeyText(m: Member): string { "&quot" + Escaped(m.key) + "&quot: " }

  function LinkOpen(m: Member): string {
    if IsLink(m) then "<a href=\"" + Escaped(m.value.s) + "\">" else ""
  }

  function LinkClose(m: Member): string { if IsLink(m) then "</a>" else "" }

  function MemberText(m: Member): string
    decreases m, 0
  {
    KeyText(m) + LinkOpen(m) + Html(m.value) + LinkClose(m)
  }

  function HtmlMembers(members: seq<Member>, from: nat): string
    requires from <= |members|
    decreases members, |members| - from
  {
    if from == |members| then ""
    else
      var m := members[from];
      MemberText(m) + ((if from + 1 < |members| then "," else "") + "<br>") + HtmlMembers(members, from + 1)
  }

  // ---------------------------------------------------------------------------------------------
  // The printer.

  predicate StringFits(s: seq<byte>) { Fits(Decoded(s), 0, BUFFER_SIZE) }

  /** Every string of a payload stays inside the escaper's buffer. */
  predicate AllFit(val: Json) {
    match val
    case Obj(members) => forall i | 0 <= i < |members| :: StringFits(members[i].key) && AllFit(members[i].value)
    case Arr(items) => forall i | 0 <= i < |items| :: AllFit(items[i])
    case Str(s) => StringFits(s)
    case _ => true
  }

  predicate MemberFits(m: Member) { StringFits(m.key) && AllFit(m.value) }

  predicate AllWellFormed(val: Json) {
    match val
    case Obj(members) => forall i | 0 <= i < |members| :: WellFormed(members[i].key) && AllWellFormed(members[i].value)
    case Arr(items) => forall i | 0 <= i < |items| :: AllWellFormed(items[i])
    case Str(s) => WellFormed(s)
    case _ => true
  }

  lemma {:induction false} WellFormedPayloadFits(val: Json)
    requires AllWellFormed(val)
    ensures AllFit(val)
  {
    match val
    case Obj(members) =>
      forall i | 0 <= i < |members| ensures StringFits(members[i].key) && AllFit(members[i].value) {
        WellFormedFits(members[i].key, 0);
        WellFormedPayloadFits(members[i].value);
      }
    case Arr(items) =>
      forall i | 0 <= i < |items| ensures AllFit(items[i]) {
        WellFormedPayloadFits(items[i]);
      }
    case Str(s) => WellFormedFits(s, 0);
    case _ =>
  }

  method PrintString(out: string, s: seq<byte>) returns (inBounds: bool, out': string)
    ensures inBounds == StringFits(s)
    ensures inBounds ==> out' == out + Escaped(s)
  {
    var buffer := new char[BUFFER_SIZE](_ => '\0');
    inBounds, out' := DumpEscaped(out, s, buffer);
  }

  method DumpStr(out: string, s: seq<byte>) returns (inBounds: bool, out': string)
    ensures inBounds == StringFits(s)
    ensures inBounds ==> out' == out + ("\"" + Escaped(s) + "\"")
  {
    out' := out + "\"";
    inBounds, out' := PrintString(out', s);
    out' := out' + "\"";
    Append3(out, "\"", Escaped(s), "\"");
  }

  method Dump(out: string, val: Json) returns (inBounds: bool, out': string)
    ensures inBounds == AllFit(val)
    ensures inBounds ==> out' == out + Html(val)
    decreases val, 1
  {
    inBounds, out' := true, out;
    match val
    case Obj(members) =>
      if members == [] {
        return true, out + "{}";
      }
      inBounds, out' := DumpObject(out', members);
    case Arr(items) =>
      if items == [] {
        return true, out + "[]";
      }
      inBounds, out' := DumpArray(out', items);
    case Str(s) =>
      inBounds, out' := DumpStr(out', s);
    case Bool(b) =>
      if b {
        out' := out' + "true";
      } else {
        out' := out' + "false";
      }
    case Integer(n) => out' := DumpInteger(out', n);
    case Float(text) => out' := out' + text;
    case Null => out' := out' + "null";
    case Discarded => out' := out' + "<discarded>";
  }

  method DumpObject(out: string, members: seq<Member>) returns (inBounds: bool, out': string)
    requires members != []
    ensures inBounds == AllFit(Obj(members))
    ensures inBounds ==> out' == out + Html(Obj(members))
    decreases members, 1
  {
    ghost var texts, fits := Description(members);
    out' := out + "{" + DIV;
    inBounds, out' := DumpMembers(out', members, texts, fits);
    out' := out' + END_DIV + "}";
    BoxedAppend(out, "{", texts[0], "}");
  }

  method DumpArray(out: string, items: seq<Json>) returns (inBounds: bool, out': string)
    requires items != []
    ensures inBounds == AllFit(Arr(items))
    ensures inBounds ==> out' == out + Html(Arr(items))
    decreases items, 1
  {
    ghost var texts, fits := DescriptionOfItems(items);
    out' := out + "[" + DIV;
    inBounds, out' := DumpItems(out', items, texts, fits);
    out' := out' + END_DIV + "]";
    BoxedAppend(out, "[", texts[0], "]");
  }

  /** texts[i] is what items from i on print as; fits[i] says whether item i stays in the buffer. */
  ghost predicate DescribesItems(items: seq<Json>, texts: seq<string>, fits: seq<bool>) {
    && |texts| == |items| + 1
    && |fits| == |items|
    && (forall i {:trigger HtmlItems(items, i)} | 0 <= i <= |items| :: texts[i] == HtmlItems(items, i))
    && (forall i {:trigger AllFit(items[i])} | 0 <= i < |items| :: fits[i] == AllFit(items[i]))
  }

  lemma DescriptionOfItems(items: seq<Json>) returns (texts: seq<string>, fits: seq<bool>)
    ensures DescribesItems(items, texts, fits)
    ensures texts[0] == HtmlItems(items, 0)
    ensures texts[|items|] == ""
    ensures AllFit(Arr(items)) == forall i | 0 <= i < |fits| :: fits[i]
  {
    texts := seq(|items| + 1, i requires 0 <= i <= |items| => HtmlItems(items, i));
    fits := seq(|items|, i requires 0 <= i < |items| => AllFit(items[i]));
    assert forall i | 0 <= i < |items| :: fits[i] == AllFit(items[i]);
  }

  method DumpItems(out: string, items: seq<Json>, ghost texts: seq<string>, ghost fits: seq<bool>)
    returns (inBounds: bool, out': string)
    requires items != [] && DescribesItems(items, texts, fits)
    ensures inBounds == forall i | 0 <= i < |fits| :: fits[i]
    ensures inBounds ==> out' + texts[|items|] == out + texts[0]
    decreases items, 0
  {
    inBounds, out' := true, out;
    var i := 0;
    while i < |items|
      invariant i <= |items|
      invariant forall j | 0 <= j < i :: fits[j]
      invariant out' + texts[i] == out + texts[0]
    {
      inBounds, out' := DumpItem(out', items, i, texts, fits);
      if !inBounds {
        return;
      }
      i := i + 1;
    }
  }

  /** One turn of the loop above. */
  method DumpItem(out: string, items: seq<Json>, i: nat, ghost texts: seq<string>, ghost fits: seq<bool>)
    returns (inBounds: bool, out': string)
    requires i < |items| && DescribesItems(items, texts, fits)
    ensures inBounds == fits[i]
    ensures inBounds ==> out' + texts[i + 1] == out + texts[i]
    decreases items[i], 2
  {
    inBounds, out' := Dump(out, items[i]);
    if inBounds {
      ItemAppend(out, items, i);
      if i + 1 < |items| {
        out' := out' + ",<br>";
      }
    }
  }

  lemma ItemAppend(out: string, items: seq<Json>, i: nat)
    requires i < |items|
    ensures i + 1 < |items| ==> out + Html(items[i]) + ",<br>" + HtmlItems(items, i + 1) == out + HtmlItems(items, i)
    ensures i + 1 == |items| ==> out + Html(items[i]) + HtmlItems(items, i + 1) == out + HtmlItems(items, i)
  {
    var text, rest := Html(items[i]), HtmlItems(items, i + 1);
    Append3(out, text, if i + 1 < |items| then ",<br>" else "", rest);
    assert text + "" + rest == text + rest;
  }

  /** texts[i] is what members from i on print as; fits[i] says whether member i stays in the buffer. */
  ghost predicate Describes(members: seq<Member>, texts: seq<string>, fits: seq<bool>) {
    && |texts| == |members| + 1
    && |fits| == |members|
    && (forall i {:trigger HtmlMembers(members, i)} | 0 <= i <= |members| :: texts[i] == HtmlMembers(members, i))
    && (forall i {:trigger MemberFits(members[i])} | 0 <= i < |members| :: fits[i] == MemberFits(members[i]))
  }

  lemma Description(members: seq<Member>) returns (texts: seq<string>, fits: seq<bool>)
    ensures Describes(members, texts, fits)
    ensures texts[0] == HtmlMembers(members, 0)
    ensures texts[|members|] == ""
    ensures AllFit(Obj(members)) == forall i | 0 <= i < |fits| :: fits[i]
  {
    texts := seq(|members| + 1, i requires 0 <= i <= |members| => HtmlMembers(members, i));
    fits := seq(|members|, i requires 0 <= i < |members| => MemberFits(members[i]));
    assert forall i | 0 <= i < |members| :: fits[i] == MemberFits(members[i]);
  }

  method DumpMembers(out: string, members: seq<Member>, ghost texts: seq<string>, ghost fits: seq<bool>)
    returns (inBounds: bool, out': string)
    requires members != [] && Describes(members, texts, fits)
    ensures inBounds == forall i | 0 <= i < |fits| :: fits[i]
    ensures inBounds ==> out' + texts[|members|] == out + texts[0]
    decreases members, 0
  {
    inBounds, out' := true, out;
    var i := 0;
    while i < |members|
      invariant i <= |members|
      invariant forall j | 0 <= j < i :: fits[j]
      invariant out' + texts[i] == out + texts[0]
    {
      inBounds, out' := DumpEntry(out', members, i, texts, fits);
      if !inBounds {
        return;
      }
      i := i + 1;
    }
  }

  /** One turn of the loop above. */
  method DumpEntry(out: string, members: seq<Member>, i: nat, ghost texts: seq<string>, ghost fits: seq<bool>)
    returns (inBounds: bool, out': string)
    requires i < |members| && Describes(members, texts, fits)
    ensures inBounds == fits[i]
    ensures inBounds ==> out' + texts[i + 1] == out + texts[i]
    decreases members[i], 2
  {
    inBounds, out' := DumpMember(out, members[i]);
    if inBounds {
      EntryAppend(out, members, i);
      if i + 1 < |members| {
        out' := out' + ",";
      }
      out' := out' + "<br>";
    }
  }

  lemma EntryAppend(out: string, members: seq<Member>, i: nat)
    requires i < |members|
    ensures out + MemberText(members[i]) + (if i + 1 < |members| then "," else "") + "<br>" + HtmlMembers(members, i + 1)
         == out + HtmlMembers(members, i)
  {
    var text, rest := MemberText(members[i]), HtmlMembers(members, i + 1);
    if i + 1 < |members| {
      Append4(out, text, ",", "<br>", rest);
    } else {
      Append4(out, text, "", "<br>", rest);
    }
  }

  lemma Append4(out: string, a: string, b: string, c: string, d: string)
    ensures out + a + b + c + d == out + (a + (b + c) + d)
    ensures out + a + b + c + d == out + (a + b + c + d)
  {
  }

  method DumpMember(out: string, m: Member) returns (inBounds: bool, out': string)
    ensures inBounds == MemberFits(m)
    ensures inBounds ==> out' == out + MemberText(m)
    decreases m, 1
  {
    inBounds, out' := DumpKey(out, m);
    if !inBounds {
      return;
    }
    inBounds, out' := DumpLinked(out', m);
    Append4(out, KeyText(m), LinkOpen(m), Html(m.value), LinkClose(m));
  }

  /** The value, inside a link tag if it is a link. */
  method DumpLinked(out: string, m: Member) returns (inBounds: bool, out': string)
    ensures inBounds == AllFit(m.value)
    ensures inBounds ==> out' == out + LinkOpen(m) + Html(m.value) + LinkClose(m)
    decreases m, 0
  {
    inBounds, out' := true, out;
    var inATag := false;
    if IsLinkKey(m.key) {
      if m.value.Str? {
        inATag := true;
        inBounds, out' := DumpLinkOpen(out', m);
        if !inBounds {
          return;
        }
      }
    }
    inBounds, out' := Dump(out', m.value);
    if inATag {
      out' := out' + "</a>";
    }
  }

  method DumpKey(out: string, m: Member) returns (inBounds: bool, out': string)
    ensures inBounds == StringFits(m.key)
    ensures inBounds ==> out' == out + KeyText(m)
  {
    out' := out + "&quot";
    inBounds, out' := PrintString(out', m.key);
    out' := out' + "&quot: ";
    Append3(out, "&quot", Escaped(m.key), "&quot: ");
  }

  method DumpLinkOpen(out: string, m: Member) returns (inBounds: bool, out': string)
    requires IsLink(m)
    ensures inBounds == StringFits(m.value.s)
    ensures inBounds ==> out' == out + LinkOpen(m)
  {
    out' := out + "<a href=\"";
    inBounds, out' := PrintString(out', m.value.s);
    out' := out' + "\">";
    Append3(out, "<a href=\"", Escaped(m.value.s), "\">");
  }

  lemma Append3(out: string, a: string, b: string, c: string)
    ensures out + a + b + c == out + (a + b + c)
  {
  }
}
