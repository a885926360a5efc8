/** `ws_format_uplink_data`: a text as an array of decimal numbers in a JSON envelope. */
module Uplink {
  import opened Bytes
  import opened Json
  import opened Numbers
  import opened Floats
  import opened Strings
  import opened Parser
  import opened RoundTrip
  import opened Memory
  import opened PrintText

  const CMD_CODE: Text := [99, 109, 100, 67, 111, 100, 101] // cmdCode
  const CMD_MERGE: Text := [99, 109, 100, 77, 101, 114, 103, 101] // cmdMerge
  const DATA: Text := [100, 97, 116, 97] // data

  /** `CMD_MES_PARAM`. */
  const CMD_MES_PARAM: int := 65537

  // ----- What is written ---------------------------------------------------

  /** The value of a `char`: C leaves it to the implementation whether the type is signed. */
  function CharValue(b: byte, signed: bool): (r: int)
    ensures r % 256 == b && if signed then -128 <= r < 128 else 0 <= r
  {
    if signed && b >= 128 then b - 256 else b
  }

  /** `"%d,"` of every byte. */
  function Listed(text: Text, signed: bool): Text {
    if text == [] then [] else PrintInt(CharValue(text[0], signed)) + [COMMA] + Listed(text[1..], signed)
  }

  function Field(name: Text): Text {
    [QUOTE] + name + [QUOTE, COLON]
  }

  /** What the first `sprintf` writes. */
  function Header(cmdMerge: int): (r: Text)
    ensures |r| > 0
  {
    [LBRACE] + (Field(CMD_CODE) + PrintInt(1)) + [COMMA]
    + (Field(CMD_MERGE) + PrintInt(cmdMerge)) + [COMMA] + Field(DATA) + [LBRACKET]
  }

  /** The closing brackets go over the last byte written so far. */
  function UplinkText(text: Text, cmdMerge: int, signed: bool): Text {
    var all := Header(cmdMerge) + Listed(text, signed);
    all[..|all| - 1] + [RBRACKET, RBRACE]
  }

  // ----- What it means -----------------------------------------------------

  ghost function Chars(text: Text, signed: bool): (r: seq<Json>)
    ensures |r| == |text|
  {
    if text == [] then [] else [Number(CharValue(text[0], signed) as real)] + Chars(text[1..], signed)
  }

  ghost function Envelope(text: Text, cmdMerge: int, signed: bool): Json {
    Object([Member(CMD_CODE, Number(1.0)), Member(CMD_MERGE, Number(cmdMerge as real)),
            Member(DATA, Array(Chars(text, signed)))])
  }

  /** The bytes that a receiver reads from the data array: its entries modulo 256. */
  ghost function Payload(items: seq<Json>): Text {
    if items == [] then []
    else [if items[0].Number? then items[0].value.Floor % 256 else 0] + Payload(items[1..])
  }

  lemma IntIsFinite(n: int)
    requires INT_MIN <= n <= INT_MAX
    ensures IsFinite(n as real)
  {
    IntIsShort(n);
    hide Decimal;
  }

  /** Integers are printed with all their digits. */
  lemma IntIsPrinted(n: int)
    requires INT_MIN <= n <= INT_MAX
    ensures IsFinite(n as real) && NumberSurvives(n as real) && PrintNumber(n as real) == PrintInt(n)
  {
    IntIsFinite(n);
    assert Truncate(n as real) == n && FormatOf(n as real) == Lld;
    hide IsFinite, PrintInt, Magnitude, Mantissa, Scientific, DoubleScale, Truncate, FormatBy;
  }

  lemma {:induction false} CharsArePrintable(text: Text, signed: bool)
    ensures AllPrintable(Chars(text, signed)) && AllSurvive(Chars(text, signed)) && Payload(Chars(text, signed)) == text
    decreases |text|
  {
    if text != [] {
      IntIsPrinted(CharValue(text[0], signed));
      hide PrintNumber, IsFinite, NumberSurvives;
      var items := Chars(text, signed);
      assert items[1..] == Chars(text[1..], signed);
      CharsArePrintable(text[1..], signed);
      assert text == [text[0]] + text[1..];
    }
  }

  /** The list is the items of the array and one more comma. */
  lemma {:induction false} ListedIsItems(text: Text, signed: bool, depth: nat)
    requires text != [] && AllPrintable(Chars(text, signed))
    ensures Listed(text, signed) == PrintItems(Chars(text, signed), depth, false) + [COMMA]
    decreases |text|
  {
    hide PrintInt, PrintNumber;
    IntIsPrinted(CharValue(text[0], signed));
    var items := Chars(text, signed);
    assert items[1..] == Chars(text[1..], signed);
    if |text| > 1 {
      ListedIsItems(text[1..], signed, depth);
      Assoc(Print(items[0], depth, false) + [COMMA], PrintItems(items[1..], depth, false), [COMMA]);
    } else {
      assert text[1..] == [];
    }
  }

  /** Names without special characters are printed as they are. */
  ghost predicate Plain(s: Text) {
    forall k :: 0 <= k < |s| ==> s[k] > 31 && s[k] != QUOTE && s[k] != BACKSLASH
  }

  lemma {:induction false} EscapePlain(s: Text)
    requires Plain(s)
    ensures Escape(s) == s && PrintString(s) + [COLON] == Field(s)
    decreases |s|
  {
    if s != [] {
      EscapePlain(s[1..]);
    }
  }

  /** With at least one byte the uplink text is the unformatted print of the envelope. */
  lemma UplinkIsPrinted(text: Text, cmdMerge: int, signed: bool)
    requires text != [] && INT_MIN <= cmdMerge <= INT_MAX
    ensures Printable(Envelope(text, cmdMerge, signed))
    ensures UplinkText(text, cmdMerge, signed) == Print(Envelope(text, cmdMerge, signed), 0, false)
  {
    CharsArePrintable(text, signed);
    ListedIsItems(text, signed, 2);
    PrintEnvelope(CMD_CODE, 1, CMD_MERGE, cmdMerge, DATA, Chars(text, signed));
    hide Chars, Listed, PrintInt, PrintItems, Field, Print;
    Brackets(Field(CMD_CODE) + PrintInt(1), Field(CMD_MERGE) + PrintInt(cmdMerge), Field(DATA),
             PrintItems(Chars(text, signed), 2, false));
  }

  /** The print of two numbers and an array under plain names. */
  lemma PrintEnvelope(n1: Text, v1: int, n2: Text, v2: int, n3: Text, items: seq<Json>)
    requires Plain(n1) && Plain(n2) && Plain(n3) && items != [] && AllPrintable(items)
    requires INT_MIN <= v1 <= INT_MAX && INT_MIN <= v2 <= INT_MAX
    ensures var j := Object([Member(n1, Number(v1 as real)), Member(n2, Number(v2 as real)), Member(n3, Array(items))]);
            && Printable(j)
            && Print(j, 0, false)
               == [LBRACE] + (Field(n1) + PrintInt(v1) + [COMMA] + (Field(n2) + PrintInt(v2) + [COMMA]
                  + (Field(n3) + ([LBRACKET] + PrintItems(items, 2, false) + [RBRACKET])))) + [RBRACE]
  {
    EscapePlain(n1);
    EscapePlain(n2);
    EscapePlain(n3);
    IntIsPrinted(v1);
    IntIsPrinted(v2);
    hide PrintNumber, IsFinite;
    ThreeMembers(Member(n1, Number(v1 as real)), Member(n2, Number(v2 as real)), Member(n3, Array(items)));
    hide Escape, PrintString, PrintMembers, Field, PrintItems, PrintInt, AllPrintable;
  }

  lemma Brackets(a: Text, b: Text, c: Text, body: Text)
    ensures var all := [LBRACE] + a + [COMMA] + b + [COMMA] + c + [LBRACKET] + (body + [COMMA]);
            all[..|all| - 1] + [RBRACKET, RBRACE]
            == [LBRACE] + (a + [COMMA] + (b + [COMMA] + (c + ([LBRACKET] + body + [RBRACKET])))) + [RBRACE]
  {
  }

  lemma ThreeMembers(a: Member, b: Member, c: Member)
    requires NulFree(a.name) && NulFree(b.name) && NulFree(c.name)
    requires Printable(a.value) && Printable(b.value) && Printable(c.value)
    ensures MembersPrintable([a, b, c])
    ensures Print(Object([a, b, c]), 0, false)
         == [LBRACE] + (Unformatted(a) + [COMMA] + (Unformatted(b) + [COMMA] + Unformatted(c))) + [RBRACE]
  {
    hide NulFree, PrintString;
    assert [a, b, c][1..] == [b, c] && [b, c][1..] == [c];
    OneMember(a);
    OneMember(b);
    OneMember(c);
    assert MembersPrintable([c]);
    assert MembersPrintable([b, c]);
    assert PrintMembers([c], 1, false) == Unformatted(c) + [];
    assert PrintMembers([b, c], 1, false) == Unformatted(b) + [COMMA] + PrintMembers([c], 1, false);
    assert [LBRACE] + [] == [LBRACE] && [] + [RBRACE] == [RBRACE];
  }

  lemma OneMember(m: Member)
    requires NulFree(m.name) && Printable(m.value)
    ensures PrintMember(m, 1, false) == Unformatted(m)
  {
    hide Print;
    assert [] + PrintString(m.name) == PrintString(m.name) && [COLON] + [] == [COLON];
  }

  ghost function Unformatted(m: Member): Text
    requires NulFree(m.name) && Printable(m.value)
  {
    PrintString(m.name) + [COLON] + Print(m.value, 1, false)
  }

  // ----- Main results ------------------------------------------------------

  /** Without a byte the closing bracket goes over the opening one, and the text is not JSON. */
  lemma EmptyIsNotJson(cmdMerge: int, signed: bool, requireNullTerminated: bool)
    requires INT_MIN <= cmdMerge <= INT_MAX
    ensures ParseWithOpts(UplinkText([], cmdMerge, signed), requireNullTerminated).Error?
  {
    EmptyText(Field(CMD_CODE) + PrintInt(1), Field(CMD_MERGE) + PrintInt(cmdMerge), Field(DATA));
    hide PrintInt, Field, ParseValue;
    BrokenText(CMD_CODE, 1, CMD_MERGE, cmdMerge, DATA, UplinkText([], cmdMerge, signed));
  }

  lemma BrokenText(n1: Text, v1: int, n2: Text, v2: int, n3: Text, s: Text)
    requires Plain(n1) && Plain(n2) && Plain(n3) && INT_MIN <= v1 <= INT_MAX && INT_MIN <= v2 <= INT_MAX
    requires s == [LBRACE] + (Field(n1) + PrintInt(v1) + [COMMA]
                  + (Field(n2) + PrintInt(v2) + [COMMA] + (Field(n3) + [RBRACKET, RBRACE])))
    ensures ParseValue(s, 0).Error? && Skip(s, 0) == 0
  {
    NumberMember(n1, v1);
    NumberMember(n2, v2);
    hide PrintInt, Field, ParseValue, PrintMember;
    BrokenObject(Member(n1, Number(v1 as real)), Member(n2, Number(v2 as real)), n3, s);
  }

  lemma EmptyText(a: Text, b: Text, c: Text)
    ensures var all := [LBRACE] + a + [COMMA] + b + [COMMA] + c + [LBRACKET] + [];
            all[..|all| - 1] + [RBRACKET, RBRACE]
            == [LBRACE] + (a + [COMMA] + (b + [COMMA] + (c + [RBRACKET, RBRACE])))
  {
  }

  /** A number under a plain name. */
  lemma NumberMember(name: Text, v: int)
    requires Plain(name) && INT_MIN <= v <= INT_MAX
    ensures Printable(Number(v as real))
    ensures PrintMember(Member(name, Number(v as real)), 1, false) == Field(name) + PrintInt(v)
  {
    EscapePlain(name);
    IntIsPrinted(v);
    OneMember(Member(name, Number(v as real)));
    hide PrintInt, PrintMember, Escape, PrintNumber;
  }

  /** Two numbers, and a name whose value starts with a closing bracket. */
  lemma BrokenObject(a: Member, b: Member, name: Text, s: Text)
    requires NulFree(a.name) && NulFree(b.name) && Plain(name) && Printable(a.value) && Printable(b.value)
    requires a.value.Number? && b.value.Number?
    requires s == [LBRACE] + (PrintMember(a, 1, false) + [COMMA]
                  + (PrintMember(b, 1, false) + [COMMA] + (Field(name) + [RBRACKET, RBRACE])))
    ensures ParseValue(s, 0).Error? && Skip(s, 0) == 0
  {
    hide NulFree, Plain, Printable, PrintMember, Field, Occurs, Skip, ParseMembers, ParseValue;
    SplitBroken(PrintMember(a, 1, false), PrintMember(b, 1, false), Field(name), s);
    var i := 1 + |PrintMember(a, 1, false)| + 1;
    BadMember(name, s, i + |PrintMember(b, 1, false)| + 1);
    FailLater(b, s, i);
    FailLater(a, s, 1);
    FirstOfMember(a, 1, false, s, 1);
    ErrorInside(s);
  }

  lemma ErrorInside(s: Text)
    requires Occurs([LBRACE], s, 0) && At(s, Skip(s, 1)) == QUOTE && ParseMembers(s, 1).Error?
    ensures ParseValue(s, 0).Error? && Skip(s, 0) == 0
  {
    OccursFirst([LBRACE], s, 0);
    SkipNothing(s, 0);
    NoWords(s, 0);
    hide ParseMembers, Skip;
  }

  lemma SplitBroken(a: Text, b: Text, c: Text, s: Text)
    requires s == [LBRACE] + (a + [COMMA] + (b + [COMMA] + (c + [RBRACKET, RBRACE])))
    ensures var i := 1 + |a| + 1;
            var k := i + |b| + 1;
            && Occurs([LBRACE], s, 0) && Occurs(a, s, 1) && Occurs([COMMA], s, 1 + |a|)
            && Occurs(b, s, i) && Occurs([COMMA], s, i + |b|) && Occurs(c, s, k)
              && Occurs([RBRACKET, RBRACE], s, k + |c|)
  {
    OccursWhole(s);
    hide Occurs;
    OccursSplit([LBRACE], a + [COMMA] + (b + [COMMA] + (c + [RBRACKET, RBRACE])), s, 0);
    OccursSplit3(a, [COMMA], b + [COMMA] + (c + [RBRACKET, RBRACE]), s, 1);
    OccursSplit3(b, [COMMA], c + [RBRACKET, RBRACE], s, 1 + |a| + 1);
    OccursSplit(c, [RBRACKET, RBRACE], s, 1 + |a| + 1 + |b| + 1);
  }

  /** A member is read, and what follows its comma is an error. */
  lemma FailLater(m: Member, s: Text, i: nat)
    requires NulFree(m.name) && Printable(m.value) && m.value.Number? && Occurs(PrintMember(m, 1, false), s, i)
    requires Occurs([COMMA], s, i + |PrintMember(m, 1, false)|)
    requires ParseMembers(s, i + |PrintMember(m, 1, false)| + 1).Error?
    ensures ParseMembers(s, i).Error?
  {
    hide PrintMember, Printable, ParseMember, ParseMembers, Print, Occurs, NulFree;
    var n := i + |PrintMember(m, 1, false)|;
    OccursFirst([COMMA], s, n);
    SkipNothing(s, n);
    hide Skip;
    ReadMember(m, 1, false, s, i);
    ErrorAfter(s, i, RereadMember(m), n);
  }

  lemma ErrorAfter(s: Text, i: nat, m: Member, n: nat)
    requires ParseMember(s, i) == Ok(m, n) && Skip(s, n) == n && At(s, n) == COMMA && ParseMembers(s, n + 1).Error?
    ensures ParseMembers(s, i).Error?
  {
    hide ParseMember, Skip;
  }

  lemma PlainIsNulFree(name: Text)
    requires Plain(name)
    ensures NulFree(name)
  {
  }

  lemma BadValue(s: Text, i: nat)
    requires At(s, i) == RBRACKET
    ensures ParseValue(s, i).Error?
  {
    NoWords(s, i);
    hide StartsWith;
  }

  lemma NoMember(s: Text, i: nat, name: Text, n: nat)
    requires Skip(s, i) == i && ParseString(s, i) == Ok(name, n) && Skip(s, n) == n && At(s, n) == COLON
    requires Skip(s, n + 1) == n + 1 && ParseValue(s, n + 1).Error?
    ensures ParseMembers(s, i).Error?
  {
    hide Skip, ParseString, ParseValue;
    assert ParseMember(s, i).Error?;
  }

  lemma NameOfField(name: Text, s: Text, i: nat)
    requires Plain(name) && Occurs(Field(name), s, i)
    ensures var n := i + |PrintString(name)|;
            && i + |Field(name)| == n + 1 && ParseString(s, i) == Ok(name, n)
            && Skip(s, i) == i && At(s, n) == COLON && Skip(s, n) == n
  {
    EscapePlain(name);
    hide Escape, Field, Occurs, Skip, ParseString, Plain, NulFree;
    var n := i + |PrintString(name)|;
    OccursSplit(PrintString(name), [COLON], s, i);
    OccursFirst(PrintString(name), s, i);
    OccursFirst([COLON], s, n);
    PlainIsNulFree(name);
    ReadString(name, s, i);
    SkipNothing(s, i);
    SkipNothing(s, n);
  }

  lemma BadMember(name: Text, s: Text, i: nat)
    requires Plain(name) && Occurs(Field(name), s, i) && Occurs([RBRACKET, RBRACE], s, i + |Field(name)|)
    ensures ParseMembers(s, i).Error?
  {
    hide Field, PrintString, Occurs, Skip, ParseMembers, ParseMember, ParseValue, ParseString, Plain;
    NameOfField(name, s, i);
    var n := i + |PrintString(name)|;
    OccursFirst([RBRACKET, RBRACE], s, n + 1);
    SkipNothing(s, n + 1);
    BadValue(s, n + 1);
    NoMember(s, i, name, n);
  }

  lemma EnvelopeSurvives(text: Text, cmdMerge: int, signed: bool)
    requires INT_MIN <= cmdMerge <= INT_MAX
    ensures Survives(Envelope(text, cmdMerge, signed))
  {
    CharsArePrintable(text, signed);
    IntIsPrinted(1);
    IntIsPrinted(cmdMerge);
    hide NumberSurvives, Chars;
    var a, b := Member(CMD_CODE, Number(1.0)), Member(CMD_MERGE, Number(cmdMerge as real));
    var c := Member(DATA, Array(Chars(text, signed)));
    assert [a, b, c][1..] == [b, c] && [b, c][1..] == [c];
    assert Survives(a.value) && Survives(b.value) && Survives(c.value);
    hide Survives;
    assert MembersSurvive([c]);
    assert MembersSurvive([b, c]);
    assert MembersSurvive([a, b, c]);
  }

  /** The uplink text of a string parses exactly when the string is not empty. */
  lemma UplinkParses(text: Text, cmdMerge: int, signed: bool, requireNullTerminated: bool)
    requires INT_MIN <= cmdMerge <= INT_MAX
    ensures var s := UplinkText(text, cmdMerge, signed);
            && (text != [] <==> ParseWithOpts(s, requireNullTerminated).Ok?)
            && (text != [] ==> ParseWithOpts(s, requireNullTerminated) == Ok(Envelope(text, cmdMerge, signed), |s|))
  {
    if text == [] {
      EmptyIsNotJson(cmdMerge, signed, requireNullTerminated);
    } else {
      UplinkIsPrinted(text, cmdMerge, signed);
      EnvelopeSurvives(text, cmdMerge, signed);
      PrintThenParse(Envelope(text, cmdMerge, signed), false, requireNullTerminated);
    }
  }

  lemma UplinkNames()
    ensures CMD_CODE == Ascii("cmdCode") && CMD_MERGE == Ascii("cmdMerge") && DATA == Ascii("data")
  {
  }

  lemma {:induction false} CharAt(text: Text, signed: bool, k: nat)
    requires k < |text|
    ensures Chars(text, signed)[k] == Number(CharValue(text[k], signed) as real)
    decreases k
  {
    if k > 0 {
      CharAt(text[1..], signed, k - 1);
    }
  }

  /** A value of `char` is the byte, or the byte less 256. */
  lemma CharIs(b: byte, signed: bool)
    ensures CharValue(b, signed) as real == b as real - if signed && b > 127 then 256.0 else 0.0
  {
  }

  lemma EnvelopeSays(text: Text, cmdMerge: int, signed: bool)
    ensures var j := Envelope(text, cmdMerge, signed);
            && Under(j, "cmdCode") == Number(1.0) && Under(j, "cmdMerge") == Number(cmdMerge as real)
            && Under(j, "data") == Array(Chars(text, signed))
  {
    UplinkNames();
    var ms := Envelope(text, cmdMerge, signed).members;
    UnderAt(ms, 0);
    UnderAt(ms, 1);
    UnderAt(ms, 2);
  }

  /** The receiver looks up the command, the given tag and the bytes in their order, each of them as it is,
      or less 256 if `char` is signed and the byte is above 127; modulo 256 they are the string. */
  lemma UplinkDecodes(text: Text, cmdMerge: int, signed: bool)
    requires INT_MIN <= cmdMerge <= INT_MAX && text != []
    ensures var r := ParseWithOpts(UplinkText(text, cmdMerge, signed), true);
            && r.Ok? && Under(r.value, "cmdCode") == Number(1.0)
            && Under(r.value, "cmdMerge") == Number(cmdMerge as real)
            && Under(r.value, "data").Array?
            && var items := Under(r.value, "data").items;
               && |items| == |text| && Payload(items) == text
               && forall k :: 0 <= k < |text| ==>
                    items[k] == Number(text[k] as real - if signed && text[k] > 127 then 256.0 else 0.0)
  {
    UplinkParses(text, cmdMerge, signed, true);
    CharsArePrintable(text, signed);
    EnvelopeSays(text, cmdMerge, signed);
    forall k | 0 <= k < |text|
      ensures Chars(text, signed)[k] == Number(text[k] as real - if signed && text[k] > 127 then 256.0 else 0.0)
    {
      CharAt(text, signed, k);
      CharIs(text[k], signed);
    }
    hide Envelope, UplinkText, Chars, CharValue, Payload, Under;
  }

  lemma {:induction false} ListedIsShort(text: Text, signed: bool)
    ensures |Listed(text, signed)| <= 5 * |text|
    ensures !signed ==> |Listed(text, signed)| <= 4 * |text|
    decreases |text|
  {
    if text != [] {
      ByteIsShort(CharValue(text[0], signed));
      ListedIsShort(text[1..], signed);
    }
  }

  lemma ByteIsShort(n: int)
    requires -128 <= n < 256
    ensures |PrintInt(n)| <= if n < 0 then 4 else 3
  {
    assert Pow10(3) == 1000;
    DecimalIsShort(if n < 0 then -n else n, 3);
  }

  /** With a tag of five digits, the bound that callers rely on for the size of their buffer. */
  lemma UplinkIsShort(text: Text, cmdMerge: int, signed: bool)
    requires 0 <= cmdMerge < 100000
    ensures |UplinkText(text, cmdMerge, signed)| <= 39 + 5 * |text|
  {
    ListedIsShort(text, signed);
    assert Pow10(5) == 100000;
    DecimalIsShort(cmdMerge, 5);
  }

  lemma ListedFrom(text: Text, i: nat, signed: bool)
    requires i < |text|
    ensures Listed(text[i..], signed) == PrintInt(CharValue(text[i], signed)) + [COMMA] + Listed(text[i + 1..], signed)
  {
    assert text[i..][1..] == text[i + 1..];
  }

  lemma NothingListed(rest: Text, signed: bool)
    requires rest == []
    ensures Listed(rest, signed) == []
  {
  }

  /** `ws_format_uplink_data`. */
  method FormatUplinkData(buf: array?<byte>, jdata: array?<byte>, cmdMerge: int, signed: bool, ghost text: Text)
    returns (r: int)
    requires INT_MIN <= cmdMerge <= INT_MAX
    requires buf != null && jdata != null ==>
               buf != jdata && Holds(jdata, text) && |UplinkText(text, cmdMerge, signed)| < buf.Length
    modifies buf
    ensures r == if buf == null || jdata == null then -1 else 0
    ensures r != 0 && buf != null ==> buf[..] == old(buf[..])
    ensures r == 0 ==> Holds(buf, UplinkText(text, cmdMerge, signed))
  {
    if buf == null || jdata == null {
      return -1;
    }
    Encode(buf, jdata, cmdMerge, signed, text);
    return 0;
  }

  method Encode(buf: array<byte>, jdata: array<byte>, cmdMerge: int, signed: bool, ghost text: Text)
    requires buf != jdata && Holds(jdata, text) && |UplinkText(text, cmdMerge, signed)| < buf.Length
    modifies buf
    ensures Holds(buf, UplinkText(text, cmdMerge, signed))
  {
    hide Header, PrintInt, CharValue, Listed, Holds;
    UplinkIsNulFree(text, cmdMerge, signed);
    ghost var all := Header(cmdMerge) + Listed(text, signed);
    var ps := Sprint(buf, 0, Header(cmdMerge));
    var i := 0;
    HeldByte(jdata, text, 0);
    assert text[0..] == text;
    while jdata[i] != 0
      invariant i <= |text| < jdata.Length && Holds(jdata, text)
      invariant 0 < ps <= buf.Length && |all| + 1 < buf.Length && buf[..ps] + Listed(text[i..], signed) == all
      decreases |text| - i
    {
      HeldByte(jdata, text, i);
      ListedFrom(text, i, signed);
      ps := PutEntry(buf, ps, jdata[i], signed, Listed(text[i + 1..], signed), all);
      i := i + 1;
    }
    HeldByte(jdata, text, i);
    NothingListed(text[i..], signed);
    CloseList(buf, ps, all);
  }

  /** One entry of the list; `rest` is the text of the entries after it. */
  method PutEntry(buf: array<byte>, at: nat, b: byte, signed: bool, ghost rest: Text, ghost all: Text) returns (ps: nat)
    requires at <= buf.Length && |all| < buf.Length
    requires buf[..at] + (PrintInt(CharValue(b, signed)) + [COMMA] + rest) == all
    modifies buf
    ensures at < ps <= buf.Length && buf[..ps] + rest == all
  {
    hide PrintInt;
    ghost var before := buf[..at];
    ps := Sprint(buf, at, PrintInt(CharValue(b, signed)) + [COMMA]);
    Assoc(before, PrintInt(CharValue(b, signed)) + [COMMA], rest);
  }

  /** The closing brackets over the last comma, or over the opening bracket. */
  method CloseList(buf: array<byte>, ps: nat, ghost all: Text)
    requires 0 < ps <= buf.Length && buf[..ps] + [] == all && |all| + 1 < buf.Length
    requires NulFree(all[..|all| - 1] + [RBRACKET, RBRACE])
    modifies buf
    ensures Holds(buf, all[..|all| - 1] + [RBRACKET, RBRACE])
  {
    assert buf[..ps - 1] == all[..ps - 1];
    var end := Sprint(buf, ps - 1, [RBRACKET, RBRACE]);
  }

  lemma IntIsNulFree(n: int)
    ensures NulFree(PrintInt(n))
  {
  }

  lemma {:induction false} ListedIsNulFree(text: Text, signed: bool)
    ensures NulFree(Listed(text, signed))
    decreases |text|
  {
    if text != [] {
      var v := CharValue(text[0], signed);
      IntIsNulFree(v);
      ListedIsNulFree(text[1..], signed);
    }
  }

  lemma UplinkIsNulFree(text: Text, cmdMerge: int, signed: bool)
    ensures NulFree(UplinkText(text, cmdMerge, signed))
  {
    ListedIsNulFree(text, signed);
    IntIsNulFree(cmdMerge);
    HeaderIsNulFree(Field(CMD_CODE) + PrintInt(1), Field(CMD_MERGE) + PrintInt(cmdMerge), Field(DATA));
    hide Decimal, Listed, Header;
    NulFreeJoin(Header(cmdMerge), Listed(text, signed));
    NulFreeEnd(Header(cmdMerge) + Listed(text, signed));
  }

  lemma HeaderIsNulFree(a: Text, b: Text, c: Text)
    requires NulFree(a) && NulFree(b) && NulFree(c)
    ensures NulFree([LBRACE] + a + [COMMA] + b + [COMMA] + c + [LBRACKET])
  {
  }

  lemma NulFreeEnd(all: Text)
    requires all != [] && NulFree(all)
    ensures NulFree(all[..|all| - 1] + [RBRACKET, RBRACE])
  {
  }
}
