/** JSON values, and the texts that `print_value` gives for them. */
module Json {
  import opened Bytes
  import opened Doubles
  import opened Floats
  import opened Strings

  datatype Json =
    | Null
    | False
    | True
    | Number(value: real)
    | String(text: Text)
    | Array(items: seq<Json>)
    | Object(members: seq<Member>)

  datatype Member = Member(name: Text, value: Json)

  /** The values that a C caller can build: NUL-free strings and names, and finite numbers. */
  ghost predicate Printable(j: Json) {
    match j
    case Number(v) => IsFinite(v)
    case String(t) => NulFree(t)
    case Array(items) => AllPrintable(items)
    case Object(members) => MembersPrintable(members)
    case _ => true
  }

  ghost predicate AllPrintable(items: seq<Json>) {
    items != [] ==> Printable(items[0]) && AllPrintable(items[1..])
  }

  ghost predicate MembersPrintable(members: seq<Member>) {
    members != [] ==>
      NulFree(members[0].name) && Printable(members[0].value) && MembersPrintable(members[1..])
  }

  function Tabs(n: int): (r: Text)
    ensures |r| == if n > 0 then n else 0
    ensures forall k :: 0 <= k < |r| ==> r[k] == TAB
    decreases n
  {
    if n > 0 then [TAB] + Tabs(n - 1) else []
  }

  /** `b` only in the formatted form. */
  function If(fmt: bool, b: Text): Text {
    if fmt then b else []
  }

  ghost function Print(j: Json, depth: nat, fmt: bool): (r: Text)
    requires Printable(j)
    ensures |r| > 0
  {
    match j
    case Null => NULL_WORD
    case False => FALSE_WORD
    case True => TRUE_WORD
    case Number(v) => PrintNumber(v)
    case String(t) => PrintString(t)
    case Array(items) =>
      if items == [] then [LBRACKET, RBRACKET] else [LBRACKET] + PrintItems(items, depth + 1, fmt) + [RBRACKET]
    case Object(members) =>
      if members == [] then [LBRACE] + (If(fmt, [LF]) + If(fmt, Tabs(depth - 1)) + [RBRACE])
      else [LBRACE] + If(fmt, [LF]) + PrintMembers(members, depth + 1, fmt) + (If(fmt, Tabs(depth)) + [RBRACE])
  }

  /** The items of an array with a comma, and in the formatted form a space, between them. */
  ghost function PrintItems(items: seq<Json>, depth: nat, fmt: bool): Text
    requires items != [] && AllPrintable(items)
  {
    if |items| == 1 then Print(items[0], depth, fmt)
    else Print(items[0], depth, fmt) + ([COMMA] + If(fmt, [SPACE])) + PrintItems(items[1..], depth, fmt)
  }

  ghost function PrintMember(m: Member, depth: nat, fmt: bool): Text
    requires NulFree(m.name) && Printable(m.value)
  {
    If(fmt, Tabs(depth)) + PrintString(m.name) + ([COLON] + If(fmt, [TAB])) + Print(m.value, depth, fmt)
  }

  /** The members of an object; in the formatted form one on a line, indented by `depth` tabs. */
  ghost function PrintMembers(members: seq<Member>, depth: nat, fmt: bool): Text
    requires members != [] && MembersPrintable(members)
  {
    var m := PrintMember(members[0], depth, fmt);
    if |members| == 1 then m + If(fmt, [LF])
    else m + ([COMMA] + If(fmt, [LF])) + PrintMembers(members[1..], depth, fmt)
  }

  /** How containers are laid out at any depth: an empty one, and one of two values. */
  lemma EmptyLayout(d: nat, fmt: bool)
    ensures Print(Array([]), d, fmt) == Ascii("[]")
    ensures Print(Object([]), d, fmt) == if !fmt then Ascii("{}") else Ascii("{\n") + (Tabs(d - 1) + Ascii("}"))
  {
  }

  lemma ArrayLayout(v: Json, w: Json, d: nat, fmt: bool)
    requires Printable(v) && Printable(w)
    ensures Printable(Array([v, w]))
    ensures var comma := if fmt then Ascii(", ") else Ascii(",");
            Print(Array([v, w]), d, fmt)
            == Ascii("[") + (Print(v, d + 1, fmt) + comma + Print(w, d + 1, fmt)) + Ascii("]")
  {
    Commas();
    TwoItems(v, w, d + 1, fmt);
    FullArray([v, w], d, fmt);
    hide Print, PrintItems, AllPrintable, Ascii;
  }

  lemma Commas()
    ensures Ascii(",") == [COMMA] + [] && Ascii(", ") == [COMMA] + [SPACE]
    ensures Ascii("[") == [LBRACKET] && Ascii("]") == [RBRACKET]
  {
  }

  lemma FullArray(items: seq<Json>, d: nat, fmt: bool)
    requires items != [] && AllPrintable(items)
    ensures Print(Array(items), d, fmt) == [LBRACKET] + PrintItems(items, d + 1, fmt) + [RBRACKET]
  {
  }

  lemma FullObject(members: seq<Member>, d: nat, fmt: bool)
    requires members != [] && MembersPrintable(members)
    ensures Print(Object(members), d, fmt)
         == [LBRACE] + If(fmt, [LF]) + PrintMembers(members, d + 1, fmt) + (If(fmt, Tabs(d)) + [RBRACE])
  {
  }

  lemma TwoItems(v: Json, w: Json, d: nat, fmt: bool)
    requires Printable(v) && Printable(w)
    ensures AllPrintable([v, w])
    ensures PrintItems([v, w], d, fmt) == Print(v, d, fmt) + ([COMMA] + If(fmt, [SPACE])) + Print(w, d, fmt)
  {
    hide Print, Printable;
    assert [v, w][1..] == [w] && [w][1..] == [];
    assert AllPrintable([w]);
  }

  lemma TwoMembers(m: Member, n: Member, d: nat, fmt: bool)
    requires NulFree(m.name) && Printable(m.value) && NulFree(n.name) && Printable(n.value)
    ensures MembersPrintable([m, n])
    ensures PrintMembers([m, n], d, fmt)
         == PrintMember(m, d, fmt) + ([COMMA] + If(fmt, [LF])) + (PrintMember(n, d, fmt) + If(fmt, [LF]))
  {
    hide PrintMember, Printable, NulFree;
    assert [m, n][1..] == [n] && [n][1..] == [];
    assert MembersPrintable([n]);
  }

  lemma MemberLayout(m: Member, d: nat, fmt: bool)
    requires NulFree(m.name) && Printable(m.value)
    ensures PrintMember(m, d, fmt)
         == if fmt then Tabs(d) + PrintString(m.name) + Ascii(":\t") + Print(m.value, d, fmt)
            else PrintString(m.name) + Ascii(":") + Print(m.value, d, fmt)
  {
    hide Print, Printable, PrintString;
    assert Ascii(":") == [COLON] + [] && Ascii(":\t") == [COLON] + [TAB];
    assert [] + PrintString(m.name) == PrintString(m.name);
    hide Ascii;
  }

  lemma ObjectLayout(m: Member, n: Member, d: nat, fmt: bool)
    requires NulFree(m.name) && Printable(m.value) && NulFree(n.name) && Printable(n.value)
    ensures Printable(Object([m, n]))
    ensures var p, q := PrintMember(m, d + 1, fmt), PrintMember(n, d + 1, fmt);
            Print(Object([m, n]), d, fmt)
            == if fmt then Ascii("{\n") + (p + Ascii(",\n") + (q + Ascii("\n"))) + (Tabs(d) + Ascii("}"))
               else Ascii("{") + (p + Ascii(",") + q) + Ascii("}")
  {
    Separators();
    TwoMembers(m, n, d + 1, fmt);
    FullObject([m, n], d, fmt);
    hide Print, PrintMember, PrintMembers, MembersPrintable, Ascii;
    assert PrintMember(n, d + 1, fmt) + [] == PrintMember(n, d + 1, fmt);
  }

  lemma Separators()
    ensures Ascii(",") == [COMMA] + [] && Ascii(",\n") == [COMMA] + [LF] && Ascii("\n") == [LF]
    ensures Ascii("{") == [LBRACE] + [] && Ascii("{\n") == [LBRACE] + [LF] && Ascii("}") == [] + [RBRACE] == [RBRACE]
  {
  }

  // ----- Looking up --------------------------------------------------------

  /** The value of the first member with a name, and Null if there is none. */
  ghost function MemberUnder(members: seq<Member>, name: Text): Json {
    if members == [] then Null
    else if members[0].name == name then members[0].value
    else MemberUnder(members[1..], name)
  }

  ghost function Under(j: Json, name: string): Json {
    if j.Object? then MemberUnder(j.members, Ascii(name)) else Null
  }

  /** A member whose name differs from all names before it is the one that is found. */
  lemma {:induction false} UnderAt(members: seq<Member>, i: nat)
    requires i < |members| && forall k :: 0 <= k < i ==> members[k].name != members[i].name
    ensures MemberUnder(members, members[i].name) == members[i].value
    decreases i
  {
    if i > 0 {
      UnderAt(members[1..], i - 1);
    }
  }

  // ----- What comes back when a value is printed and parsed ----------------

  /** The value with each number as it is read back. */
  ghost function Reread(j: Json): Json {
    match j
    case Number(v) => Number(RereadNumber(v))
    case Array(items) => Array(RereadItems(items))
    case Object(members) => Object(RereadMembers(members))
    case _ => j
  }

  ghost function RereadItems(items: seq<Json>): (r: seq<Json>)
    ensures |r| == |items|
  {
    if items == [] then [] else [Reread(items[0])] + RereadItems(items[1..])
  }

  ghost function RereadMembers(members: seq<Member>): (r: seq<Member>)
    ensures |r| == |members|
  {
    if members == [] then [] else [RereadMember(members[0])] + RereadMembers(members[1..])
  }

  ghost function RereadMember(m: Member): Member {
    Member(m.name, Reread(m.value))
  }

  /** All numbers come back. */
  ghost predicate Survives(j: Json) {
    match j
    case Number(v) => NumberSurvives(v)
    case Array(items) => AllSurvive(items)
    case Object(members) => MembersSurvive(members)
    case _ => true
  }

  ghost predicate AllSurvive(items: seq<Json>) {
    items != [] ==> Survives(items[0]) && AllSurvive(items[1..])
  }

  ghost predicate MembersSurvive(members: seq<Member>) {
    members != [] ==> Survives(members[0].value) && MembersSurvive(members[1..])
  }

  /** A value comes back exactly if all its numbers do. */
  lemma {:induction false} SurvivesExactly(j: Json)
    ensures Reread(j) == j <==> Survives(j)
    decreases j, 1
  {
    hide NumberSurvives, RereadNumber;
    match j
    case Number(v) => RereadExactly(v);
    case Array(items) => ItemsSurviveExactly(items);
    case Object(members) => MembersSurviveExactly(members);
    case _ =>
  }

  lemma {:induction false} ItemsSurviveExactly(items: seq<Json>)
    ensures RereadItems(items) == items <==> AllSurvive(items)
    decreases items, 0
  {
    if items != [] {
      SurvivesExactly(items[0]);
      ItemsSurviveExactly(items[1..]);
      SameParts(Reread(items[0]), RereadItems(items[1..]), items);
    }
  }

  lemma {:induction false} MembersSurviveExactly(members: seq<Member>)
    ensures RereadMembers(members) == members <==> MembersSurvive(members)
    decreases members, 0
  {
    if members != [] {
      SurvivesExactly(members[0].value);
      MembersSurviveExactly(members[1..]);
      SameParts(RereadMember(members[0]), RereadMembers(members[1..]), members);
    }
  }

  /** All numbers are integers of at most 53 bits. */
  ghost predicate HasSmallIntegers(j: Json) {
    match j
    case Number(v) => IsWhole(v) && Abs(v) <= TWO_53 as real
    case Array(items) => HaveSmallIntegers(items)
    case Object(members) => MembersHaveSmallIntegers(members)
    case _ => true
  }

  ghost predicate HaveSmallIntegers(items: seq<Json>) {
    items != [] ==> HasSmallIntegers(items[0]) && HaveSmallIntegers(items[1..])
  }

  ghost predicate MembersHaveSmallIntegers(members: seq<Member>) {
    members != [] ==> HasSmallIntegers(members[0].value) && MembersHaveSmallIntegers(members[1..])
  }

  /** Integers of at most 53 bits come back. */
  lemma {:induction false} SmallIntegersSurvive(j: Json)
    requires HasSmallIntegers(j)
    ensures Survives(j)
    decreases j, 1
  {
    match j
    case Number(v) => WholeFormat(v);
    case Array(items) => SmallItemsSurvive(items);
    case Object(members) => SmallMembersSurvive(members);
    case _ =>
  }

  lemma {:induction false} SmallItemsSurvive(items: seq<Json>)
    requires HaveSmallIntegers(items)
    ensures AllSurvive(items)
    decreases items, 0
  {
    if items != [] {
      SmallIntegersSurvive(items[0]);
      SmallItemsSurvive(items[1..]);
    }
  }

  lemma {:induction false} SmallMembersSurvive(members: seq<Member>)
    requires MembersHaveSmallIntegers(members)
    ensures MembersSurvive(members)
    decreases members, 0
  {
    if members != [] {
      SmallIntegersSurvive(members[0].value);
      SmallMembersSurvive(members[1..]);
    }
  }

  lemma SameParts<T>(first: T, rest: seq<T>, s: seq<T>)
    requires s != []
    ensures [first] + rest == s <==> first == s[0] && rest == s[1..]
  {
    assert ([first] + rest)[0] == first && ([first] + rest)[1..] == rest;
    assert s == [s[0]] + s[1..];
  }
}
