/** The text of a tree: what is printed for its nodes, whether or not they make up a JSON value. */
module PrintedTree {
  import opened Bytes
  import opened Doubles
  import opened Floats
  import opened Json
  import opened Numbers
  import opened Strings
  import opened Memory
  import opened ParseTree
  import D = Duplicate
  import opened PrintText

  // ----- The text ----------------------------------------------------------

  /** `print_string_ptr`: nothing is printed for a null pointer. */
  ghost function StringText(o: Owner): Text {
    if o.Some? then PrintString(o.text) else []
  }

  /** The texts with separators between them. */
  ghost function Joined(texts: seq<Text>, sep: Text): Text {
    if texts == [] then [] else if |texts| == 1 then texts[0] else texts[0] + sep + Joined(texts[1..], sep)
  }

  function Sep(fmt: bool): Text {
    [COMMA] + If(fmt, [SPACE])
  }

  /** One line of the output, and all of them. */
  ghost function Line(name: Text, value: Text, depth: nat, fmt: bool): Text {
    If(fmt, Tabs(depth)) + name + ([COLON] + If(fmt, [TAB])) + value
  }

  function LineEnd(last: bool, fmt: bool): Text {
    if last then If(fmt, [LF]) else [COMMA] + If(fmt, [LF])
  }

  ghost function Lines(names: seq<Text>, values: seq<Text>, depth: nat, fmt: bool): Text
    requires |names| == |values|
  {
    if names == [] then []
    else Line(names[0], values[0], depth, fmt) + LineEnd(|names| == 1, fmt) + Lines(names[1..], values[1..], depth, fmt)
  }

  ghost function ObjectText(ns: seq<Text>, vs: seq<Text>, depth: nat, fmt: bool): Text
    requires |ns| == |vs|
  {
    [LBRACE] + If(fmt, [LF]) + Lines(ns, vs, depth, fmt) + (If(fmt, Tabs(depth - 1)) + [RBRACE])
  }

  /** `print_value`. */
  ghost function TreeText(t: Tree, depth: nat, fmt: bool): Text {
    match t.kind
    case IsNull => NULL_WORD
    case IsFalse => FALSE_WORD
    case IsTrue => TRUE_WORD
    case IsNumber => NumberText(t.integer, t.number)
    case IsString => StringText(t.text)
    case IsArray =>
      if t.kids == [] then [LBRACKET, RBRACKET]
      else [LBRACKET] + Joined(Texts(t.kids, depth + 1, fmt), Sep(fmt)) + [RBRACKET]
    case IsObject =>
      if t.kids == [] then [LBRACE] + If(fmt, [LF]) + (If(fmt, Tabs(depth - 1)) + [RBRACE])
      else ObjectText(Names(t.kids), Texts(t.kids, depth + 1, fmt), depth + 1, fmt)
  }

  ghost function Texts(ts: seq<Tree>, depth: nat, fmt: bool): (r: seq<Text>)
    ensures |r| == |ts|
  {
    if ts == [] then [] else [TreeText(ts[0], depth, fmt)] + Texts(ts[1..], depth, fmt)
  }

  ghost function Names(ts: seq<Tree>): (r: seq<Text>)
    ensures |r| == |ts|
  {
    if ts == [] then [] else [StringText(ts[0].name)] + Names(ts[1..])
  }

  /** All numbers that are printed are finite. */
  ghost predicate Finite(t: Tree) {
    (t.kind == IsNumber ==> IsFinite(t.number)) && (t.kind == IsArray || t.kind == IsObject ==> FiniteAll(t.kids))
  }

  ghost predicate FiniteAll(ts: seq<Tree>) {
    ts != [] ==> Finite(ts[0]) && FiniteAll(ts[1..])
  }

  // ----- It is a C string --------------------------------------------------

  ghost predicate AllNulFree(texts: seq<Text>) {
    texts != [] ==> NulFree(texts[0]) && AllNulFree(texts[1..])
  }

  lemma StringTextIsNulFree(o: Owner)
    requires OwnerHolds(o)
    ensures NulFree(StringText(o))
  {
    if o.Some? {
      EscapeIsNulFree(o.text);
    }
  }

  lemma {:induction false} JoinedIsNulFree(texts: seq<Text>, fmt: bool)
    requires AllNulFree(texts)
    ensures NulFree(Joined(texts, Sep(fmt)))
    decreases |texts|
  {
    if |texts| > 1 {
      JoinedIsNulFree(texts[1..], fmt);
      NulFreeJoin(texts[0], Sep(fmt));
      NulFreeJoin(texts[0] + Sep(fmt), Joined(texts[1..], Sep(fmt)));
    }
  }

  lemma LineIsNulFree(name: Text, value: Text, depth: nat, fmt: bool, last: bool)
    requires NulFree(name) && NulFree(value)
    ensures NulFree(Line(name, value, depth, fmt) + LineEnd(last, fmt))
  {
  }

  lemma {:induction false} LinesAreNulFree(names: seq<Text>, values: seq<Text>, depth: nat, fmt: bool)
    requires |names| == |values| && AllNulFree(names) && AllNulFree(values)
    ensures NulFree(Lines(names, values, depth, fmt))
    decreases |names|
  {
    if names != [] {
      LinesAreNulFree(names[1..], values[1..], depth, fmt);
      LineIsNulFree(names[0], values[0], depth, fmt, |names| == 1);
      hide Line, LineEnd;
      NulFreeJoin(Line(names[0], values[0], depth, fmt) + LineEnd(|names| == 1, fmt),
                  Lines(names[1..], values[1..], depth, fmt));
    }
  }

  lemma ObjectIsNulFree(names: seq<Text>, values: seq<Text>, depth: nat, fmt: bool)
    requires |names| == |values| && NulFree(Lines(names, values, depth, fmt))
    ensures NulFree(ObjectText(names, values, depth, fmt))
  {
    hide Lines;
  }

  /** The text holds no NUL, as the strings in memory do not. */
  lemma {:induction false} TextIsNulFree(t: Tree, depth: nat, fmt: bool)
    requires Shown(t)
    ensures NulFree(TreeText(t, depth, fmt))
    decreases t, 1
  {
    hide ObjectText, Joined, NumberText, StringText;
    match t.kind
    case IsNumber => NumberIsNulFree(t.integer, t.number);
    case IsString => StringTextIsNulFree(t.text);
    case IsArray =>
      TextsAreNulFree(t.kids, depth + 1, fmt);
      JoinedIsNulFree(Texts(t.kids, depth + 1, fmt), fmt);
    case IsObject =>
      TextsAreNulFree(t.kids, depth + 1, fmt);
      LinesAreNulFree(Names(t.kids), Texts(t.kids, depth + 1, fmt), depth + 1, fmt);
      ObjectIsNulFree(Names(t.kids), Texts(t.kids, depth + 1, fmt), depth + 1, fmt);
    case _ =>
  }

  lemma {:induction false} TextsAreNulFree(ts: seq<Tree>, depth: nat, fmt: bool)
    requires ShownAll(ts)
    ensures AllNulFree(Texts(ts, depth, fmt)) && AllNulFree(Names(ts))
    decreases ts, 0
  {
    if ts != [] {
      TextIsNulFree(ts[0], depth, fmt);
      StringTextIsNulFree(ts[0].name);
      TextsAreNulFree(ts[1..], depth, fmt);
      hide TreeText, StringText;
      assert Texts(ts, depth, fmt)[1..] == Texts(ts[1..], depth, fmt) && Names(ts)[1..] == Names(ts[1..]);
    }
  }

  // ----- Trees that make up a JSON value -----------------------------------

  /** A tree whose numbers are finite and agree, whose strings are there and whose members have names. */
  ghost predicate Fit(t: Tree) {
    && (t.kind == IsNumber ==>
          && IsFinite(t.number)
          && (INT_MIN as real <= t.number <= INT_MAX as real ==> t.integer == Truncate(t.number)))
    && (t.kind == IsString ==> t.text.Some?)
    && (t.kind == IsArray || t.kind == IsObject ==> AllFit(t.kids, t.kind == IsObject))
  }

  ghost predicate AllFit(ts: seq<Tree>, named: bool) {
    ts != [] ==> Fit(ts[0]) && (named ==> ts[0].name.Some?) && AllFit(ts[1..], named)
  }

  lemma {:induction false} FitIsFinite(t: Tree)
    requires Fit(t)
    ensures Finite(t)
    decreases t, 1
  {
    if t.kind == IsArray || t.kind == IsObject {
      AllFitAreFinite(t.kids, t.kind == IsObject);
    }
  }

  lemma {:induction false} AllFitAreFinite(ts: seq<Tree>, named: bool)
    requires AllFit(ts, named)
    ensures FiniteAll(ts)
    decreases ts, 0
  {
    if ts != [] {
      FitIsFinite(ts[0]);
      AllFitAreFinite(ts[1..], named);
    }
  }

  lemma {:induction false} FitIsPrintable(t: Tree)
    requires Shown(t) && Fit(t)
    ensures Printable(JsonOf(t))
    decreases t, 1
  {
    if t.kind == IsArray {
      AllFitArePrintable(t.kids, false);
    } else if t.kind == IsObject {
      AllFitArePrintable(t.kids, true);
    }
  }

  lemma {:induction false} AllFitArePrintable(ts: seq<Tree>, named: bool)
    requires ShownAll(ts) && AllFit(ts, named)
    ensures AllPrintable(JsonsOf(ts)) && (named ==> MembersPrintable(MembersOf(ts)))
    decreases ts, 0
  {
    if ts != [] {
      FitIsPrintable(ts[0]);
      AllFitArePrintable(ts[1..], named);
      assert JsonsOf(ts)[1..] == JsonsOf(ts[1..]) && MembersOf(ts)[1..] == MembersOf(ts[1..]);
    }
  }

  /** A parsed tree can be printed if its numbers are finite. */
  lemma {:induction false} ParsedCanBePrinted(t: Tree)
    requires Filled(t) && Printable(JsonOf(t))
    ensures Fit(t) && NoReferences(t)
    decreases t, 1
  {
    if t.kind == IsObject {
      ParsedMembersCanBePrinted(t.kids);
    } else if t.kind == IsArray {
      ParsedItemsCanBePrinted(t.kids);
    } else {
      NoReferencesBelow(t);
    }
  }

  lemma {:induction false} ParsedItemsCanBePrinted(ts: seq<Tree>)
    requires AllFilled(ts, false) && AllPrintable(JsonsOf(ts))
    ensures AllFit(ts, false) && NoReferencesIn(ts)
    decreases ts, 0
  {
    if ts != [] {
      assert JsonsOf(ts)[1..] == JsonsOf(ts[1..]);
      ParsedCanBePrinted(ts[0]);
      ParsedItemsCanBePrinted(ts[1..]);
    }
  }

  lemma {:induction false} ParsedMembersCanBePrinted(ts: seq<Tree>)
    requires AllFilled(ts, true) && MembersPrintable(MembersOf(ts))
    ensures AllFit(ts, true) && NoReferencesIn(ts)
    decreases ts, 0
  {
    if ts != [] {
      assert MembersOf(ts)[1..] == MembersOf(ts[1..]);
      ParsedCanBePrinted(ts[0]);
      ParsedMembersCanBePrinted(ts[1..]);
    }
  }

  lemma {:induction false} NoReferencesBelow(t: Tree)
    requires Filled(t)
    ensures NoReferences(t)
    decreases t, 1
  {
    NoReferencesAmong(t.kids, t.kind == IsObject);
  }

  lemma {:induction false} NoReferencesAmong(ts: seq<Tree>, named: bool)
    requires AllFilled(ts, named)
    ensures NoReferencesIn(ts)
    decreases ts, 0
  {
    if ts != [] {
      NoReferencesBelow(ts[0]);
      NoReferencesAmong(ts[1..], named);
    }
  }

  /** The texts of the items. */
  ghost function PrintAll(items: seq<Json>, depth: nat, fmt: bool): (r: seq<Text>)
    requires AllPrintable(items)
    ensures |r| == |items|
  {
    if items == [] then [] else [Print(items[0], depth, fmt)] + PrintAll(items[1..], depth, fmt)
  }

  /** The names and the values of the members, printed. */
  ghost function NameTexts(members: seq<Member>): seq<Text> {
    if members == [] then [] else [PrintString(members[0].name)] + NameTexts(members[1..])
  }

  ghost function ValueTexts(members: seq<Member>, depth: nat, fmt: bool): seq<Text>
    requires MembersPrintable(members)
  {
    if members == [] then [] else [Print(members[0].value, depth, fmt)] + ValueTexts(members[1..], depth, fmt)
  }

  lemma {:induction false} PrintItemsIsJoined(items: seq<Json>, depth: nat, fmt: bool)
    requires items != [] && AllPrintable(items)
    ensures PrintItems(items, depth, fmt) == Joined(PrintAll(items, depth, fmt), [COMMA] + If(fmt, [SPACE]))
    decreases items
  {
    var all := PrintAll(items, depth, fmt);
    if |items| > 1 {
      assert all[1..] == PrintAll(items[1..], depth, fmt);
      PrintItemsIsJoined(items[1..], depth, fmt);
    }
  }

  lemma {:induction false} PrintMembersIsLines(members: seq<Member>, depth: nat, fmt: bool)
    requires members != [] && MembersPrintable(members)
    ensures |NameTexts(members)| == |ValueTexts(members, depth, fmt)| == |members|
    ensures PrintMembers(members, depth, fmt) == Lines(NameTexts(members), ValueTexts(members, depth, fmt), depth, fmt)
    decreases members
  {
    hide Print, PrintString, Printable;
    var names, values := NameTexts(members), ValueTexts(members, depth, fmt);
    assert names[1..] == NameTexts(members[1..]) && values[1..] == ValueTexts(members[1..], depth, fmt);
    if |members| == 1 {
      assert NameTexts(members[1..]) == [] && ValueTexts(members[1..], depth, fmt) == [];
      var m := PrintMember(members[0], depth, fmt) + If(fmt, [LF]);
      assert m + [] == m;
    } else {
      PrintMembersIsLines(members[1..], depth, fmt);
    }
  }

  /** Where the fields of a number disagree, the integer is out of range and has no effect. */
  lemma FieldsAgree(n: int, v: real)
    requires INT_MIN as real <= v <= INT_MAX as real ==> n == Truncate(v)
    ensures NumberText(n, v) == PrintNumber(v)
  {
  }

  /** What is printed for the items and members is what is printed for their values. */
  lemma {:induction false} FitTexts(ts: seq<Tree>, named: bool, depth: nat, fmt: bool)
    requires ShownAll(ts) && AllFit(ts, named)
    ensures AllPrintable(JsonsOf(ts)) && Texts(ts, depth, fmt) == PrintAll(JsonsOf(ts), depth, fmt)
    ensures named ==>
              && MembersPrintable(MembersOf(ts)) && Names(ts) == NameTexts(MembersOf(ts))
              && Texts(ts, depth, fmt) == ValueTexts(MembersOf(ts), depth, fmt)
    decreases ts, 0
  {
    AllFitArePrintable(ts, named);
    if ts != [] {
      FitText(ts[0], depth, fmt);
      FitTexts(ts[1..], named, depth, fmt);
      hide TreeText, Print, Fit, Shown;
      assert JsonsOf(ts)[1..] == JsonsOf(ts[1..]) && MembersOf(ts)[1..] == MembersOf(ts[1..]);
    }
  }

  /** The text of a tree that makes up a JSON value is that of the value. */
  lemma {:induction false} FitText(t: Tree, depth: nat, fmt: bool)
    requires Shown(t) && Fit(t)
    ensures Printable(JsonOf(t)) && TreeText(t, depth, fmt) == Print(JsonOf(t), depth, fmt)
    decreases t, 1
  {
    FitIsPrintable(t);
    match t.kind
    case IsNumber => FieldsAgree(t.integer, t.number);
    case IsArray =>
      if t.kids != [] {
        FitTexts(t.kids, false, depth + 1, fmt);
        PrintItemsIsJoined(JsonsOf(t.kids), depth + 1, fmt);
      }
    case IsObject =>
      if t.kids == [] {
        EmptyObjectText(depth, fmt);
      } else {
        FitTexts(t.kids, true, depth + 1, fmt);
        PrintMembersIsLines(MembersOf(t.kids), depth + 1, fmt);
      }
    case _ =>
  }

  lemma EmptyObjectText(depth: nat, fmt: bool)
    ensures Print(Object([]), depth, fmt) == [LBRACE] + If(fmt, [LF]) + (If(fmt, Tabs(depth - 1)) + [RBRACE])
  {
    hide Tabs;
    var a, b := If(fmt, [LF]), If(fmt, Tabs(depth - 1));
    assert [LBRACE] + (a + b + [RBRACE]) == [LBRACE] + a + (b + [RBRACE]);
  }

  // ----- Duplicates --------------------------------------------------------

  /** Trees of the same content stand for the same value and have the same text in every form. */
  lemma {:induction false} SameContentIsSameText(a: Tree, b: Tree, depth: nat, fmt: bool)
    requires D.SameContent(a, b)
    ensures JsonOf(a) == JsonOf(b) && TreeText(a, depth, fmt) == TreeText(b, depth, fmt)
    decreases a, 1
  {
    hide NumberText, PrintString;
    SameContentsAreSameTexts(a.kids, b.kids, depth + 1, fmt);
    assert a.kids == [] <==> b.kids == [];
  }

  lemma {:induction false} SameContentsAreSameTexts(a: seq<Tree>, b: seq<Tree>, depth: nat, fmt: bool)
    requires D.SameContents(a, b)
    ensures JsonsOf(a) == JsonsOf(b) && MembersOf(a) == MembersOf(b)
    ensures Texts(a, depth, fmt) == Texts(b, depth, fmt) && Names(a) == Names(b) && |a| == |b|
    decreases a, 0
  {
    hide TreeText, JsonOf, PrintString;
    if a != [] && b != [] {
      SameContentIsSameText(a[0], b[0], depth, fmt);
      SameContentsAreSameTexts(a[1..], b[1..], depth, fmt);
    }
  }
}
