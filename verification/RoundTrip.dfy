/** Parsing undoes printing. */
module RoundTrip {
  import opened Bytes
  import opened Json
  import opened Numbers
  import opened Floats
  import opened Strings
  import opened Parser

  // ----- Blanks ------------------------------------------------------------

  ghost predicate Blank(b: Text) {
    forall k :: 0 <= k < |b| ==> 0 < b[k] <= 32
  }

  /** Blanks in front of a position do not change where `skip` stops. */
  lemma {:induction false} SkipBlanks(b: Text, s: Text, i: nat)
    requires Occurs(b, s, i) && Blank(b)
    ensures Skip(s, i) == Skip(s, i + |b|)
    decreases |b|
  {
    if b != [] {
      assert s[i] == b[0];
      assert Occurs(b[1..], s, i + 1);
      SkipBlanks(b[1..], s, i + 1);
    }
  }

  lemma SkipNothing(s: Text, i: nat)
    requires At(s, i) > 32
    ensures Skip(s, i) == i
  {
  }

  lemma OccursFirst(p: Text, s: Text, i: nat)
    requires Occurs(p, s, i) && p != []
    ensures At(s, i) == p[0]
  {
    assert s[i] == p[0];
  }

  lemma OccursSplit3(a: Text, b: Text, c: Text, s: Text, i: nat)
    requires Occurs(a + b + c, s, i)
    ensures Occurs(a, s, i) && Occurs(b, s, i + |a|) && Occurs(c, s, i + |a| + |b|)
  {
    OccursSplit(a + b, c, s, i);
    OccursSplit(a, b, s, i);
  }

  lemma FirstAndRest<T>(s: seq<T>)
    requires s != []
    ensures s == [s[0]] + s[1..] && (|s| == 1 ==> s == [s[0]])
  {
  }

  // ----- One step of the parser --------------------------------------------

  /** A printed value starts with a byte that is neither blank nor a closing bracket. */
  lemma FirstByte(j: Json, depth: nat, fmt: bool)
    requires Printable(j)
    ensures var b := Print(j, depth, fmt)[0]; b > 32 && b != RBRACKET && b != RBRACE
  {
  }

  lemma NoWord(w: Text, s: Text, i: nat)
    requires w != [] && At(s, i) != w[0]
    ensures !StartsWith(s, i, w)
  {
    assert i + |w| <= |s| ==> s[i..i + |w|][0] == s[i];
  }

  lemma NoWords(s: Text, i: nat)
    requires At(s, i) < 97 || At(s, i) > 122
    ensures !StartsWith(s, i, NULL_WORD) && !StartsWith(s, i, FALSE_WORD) && !StartsWith(s, i, TRUE_WORD)
  {
    NoWord(NULL_WORD, s, i);
    NoWord(FALSE_WORD, s, i);
    NoWord(TRUE_WORD, s, i);
  }

  lemma ParseNextItem(s: Text, i: nat, v: Json, n: nat, vs: seq<Json>, e: nat)
    requires ParseValue(s, Skip(s, i)) == Ok(v, n) && At(s, Skip(s, n)) == COMMA
    requires ParseItems(s, Skip(s, n) + 1) == Ok(vs, e)
    ensures ParseItems(s, i) == Ok([v] + vs, e)
  {
    hide ParseValue, Skip;
  }

  lemma ParseLastItem(s: Text, i: nat, v: Json, n: nat)
    requires ParseValue(s, Skip(s, i)) == Ok(v, n) && At(s, Skip(s, n)) == RBRACKET
    ensures ParseItems(s, i) == Ok([v], Skip(s, n) + 1)
  {
    hide ParseValue, Skip;
  }

  lemma ParseOneMember(s: Text, i: nat, name: Text, n: nat, v: Json, e: nat)
    requires ParseString(s, Skip(s, i)) == Ok(name, n) && At(s, Skip(s, n)) == COLON
    requires ParseValue(s, Skip(s, Skip(s, n) + 1)) == Ok(v, e)
    ensures ParseMember(s, i) == Ok(Member(name, v), e)
  {
    hide ParseValue, ParseString, Skip;
  }

  lemma ParseNextMember(s: Text, i: nat, m: Member, n: nat, ms: seq<Member>, e: nat)
    requires ParseMember(s, i) == Ok(m, n) && At(s, Skip(s, n)) == COMMA
    requires ParseMembers(s, Skip(s, n) + 1) == Ok(ms, e)
    ensures ParseMembers(s, i) == Ok([m] + ms, e)
  {
    hide ParseMember, Skip;
  }

  lemma ParseLastMember(s: Text, i: nat, m: Member, n: nat)
    requires ParseMember(s, i) == Ok(m, n) && At(s, Skip(s, n)) == RBRACE
    ensures ParseMembers(s, i) == Ok([m], Skip(s, n) + 1)
  {
    hide ParseMember, Skip;
  }

  lemma ParseFullArray(s: Text, i: nat, vs: seq<Json>, e: nat)
    requires At(s, i) == LBRACKET && At(s, Skip(s, i + 1)) != RBRACKET && ParseItems(s, i + 1) == Ok(vs, e)
    ensures ParseArray(s, i) == Ok(Array(vs), e)
  {
    hide ParseItems, Skip;
  }

  lemma ParseFullObject(s: Text, i: nat, ms: seq<Member>, e: nat)
    requires At(s, i) == LBRACE && At(s, Skip(s, i + 1)) != RBRACE && ParseMembers(s, i + 1) == Ok(ms, e)
    ensures ParseObject(s, i) == Ok(Object(ms), e)
  {
    hide ParseMembers, Skip;
  }

  /** The parser looks at position `i` only through `skip`. */
  lemma SameAfterBlanks(s: Text, i: nat, k: nat)
    requires Skip(s, i) == Skip(s, k)
    ensures ParseItems(s, i) == ParseItems(s, k) && ParseMember(s, i) == ParseMember(s, k)
  {
    hide ParseValue, ParseString, Skip;
  }

  /** The rest of `parse_object` behind the first member. */
  function MembersAfter(s: Text, m: Parsed<Member>): Parsed<seq<Member>> {
    if !m.Ok? then m.PropagateFailure()
    else
      var k := Skip(s, m.next);
      if At(s, k) == COMMA then
        var (ms, e) :- ParseMembers(s, k + 1);
        Ok([m.value] + ms, e)
      else if At(s, k) == RBRACE then Ok([m.value], k + 1)
      else Error(k)
  }

  lemma MembersFrom(s: Text, i: nat)
    ensures ParseMembers(s, i) == MembersAfter(s, ParseMember(s, i))
  {
    hide ParseMember, Skip;
  }

  lemma SameMembers(s: Text, i: nat, k: nat)
    requires Skip(s, i) == Skip(s, k)
    ensures ParseMembers(s, i) == ParseMembers(s, k)
  {
    SameAfterBlanks(s, i, k);
    MembersFrom(s, i);
    MembersFrom(s, k);
    hide ParseMember, ParseMembers, Skip, ParseItems, MembersAfter;
  }

  // ----- Reading a printed value back --------------------------------------

  /** What may follow a printed value: anything after most values, and a delimiter after a number. */
  predicate MayFollow(j: Json, b: byte) {
    j.Number? ==> EndsNumber(b)
  }

  lemma ReadString(t: Text, s: Text, i: nat)
    requires NulFree(t) && Occurs(PrintString(t), s, i)
    ensures ParseString(s, i) == Ok(t, i + |PrintString(t)|)
  {
    assert PrintString(t) == [QUOTE] + (Escape(t) + [QUOTE]);
    OccursSplit([QUOTE], Escape(t) + [QUOTE], s, i);
    EscapeReadBack(t, s, i + 1);
    OccursSplit(Escape(t), [QUOTE], s, i + 1);
    OccursFirst([QUOTE], s, i);
    OccursFirst([QUOTE], s, i + 1 + |Escape(t)|);
  }

  /** The value is read back whatever follows it, unless it is a number. */
  lemma {:induction false} ReadValue(j: Json, depth: nat, fmt: bool, s: Text, i: nat)
    requires Printable(j) && Occurs(Print(j, depth, fmt), s, i)
    requires MayFollow(j, At(s, i + |Print(j, depth, fmt)|))
    ensures ParseValue(s, i) == Ok(Reread(j), i + |Print(j, depth, fmt)|)
    decreases j, 2
  {
    var p := Print(j, depth, fmt);
    OccursFirst(p, s, i);
    if !j.Null? && !j.False? && !j.True? {
      NoWords(s, i);
    }
    match j
    case Null => ReadWord(p, s, i);
    case False => ReadWord(p, s, i);
    case True => ReadWord(p, s, i);
    case Number(v) => ReadNumber(v, s, i);
    case String(t) => ReadString(t, s, i);
    case Array(items) => ReadArray(items, depth, fmt, s, i);
    case Object(members) => ReadObject(members, depth, fmt, s, i);
  }

  lemma ReadWord(w: Text, s: Text, i: nat)
    requires Occurs(w, s, i) && w in {NULL_WORD, FALSE_WORD, TRUE_WORD}
    ensures StartsWith(s, i, w)
    ensures w != NULL_WORD ==> !StartsWith(s, i, NULL_WORD)
    ensures w == TRUE_WORD ==> !StartsWith(s, i, FALSE_WORD)
  {
    OccursFirst(w, s, i);
    if w != NULL_WORD {
      NoWord(NULL_WORD, s, i);
    }
    if w == TRUE_WORD {
      NoWord(FALSE_WORD, s, i);
    }
  }

  lemma {:induction false} ReadArray(items: seq<Json>, depth: nat, fmt: bool, s: Text, i: nat)
    requires AllPrintable(items) && Occurs(Print(Array(items), depth, fmt), s, i) && At(s, i) == LBRACKET
    ensures ParseArray(s, i) == Ok(Array(RereadItems(items)), i + |Print(Array(items), depth, fmt)|)
    decreases items, 4
  {
    hide Occurs, ParseArray, Print;
    if items == [] {
      ReadEmptyArray(depth, fmt, s, i);
    } else {
      var body := PrintItems(items, depth + 1, fmt);
      ArrayText(items, depth, fmt);
      hide PrintItems, AllPrintable;
      OccursSplit3([LBRACKET], body, [RBRACKET], s, i);
      OccursFirst(body, s, i + 1);
      OccursFirst([RBRACKET], s, i + 1 + |body|);
      SkipNothing(s, i + 1);
      ReadItems(items, depth + 1, fmt, s, i + 1);
      ParseFullArray(s, i, RereadItems(items), i + 1 + |body| + 1);
    }
  }

  lemma ReadEmptyArray(depth: nat, fmt: bool, s: Text, i: nat)
    requires Occurs(Print(Array([]), depth, fmt), s, i) && At(s, i) == LBRACKET
    ensures ParseArray(s, i) == Ok(Array([]), i + |Print(Array([]), depth, fmt)|)
  {
    assert Print(Array([]), depth, fmt) == [LBRACKET] + [RBRACKET];
    OccursSplit([LBRACKET], [RBRACKET], s, i);
    OccursFirst([RBRACKET], s, i + 1);
    SkipNothing(s, i + 1);
  }

  lemma ArrayText(items: seq<Json>, depth: nat, fmt: bool)
    requires items != [] && AllPrintable(items)
    ensures Print(Array(items), depth, fmt) == [LBRACKET] + PrintItems(items, depth + 1, fmt) + [RBRACKET]
    ensures var body := PrintItems(items, depth + 1, fmt);
            |body| > 0 && body[0] > 32 && body[0] != RBRACKET
  {
    FirstByte(items[0], depth + 1, fmt);
    assert PrintItems(items, depth + 1, fmt)[0] == Print(items[0], depth + 1, fmt)[0];
  }

  lemma RereadFirst(items: seq<Json>)
    requires items != []
    ensures RereadItems(items) == [Reread(items[0])] + RereadItems(items[1..])
    ensures |items| == 1 ==> RereadItems(items) == [Reread(items[0])]
  {
  }

  lemma RereadParts(members: seq<Member>)
    requires members != []
    ensures RereadMembers(members) == [RereadMember(members[0])] + RereadMembers(members[1..])
    ensures |members| == 1 ==> RereadMembers(members) == [RereadMember(members[0])]
  {
  }

  lemma {:induction false} ReadItems(items: seq<Json>, depth: nat, fmt: bool, s: Text, i: nat)
    requires items != [] && AllPrintable(items)
    requires Occurs(PrintItems(items, depth, fmt), s, i) && At(s, i + |PrintItems(items, depth, fmt)|) == RBRACKET
    ensures ParseItems(s, i) == Ok(RereadItems(items), i + |PrintItems(items, depth, fmt)| + 1)
    decreases items, 3
  {
    hide Occurs, ParseItems, ParseValue, Skip, At, Printable, Print, Reread, RereadItems;
    RereadFirst(items);
    var p := Print(items[0], depth, fmt);
    FirstByte(items[0], depth, fmt);
    if |items| == 1 {
      FirstAndRest(items);
      OccursFirst(p, s, i);
      SkipNothing(s, i);
      SkipNothing(s, i + |p|);
      ReadValue(items[0], depth, fmt, s, i);
      ParseLastItem(s, i, Reread(items[0]), i + |p|);
    } else {
      var rest, k := PrintItems(items[1..], depth, fmt), i + |p| + 1 + |If(fmt, [SPACE])|;
      FirstAndRest(items);
      SplitItems(items, depth, fmt, s, i);
      hide PrintItems, If;
      OccursFirst(p, s, i);
      SkipNothing(s, i);
      SkipNothing(s, i + |p|);
      ReadValue(items[0], depth, fmt, s, i);
      ReadItems(items[1..], depth, fmt, s, k);
      SameAfterBlanks(s, i + |p| + 1, k);
      ParseNextItem(s, i, Reread(items[0]), i + |p|, RereadItems(items[1..]), k + |rest| + 1);
    }
  }

  lemma SplitItems(items: seq<Json>, depth: nat, fmt: bool, s: Text, i: nat)
    requires |items| > 1 && AllPrintable(items) && Occurs(PrintItems(items, depth, fmt), s, i)
    ensures var p, rest := Print(items[0], depth, fmt), PrintItems(items[1..], depth, fmt);
            var k := i + |p| + 1 + |If(fmt, [SPACE])|;
            && Occurs(p, s, i) && At(s, i + |p|) == COMMA && Occurs(rest, s, k)
            && Skip(s, i + |p| + 1) == Skip(s, k) && i + |PrintItems(items, depth, fmt)| == k + |rest|
  {
    hide Occurs, Print, Printable, Skip;
    var p, sep := Print(items[0], depth, fmt), [COMMA] + If(fmt, [SPACE]);
    OccursSplit3(p, sep, PrintItems(items[1..], depth, fmt), s, i);
    OccursSplit([COMMA], If(fmt, [SPACE]), s, i + |p|);
    OccursFirst([COMMA], s, i + |p|);
    SkipBlanks(If(fmt, [SPACE]), s, i + |p| + 1);
  }

  lemma {:induction false} ReadObject(members: seq<Member>, depth: nat, fmt: bool, s: Text, i: nat)
    requires MembersPrintable(members) && Occurs(Print(Object(members), depth, fmt), s, i) && At(s, i) == LBRACE
    ensures ParseObject(s, i) == Ok(Object(RereadMembers(members)), i + |Print(Object(members), depth, fmt)|)
    decreases members, 4
  {
    if members == [] {
      ReadEmptyObject(depth, fmt, s, i);
    } else {
      ReadFullObject(members, depth, fmt, s, i);
    }
  }

  lemma {:induction false} ReadFullObject(members: seq<Member>, depth: nat, fmt: bool, s: Text, i: nat)
    requires members != [] && MembersPrintable(members) && Occurs(Print(Object(members), depth, fmt), s, i)
    requires At(s, i) == LBRACE
    ensures ParseObject(s, i) == Ok(Object(RereadMembers(members)), i + |Print(Object(members), depth, fmt)|)
    decreases members, 3
  {
    hide Occurs, Skip, At, PrintMembers, Print, Printable, MembersPrintable, If, Tabs, Blank, ParseMembers;
    hide ParseObject, EndsNumber;
    var open, close := [LBRACE] + If(fmt, [LF]), If(fmt, Tabs(depth)) + [RBRACE];
    var body := PrintMembers(members, depth + 1, fmt);
    ObjectText(members, depth, fmt);
    OccursSplit3(open, body, close, s, i);
    OccursSplit([LBRACE], If(fmt, [LF]), s, i);
    SkipBlanks(If(fmt, [LF]), s, i + 1);
    SameMembers(s, i + 1, i + |open|);
    FirstOfMembers(members, depth + 1, fmt, s, i + |open|);
    var k := i + |open| + |body|;
    AfterMembers(depth, fmt, s, k);
    ReadMembers(members, depth + 1, fmt, s, i + |open|);
    ParseFullObject(s, i, RereadMembers(members), k + |close|);
  }

  lemma ObjectText(members: seq<Member>, depth: nat, fmt: bool)
    requires members != [] && MembersPrintable(members)
    ensures Print(Object(members), depth, fmt)
         == [LBRACE] + If(fmt, [LF]) + PrintMembers(members, depth + 1, fmt) + (If(fmt, Tabs(depth)) + [RBRACE])
    ensures Blank(If(fmt, [LF]))
  {
    hide PrintMembers, MembersPrintable;
  }

  lemma AfterMembers(depth: nat, fmt: bool, s: Text, k: nat)
    requires Occurs(If(fmt, Tabs(depth)) + [RBRACE], s, k)
    ensures EndsNumber(At(s, k))
    ensures Skip(s, k) == k + |If(fmt, Tabs(depth))| && At(s, Skip(s, k)) == RBRACE
  {
    OccursSplit(If(fmt, Tabs(depth)), [RBRACE], s, k);
    SkipBlanks(If(fmt, Tabs(depth)), s, k);
    OccursFirst([RBRACE], s, k + |If(fmt, Tabs(depth))|);
    OccursFirst(If(fmt, Tabs(depth)) + [RBRACE], s, k);
  }

  lemma EmptyObjectText(depth: nat, fmt: bool)
    ensures var gap := If(fmt, [LF]) + If(fmt, Tabs(depth - 1));
            Print(Object([]), depth, fmt) == [LBRACE] + (gap + [RBRACE]) && Blank(gap)
  {
  }

  lemma ReadEmptyObject(depth: nat, fmt: bool, s: Text, i: nat)
    requires Occurs(Print(Object([]), depth, fmt), s, i) && At(s, i) == LBRACE
    ensures ParseObject(s, i) == Ok(Object([]), i + |Print(Object([]), depth, fmt)|)
  {
    var gap := If(fmt, [LF]) + If(fmt, Tabs(depth - 1));
    EmptyObjectText(depth, fmt);
    hide Print, If, Tabs, Occurs, Blank;
    OccursSplit([LBRACE], gap + [RBRACE], s, i);
    OccursSplit(gap, [RBRACE], s, i + 1);
    SkipBlanks(gap, s, i + 1);
    OccursFirst([RBRACE], s, i + 1 + |gap|);
    SkipNothing(s, i + 1 + |gap|);
  }

  lemma FirstOfMember(m: Member, depth: nat, fmt: bool, s: Text, i: nat)
    requires NulFree(m.name) && Printable(m.value) && Occurs(PrintMember(m, depth, fmt), s, i)
    ensures At(s, Skip(s, i)) == QUOTE
  {
    var a, n := If(fmt, Tabs(depth)), PrintString(m.name);
    OccursSplit(a + n + ([COLON] + If(fmt, [TAB])), Print(m.value, depth, fmt), s, i);
    OccursSplit3(a, n, [COLON] + If(fmt, [TAB]), s, i);
    SkipBlanks(a, s, i);
    OccursFirst(n, s, i + |a|);
    SkipNothing(s, i + |a|);
  }

  lemma FirstOfMembers(members: seq<Member>, depth: nat, fmt: bool, s: Text, i: nat)
    requires members != [] && MembersPrintable(members) && Occurs(PrintMembers(members, depth, fmt), s, i)
    ensures At(s, Skip(s, i)) == QUOTE
  {
    var m := PrintMember(members[0], depth, fmt);
    if |members| == 1 {
      OccursSplit(m, If(fmt, [LF]), s, i);
    } else {
      OccursSplit3(m, [COMMA] + If(fmt, [LF]), PrintMembers(members[1..], depth, fmt), s, i);
    }
    FirstOfMember(members[0], depth, fmt, s, i);
  }

  lemma {:induction false} ReadMember(m: Member, depth: nat, fmt: bool, s: Text, i: nat)
    requires NulFree(m.name) && Printable(m.value) && Occurs(PrintMember(m, depth, fmt), s, i)
    requires MayFollow(m.value, At(s, i + |PrintMember(m, depth, fmt)|))
    ensures ParseMember(s, i) == Ok(RereadMember(m), i + |PrintMember(m, depth, fmt)|)
    decreases m, 1
  {
    hide Occurs, ParseMember, ParseString, ParseValue, Skip, At, Printable, Print, PrintMember, PrintString, If;
    hide Tabs, NulFree, EndsNumber;
    SplitMember(m, depth, fmt, s, i);
    var v := Print(m.value, depth, fmt);
    var k := i + |If(fmt, Tabs(depth))|;
    var e := k + |PrintString(m.name)|;
    ReadString(m.name, s, k);
    FirstByte(m.value, depth, fmt);
    OccursFirst(v, s, i + |PrintMember(m, depth, fmt)| - |v|);
    SkipNothing(s, i + |PrintMember(m, depth, fmt)| - |v|);
    ReadValue(m.value, depth, fmt, s, i + |PrintMember(m, depth, fmt)| - |v|);
    ParseOneMember(s, i, m.name, e, Reread(m.value), i + |PrintMember(m, depth, fmt)|);
  }

  lemma MemberText(m: Member, depth: nat, fmt: bool)
    requires NulFree(m.name) && Printable(m.value)
    ensures PrintMember(m, depth, fmt)
         == If(fmt, Tabs(depth)) + PrintString(m.name) + ([COLON] + If(fmt, [TAB])) + Print(m.value, depth, fmt)
    ensures Blank(If(fmt, Tabs(depth))) && Blank(If(fmt, [TAB]))
    ensures |PrintString(m.name)| > 0 && PrintString(m.name)[0] == QUOTE
  {
    hide Print, Printable, Escape;
  }

  lemma SplitFour(a: Text, n: Text, t: Text, v: Text, s: Text, i: nat)
    requires Occurs(a + n + ([COLON] + t) + v, s, i)
    ensures var k := i + |a|;
            && Occurs(a, s, i) && Occurs(n, s, k) && Occurs([COLON], s, k + |n|) && Occurs(t, s, k + |n| + 1)
            && Occurs(v, s, k + |n| + 1 + |t|)
  {
    hide Occurs;
    OccursSplit(a + n + ([COLON] + t), v, s, i);
    OccursSplit3(a, n, [COLON] + t, s, i);
    OccursSplit([COLON], t, s, i + |a| + |n|);
  }

  lemma SplitMember(m: Member, depth: nat, fmt: bool, s: Text, i: nat)
    requires NulFree(m.name) && Printable(m.value) && Occurs(PrintMember(m, depth, fmt), s, i)
    ensures var n, v := PrintString(m.name), Print(m.value, depth, fmt);
            var k, e := i + |If(fmt, Tabs(depth))|, i + |PrintMember(m, depth, fmt)|;
            && Occurs(n, s, k) && Skip(s, i) == k && k + |n| + 1 + |v| <= e
            && Skip(s, k + |n|) == k + |n| && At(s, k + |n|) == COLON
            && Occurs(v, s, e - |v|) && Skip(s, k + |n| + 1) == Skip(s, e - |v|)
  {
    hide Occurs, Skip, At, PrintMember, PrintString, Print, Printable, If, Tabs, Escape, NulFree, Blank;
    var a, n, t, v := If(fmt, Tabs(depth)), PrintString(m.name), If(fmt, [TAB]), Print(m.value, depth, fmt);
    MemberText(m, depth, fmt);
    SplitFour(a, n, t, v, s, i);
    var k := i + |a|;
    SkipBlanks(a, s, i);
    OccursFirst(n, s, k);
    SkipNothing(s, k);
    OccursFirst([COLON], s, k + |n|);
    SkipNothing(s, k + |n|);
    SkipBlanks(t, s, k + |n| + 1);
  }

  lemma {:induction false} ReadMembers(members: seq<Member>, depth: nat, fmt: bool, s: Text, i: nat)
    requires members != [] && MembersPrintable(members)
    requires Occurs(PrintMembers(members, depth, fmt), s, i)
    requires At(s, Skip(s, i + |PrintMembers(members, depth, fmt)|)) == RBRACE
    requires EndsNumber(At(s, i + |PrintMembers(members, depth, fmt)|))
    ensures ParseMembers(s, i) == Ok(RereadMembers(members), Skip(s, i + |PrintMembers(members, depth, fmt)|) + 1)
    decreases members, 2
  {
    hide Occurs, ParseMembers, ParseMember, PrintMember, Skip, At, Printable, NulFree, EndsNumber;
    hide RereadMember, RereadMembers;
    RereadParts(members);
    var p := PrintMember(members[0], depth, fmt);
    if |members| == 1 {
      FirstAndRest(members);
      SplitLastMember(members, depth, fmt, s, i);
      hide PrintMembers, If;
      BehindLastMember(fmt, s, i + |p|);
      ReadMember(members[0], depth, fmt, s, i);
      ParseLastMember(s, i, RereadMember(members[0]), i + |p|);
    } else {
      var rest, k := PrintMembers(members[1..], depth, fmt), i + |p| + 1 + |If(fmt, [LF])|;
      FirstAndRest(members);
      SplitMembers(members, depth, fmt, s, i);
      hide PrintMembers, If;
      SkipNothing(s, i + |p|);
      CommaEnds(s, i + |p|);
      ReadMember(members[0], depth, fmt, s, i);
      ReadMembers(members[1..], depth, fmt, s, k);
      SameMembers(s, i + |p| + 1, k);
      ParseNextMember(s, i, RereadMember(members[0]), i + |p|, RereadMembers(members[1..]),
                      Skip(s, k + |rest|) + 1);
    }
  }

  lemma BehindLastMember(fmt: bool, s: Text, k: nat)
    requires Occurs(If(fmt, [LF]), s, k) && EndsNumber(At(s, k + |If(fmt, [LF])|))
    ensures Skip(s, k) == Skip(s, k + |If(fmt, [LF])|) && EndsNumber(At(s, k))
  {
    if fmt {
      OccursFirst([LF], s, k);
    }
    SkipBlanks(If(fmt, [LF]), s, k);
  }

  lemma CommaEnds(s: Text, k: nat)
    requires At(s, k) == COMMA
    ensures EndsNumber(At(s, k))
  {
  }

  lemma SplitLastMember(members: seq<Member>, depth: nat, fmt: bool, s: Text, i: nat)
    requires |members| == 1 && MembersPrintable(members) && Occurs(PrintMembers(members, depth, fmt), s, i)
    ensures var p, lf := PrintMember(members[0], depth, fmt), If(fmt, [LF]);
            Occurs(p, s, i) && Occurs(lf, s, i + |p|) && |PrintMembers(members, depth, fmt)| == |p| + |lf|
  {
    hide Occurs, PrintMember, Printable;
    OccursSplit(PrintMember(members[0], depth, fmt), If(fmt, [LF]), s, i);
  }

  lemma SplitMembers(members: seq<Member>, depth: nat, fmt: bool, s: Text, i: nat)
    requires |members| > 1 && MembersPrintable(members) && Occurs(PrintMembers(members, depth, fmt), s, i)
    ensures var p, rest := PrintMember(members[0], depth, fmt), PrintMembers(members[1..], depth, fmt);
            var k := i + |p| + 1 + |If(fmt, [LF])|;
            && Occurs(p, s, i) && At(s, i + |p|) == COMMA && Occurs(rest, s, k)
            && Skip(s, i + |p| + 1) == Skip(s, k) && i + |PrintMembers(members, depth, fmt)| == k + |rest|
  {
    hide Occurs, PrintMember, Printable, Skip;
    var p, sep := PrintMember(members[0], depth, fmt), [COMMA] + If(fmt, [LF]);
    OccursSplit3(p, sep, PrintMembers(members[1..], depth, fmt), s, i);
    OccursSplit([COMMA], If(fmt, [LF]), s, i + |p|);
    OccursFirst([COMMA], s, i + |p|);
    SkipBlanks(If(fmt, [LF]), s, i + |p| + 1);
  }

  // ----- The main result ---------------------------------------------------

  /** Parsing what `cJSON_Print` or `cJSON_PrintUnformatted` gave for `j` succeeds, consumes all of
      the text and gives `j` with its numbers as they are read back, whether or not trailing text is
      allowed; so it gives `j` again exactly if all its numbers come back, as integers of at most 53 bits do. */
  lemma PrintThenParse(j: Json, fmt: bool, requireNullTerminated: bool)
    requires Printable(j)
    ensures ParseWithOpts(Print(j, 0, fmt), requireNullTerminated) == Ok(Reread(j), |Print(j, 0, fmt)|)
    ensures ParseWithOpts(Print(j, 0, fmt), requireNullTerminated) == Ok(j, |Print(j, 0, fmt)|) <==> Survives(j)
    ensures HasSmallIntegers(j) ==> Survives(j)
  {
    var s := Print(j, 0, fmt);
    FirstByte(j, 0, fmt);
    SkipNothing(s, 0);
    ReadValue(j, 0, fmt, s, 0);
    SurvivesExactly(j);
    if HasSmallIntegers(j) {
      SmallIntegersSurvive(j);
    }
  }

  /** The printed form determines what is read back, so values that come back have different texts. */
  lemma PrintIsInjective(j1: Json, j2: Json, fmt: bool)
    requires Printable(j1) && Printable(j2) && Print(j1, 0, fmt) == Print(j2, 0, fmt)
    ensures Reread(j1) == Reread(j2) && (Survives(j1) && Survives(j2) ==> j1 == j2)
  {
    PrintThenParse(j1, fmt, true);
    PrintThenParse(j2, fmt, true);
  }
}
