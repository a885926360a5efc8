/** The minifier relates the two printers: it turns what `cJSON_Print` gives into what
    `cJSON_PrintUnformatted` gives. */
module MinifyPrint {
  import opened Bytes
  import opened Json
  import opened Floats
  import opened Numbers
  import opened Strings
  import opened Minifier

  /** From `i` to `k`, outside literals at both ends, the minifier writes `out`. */
  ghost predicate Gives(s: Text, i: nat, k: nat, out: Text) {
    Closed(s, k) ==> Closed(s, i) && Minify(s, i) == out + Minify(s, k)
  }

  lemma Chain(s: Text, i: nat, j: nat, k: nat, a: Text, b: Text)
    requires Gives(s, i, j, a) && Gives(s, j, k, b)
    ensures Gives(s, i, k, a + b)
  {
    if Closed(s, k) {
      Assoc(a, b, Minify(s, k));
    }
  }

  lemma ChainNothing(s: Text, i: nat, j: nat, k: nat, a: Text)
    requires (Gives(s, i, j, a) && Gives(s, j, k, [])) || (Gives(s, i, j, []) && Gives(s, j, k, a))
    ensures Gives(s, i, k, a)
  {
    if Gives(s, i, j, a) && Gives(s, j, k, []) {
      Chain(s, i, j, k, a, []);
      assert a + [] == a;
    } else {
      Chain(s, i, j, k, [], a);
      assert [] + a == a;
    }
  }

  lemma OneByte(s: Text, i: nat)
    requires IsPlain(At(s, i))
    ensures Gives(s, i, i + 1, [At(s, i)])
  {
  }

  lemma OneSpace(s: Text, i: nat)
    requires IsSpace(At(s, i))
    ensures Gives(s, i, i + 1, [])
  {
  }

  lemma {:induction false} Plains(w: Text, s: Text, i: nat)
    requires Occurs(w, s, i) && forall k :: 0 <= k < |w| ==> IsPlain(w[k])
    ensures Gives(s, i, i + |w|, w)
    decreases |w|
  {
    if w != [] {
      assert s[i] == w[0];
      assert Occurs(w[1..], s, i + 1);
      Plains(w[1..], s, i + 1);
      OneByte(s, i);
      Chain(s, i, i + 1, i + |w|, [w[0]], w[1..]);
      assert w == [w[0]] + w[1..];
    }
  }

  lemma {:induction false} Spaces(w: Text, s: Text, i: nat)
    requires Occurs(w, s, i) && forall k :: 0 <= k < |w| ==> IsSpace(w[k])
    ensures Gives(s, i, i + |w|, [])
    decreases |w|
  {
    if w != [] {
      assert s[i] == w[0];
      assert Occurs(w[1..], s, i + 1);
      Spaces(w[1..], s, i + 1);
      OneSpace(s, i);
      Chain(s, i, i + 1, i + |w|, [], []);
    }
  }

  /** A separator: one byte, and in the formatted form a blank. */
  lemma Separator(b: byte, blank: Text, s: Text, i: nat)
    requires IsPlain(b) && Occurs([b] + blank, s, i) && forall k :: 0 <= k < |blank| ==> IsSpace(blank[k])
    ensures Gives(s, i, i + 1 + |blank|, [b])
  {
    OccursSplit([b], blank, s, i);
    Plains([b], s, i);
    Spaces(blank, s, i + 1);
    ChainNothing(s, i, i + 1, i + 1 + |blank|, [b]);
  }

  /** The unformatted form has no blanks. */
  lemma NoBlank(a: Text, b: Text)
    ensures a + If(false, b) == a && If(false, b) + a == a
  {
  }

  // ----- Literals ----------------------------------------------------------

  /** The body of a printed literal ends at the quote that was printed after it. */
  lemma {:induction false} EscapedBody(t: Text, s: Text, p: nat)
    requires NulFree(t) && Occurs(Escape(t) + [QUOTE], s, p)
    ensures ClosedLiteral(s, p) && LiteralStop(s, p) == p + |Escape(t)| + 1
    decreases |t|
  {
    if t == [] {
      assert s[p] == (Escape(t) + [QUOTE])[0];
    } else {
      var e := EscapeByte(t[0]);
      assert Escape(t) + [QUOTE] == e + (Escape(t[1..]) + [QUOTE]);
      OccursSplit(e, Escape(t[1..]) + [QUOTE], s, p);
      EscapedBody(t[1..], s, p + |e|);
      EscapedByte(t[0], s, p);
    }
  }

  lemma EscapedByte(b: byte, s: Text, p: nat)
    requires b != 0 && Occurs(EscapeByte(b), s, p) && ClosedLiteral(s, p + |EscapeByte(b)|)
    ensures ClosedLiteral(s, p) && LiteralStop(s, p) == LiteralStop(s, p + |EscapeByte(b)|)
  {
    assert s[p] == EscapeByte(b)[0];
    if |EscapeByte(b)| == 2 {
      assert s[p + 1] == EscapeByte(b)[1];
    } else if |EscapeByte(b)| == 6 {
      forall k | 0 <= k < 6 ensures s[p + k] == EscapeByte(b)[k] {}
      assert ClosedLiteral(s, p + 5) && LiteralStop(s, p + 5) == LiteralStop(s, p + 6);
      assert ClosedLiteral(s, p + 4) && LiteralStop(s, p + 4) == LiteralStop(s, p + 6);
      assert ClosedLiteral(s, p + 3) && LiteralStop(s, p + 3) == LiteralStop(s, p + 6);
      assert ClosedLiteral(s, p + 2) && LiteralStop(s, p + 2) == LiteralStop(s, p + 6);
    }
  }

  lemma OccursSlice(p: Text, s: Text, i: nat)
    requires Occurs(p, s, i) && p != []
    ensures At(s, i) == p[0] && i + |p| <= |s| && s[i..i + |p|] == p
  {
    assert s[i] == p[0];
  }

  /** Whatever the string holds, a printed literal is copied as it is. */
  lemma Literal(t: Text, s: Text, i: nat)
    requires NulFree(t) && Occurs(PrintString(t), s, i)
    ensures Gives(s, i, i + |PrintString(t)|, PrintString(t))
  {
    hide Escape, NulFree;
    var p := PrintString(t);
    assert p == [QUOTE] + (Escape(t) + [QUOTE]);
    OccursSplit([QUOTE], Escape(t) + [QUOTE], s, i);
    EscapedBody(t, s, i + 1);
    OccursSlice(p, s, i);
    hide PrintString, Occurs;
  }

  // ----- Values ------------------------------------------------------------

  /** A printed number is copied as it is. */
  lemma NumberIsPlain(v: real)
    ensures forall k :: 0 <= k < |PrintNumber(v)| ==> IsPlain(PrintNumber(v)[k])
  {
    NumberBytes(Truncate(v), v);
  }

  /** Minifying the formatted form of a value gives its unformatted form. */
  lemma {:induction false} Value(j: Json, d: nat, s: Text, i: nat)
    requires Printable(j) && Occurs(Print(j, d, true), s, i)
    ensures Gives(s, i, i + |Print(j, d, true)|, Print(j, d, false))
    decreases j, 2
  {
    hide Gives, Occurs, PrintItems, PrintMembers, Escape, PrintNumber;
    match j
    case Number(v) =>
      NumberIsPlain(v);
      Plains(Print(j, d, true), s, i);
    case String(t) => Literal(t, s, i);
    case Array(items) =>
      if items == [] {
        Plains(Print(j, d, true), s, i);
      } else {
        FullArray(items, d, s, i);
      }
    case Object(members) =>
      if members == [] {
        EmptyObject(d, s, i);
      } else {
        FullObject(members, d, s, i);
      }
    case _ => Plains(Print(j, d, true), s, i);
  }

  lemma {:induction false} FullArray(items: seq<Json>, d: nat, s: Text, i: nat)
    requires items != [] && AllPrintable(items) && Occurs(Print(Array(items), d, true), s, i)
    ensures Gives(s, i, i + |Print(Array(items), d, true)|, Print(Array(items), d, false))
    decreases items, 4
  {
    var body, out := PrintItems(items, d + 1, true), PrintItems(items, d + 1, false);
    OccursSplit([LBRACKET] + body, [RBRACKET], s, i);
    OccursSplit([LBRACKET], body, s, i);
    hide Occurs, Gives, PrintItems, AllPrintable;
    Plains([LBRACKET], s, i);
    Items(items, d + 1, s, i + 1);
    var k := i + 1 + |body|;
    Plains([RBRACKET], s, k);
    Chain(s, i, i + 1, k, [LBRACKET], out);
    Chain(s, i, k, k + 1, [LBRACKET] + out, [RBRACKET]);
  }

  lemma {:induction false} Items(items: seq<Json>, d: nat, s: Text, i: nat)
    requires items != [] && AllPrintable(items) && Occurs(PrintItems(items, d, true), s, i)
    ensures Gives(s, i, i + |PrintItems(items, d, true)|, PrintItems(items, d, false))
    decreases items, 3
  {
    hide Occurs, Gives, Printable, Print;
    var p, q := Print(items[0], d, true), Print(items[0], d, false);
    if |items| == 1 {
      Value(items[0], d, s, i);
    } else {
      var sep, rest := [COMMA] + If(true, [SPACE]), PrintItems(items[1..], d, true);
      OccursSplit(p + sep, rest, s, i);
      OccursSplit(p, sep, s, i);
      Value(items[0], d, s, i);
      Separator(COMMA, [SPACE], s, i + |p|);
      var k := i + |p| + |sep|;
      Items(items[1..], d, s, k);
      Chain(s, i, i + |p|, k, q, [COMMA]);
      Chain(s, i, k, k + |rest|, q + [COMMA], PrintItems(items[1..], d, false));
      NoBlank([COMMA], [SPACE]);
    }
  }

  lemma EmptyText(d: nat)
    ensures var gap := If(true, [LF]) + If(true, Tabs(d - 1));
            && Print(Object([]), d, true) == [LBRACE] + (gap + [RBRACE])
            && (forall k :: 0 <= k < |gap| ==> IsSpace(gap[k]))
    ensures Print(Object([]), d, false) == [LBRACE] + [RBRACE]
  {
  }

  lemma EmptyObject(d: nat, s: Text, i: nat)
    requires Occurs(Print(Object([]), d, true), s, i)
    ensures Gives(s, i, i + |Print(Object([]), d, true)|, Print(Object([]), d, false))
  {
    var gap := If(true, [LF]) + If(true, Tabs(d - 1));
    EmptyText(d);
    hide Print, If, Tabs;
    OccursSplit([LBRACE], gap + [RBRACE], s, i);
    OccursSplit(gap, [RBRACE], s, i + 1);
    hide Occurs, Gives;
    Plains([LBRACE], s, i);
    Spaces(gap, s, i + 1);
    Plains([RBRACE], s, i + 1 + |gap|);
    ChainNothing(s, i, i + 1, i + 1 + |gap|, [LBRACE]);
    Chain(s, i, i + 1 + |gap|, i + 2 + |gap|, [LBRACE], [RBRACE]);
  }

  lemma {:induction false} FullObject(members: seq<Member>, d: nat, s: Text, i: nat)
    requires members != [] && MembersPrintable(members) && Occurs(Print(Object(members), d, true), s, i)
    ensures Gives(s, i, i + |Print(Object(members), d, true)|, Print(Object(members), d, false))
    decreases members, 4
  {
    hide Occurs, Gives, PrintMembers, MembersPrintable, Printable, Tabs;
    var body, out := PrintMembers(members, d + 1, true), PrintMembers(members, d + 1, false);
    var open, close := [LBRACE] + If(true, [LF]), If(true, Tabs(d)) + [RBRACE];
    OccursSplit(open + body, close, s, i);
    OccursSplit(open, body, s, i);
    UnformattedObject(members, d);
    hide Print, Tabs;
    var k := i + |open| + |body|;
    Separator(LBRACE, [LF], s, i);
    Members(members, d + 1, s, i + |open|);
    CloseObject(d, s, k);
    Chain(s, i, i + |open|, k, [LBRACE], out);
    Chain(s, i, k, k + |close|, [LBRACE] + out, [RBRACE]);
  }

  lemma UnformattedObject(members: seq<Member>, d: nat)
    requires members != [] && MembersPrintable(members)
    ensures Print(Object(members), d, false) == [LBRACE] + PrintMembers(members, d + 1, false) + [RBRACE]
    ensures |Print(Object(members), d, true)| == 2 + |PrintMembers(members, d + 1, true)| + |Tabs(d)| + 1
  {
    hide PrintMembers, Tabs;
    NoBlank([LBRACE], [LF]);
    NoBlank([RBRACE], Tabs(d));
  }

  lemma CloseObject(d: nat, s: Text, k: nat)
    requires Occurs(If(true, Tabs(d)) + [RBRACE], s, k)
    ensures Gives(s, k, k + |Tabs(d)| + 1, [RBRACE])
  {
    OccursSplit(Tabs(d), [RBRACE], s, k);
    Spaces(Tabs(d), s, k);
    Plains([RBRACE], s, k + |Tabs(d)|);
    ChainNothing(s, k, k + |Tabs(d)|, k + |Tabs(d)| + 1, [RBRACE]);
  }

  lemma UnformattedMember(m: Member, d: nat)
    requires NulFree(m.name) && Printable(m.value)
    ensures PrintMember(m, d, false) == PrintString(m.name) + [COLON] + Print(m.value, d, false)
  {
    hide Print, Tabs, PrintString;
    NoBlank(PrintString(m.name), Tabs(d));
    NoBlank([COLON], [TAB]);
  }

  lemma SplitMember(m: Member, d: nat, s: Text, i: nat)
    requires NulFree(m.name) && Printable(m.value) && Occurs(PrintMember(m, d, true), s, i)
    ensures var a, n, v := Tabs(d), PrintString(m.name), Print(m.value, d, true);
            var k := i + |a| + |n|;
            && Occurs(a, s, i) && Occurs(n, s, i + |a|) && Occurs([COLON] + [TAB], s, k) && Occurs(v, s, k + 2)
            && i + |PrintMember(m, d, true)| == k + 2 + |v|
  {
    hide Occurs, Print, PrintString, Tabs;
    var a, n, c, v := If(true, Tabs(d)), PrintString(m.name), [COLON] + If(true, [TAB]), Print(m.value, d, true);
    OccursSplit(a + n + c, v, s, i);
    OccursSplit(a + n, c, s, i);
    OccursSplit(a, n, s, i);
  }

  lemma {:induction false} OneMember(m: Member, d: nat, s: Text, i: nat)
    requires NulFree(m.name) && Printable(m.value) && Occurs(PrintMember(m, d, true), s, i)
    ensures Gives(s, i, i + |PrintMember(m, d, true)|, PrintMember(m, d, false))
    decreases m, 1
  {
    hide Occurs, Gives, Printable, Print, PrintString, PrintMember, Tabs;
    var a, n, v := Tabs(d), PrintString(m.name), Print(m.value, d, true);
    var k := i + |a| + |n|;
    SplitMember(m, d, s, i);
    UnformattedMember(m, d);
    Spaces(a, s, i);
    Literal(m.name, s, i + |a|);
    Separator(COLON, [TAB], s, k);
    Value(m.value, d, s, k + 2);
    ChainNothing(s, i, i + |a|, k, n);
    Chain(s, i, k, k + 2, n, [COLON]);
    Chain(s, i, k + 2, k + 2 + |v|, n + [COLON], Print(m.value, d, false));
  }

  lemma {:induction false} Members(members: seq<Member>, d: nat, s: Text, i: nat)
    requires members != [] && MembersPrintable(members) && Occurs(PrintMembers(members, d, true), s, i)
    ensures Gives(s, i, i + |PrintMembers(members, d, true)|, PrintMembers(members, d, false))
    decreases members, 3
  {
    hide Occurs, Gives, Printable, PrintMember;
    var p, q := PrintMember(members[0], d, true), PrintMember(members[0], d, false);
    if |members| == 1 {
      OccursSplit(p, If(true, [LF]), s, i);
      OneMember(members[0], d, s, i);
      Spaces([LF], s, i + |p|);
      ChainNothing(s, i, i + |p|, i + |p| + 1, q);
      NoBlank(q, [LF]);
    } else {
      var sep, rest := [COMMA] + If(true, [LF]), PrintMembers(members[1..], d, true);
      OccursSplit(p + sep, rest, s, i);
      OccursSplit(p, sep, s, i);
      OneMember(members[0], d, s, i);
      Separator(COMMA, [LF], s, i + |p|);
      var k := i + |p| + |sep|;
      Members(members[1..], d, s, k);
      Chain(s, i, i + |p|, k, q, [COMMA]);
      Chain(s, i, k, k + |rest|, q + [COMMA], PrintMembers(members[1..], d, false));
      NoBlank([COMMA], [LF]);
    }
  }

  // ----- The main result ---------------------------------------------------

  lemma WholeText(s: Text, out: Text)
    requires Gives(s, 0, |s|, out)
    ensures Closed(s, 0) && Minify(s, 0) == out
  {
    assert Minify(s, |s|) == [] && out + [] == out;
  }

  /** `cJSON_Minify` of `cJSON_Print(j)` is `cJSON_PrintUnformatted(j)`. */
  lemma MinifyUndoesFormatting(j: Json)
    requires Printable(j)
    ensures Closed(Print(j, 0, true), 0)
    ensures Minify(Print(j, 0, true), 0) == Print(j, 0, false)
  {
    hide Print, Occurs, Gives, Printable;
    var s := Print(j, 0, true);
    OccursWhole(s);
    Value(j, 0, s, 0);
    WholeText(s, Print(j, 0, false));
  }
}
