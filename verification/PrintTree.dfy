/** `print_value`: the text of a tree, in a buffer of the size computed beforehand. */
module PrintTree {
  import opened Bytes
  import opened Floats
  import opened Json
  import opened Numbers
  import opened Strings
  import opened Memory
  import opened ParseTree
  import opened PrintText
  import opened PrintedTree

  // ----- Arrays of buffers -------------------------------------------------

  /** The buffers that are not null. */
  ghost function Bufs(a: seq<array?<byte>>): set<object> {
    if a == [] then {} else (if a[0] == null then {} else {a[0]}) + Bufs(a[1..])
  }

  ghost predicate NoneTwice(a: seq<array?<byte>>) {
    a != [] ==> (a[0] != null ==> a[0] !in Bufs(a[1..])) && NoneTwice(a[1..])
  }

  /** The buffers hold the texts, one by one. */
  ghost predicate HoldAll(a: seq<array?<byte>>, texts: seq<Text>)
    reads Bufs(a)
  {
    |a| == |texts| && (a != [] ==> a[0] != null && Holds(a[0], texts[0]) && HoldAll(a[1..], texts[1..]))
  }

  lemma {:induction false} BufsSnoc(a: seq<array?<byte>>, x: array?<byte>)
    ensures Bufs(a + [x]) == Bufs(a) + if x == null then {} else {x}
    ensures NoneTwice(a) && (x != null ==> x !in Bufs(a)) ==> NoneTwice(a + [x])
    decreases |a|
  {
    if a == [] {
      assert a + [x] == [x];
    } else {
      assert (a + [x])[1..] == a[1..] + [x];
      BufsSnoc(a[1..], x);
    }
  }

  lemma {:induction false} HoldAllSnoc(a: seq<array?<byte>>, x: array<byte>, texts: seq<Text>, t: Text)
    requires HoldAll(a, texts) && Holds(x, t)
    ensures HoldAll(a + [x], texts + [t])
    decreases |a|
  {
    if a == [] {
      assert a + [x] == [x];
    } else {
      assert (a + [x])[1..] == a[1..] + [x] && (texts + [t])[1..] == texts[1..] + [t];
      HoldAllSnoc(a[1..], x, texts[1..], t);
    }
  }

  lemma {:induction false} BufsAllocated(a: seq<array?<byte>>)
    ensures forall o :: o in Bufs(a) ==> allocated(o)
    decreases |a|
  {
    if a != [] {
      assert allocated(a[0]);
      BufsAllocated(a[1..]);
    }
  }

  /** An array of pointers is not one of the buffers. */
  lemma {:induction false} PointersApart(a: seq<array?<byte>>, entries: array<array?<byte>>)
    ensures entries !in Bufs(a)
    decreases |a|
  {
    if a != [] {
      PointersApart(a[1..], entries);
    }
  }

  lemma {:induction false} NullsAreNothing(a: seq<array?<byte>>, nulls: seq<array?<byte>>)
    requires forall k :: 0 <= k < |nulls| ==> nulls[k] == null
    ensures Bufs(a + nulls) == Bufs(a) && (NoneTwice(a) ==> NoneTwice(a + nulls))
    decreases |nulls|
  {
    if nulls == [] {
      assert a + nulls == a;
    } else {
      assert a + nulls == (a + [nulls[0]]) + nulls[1..];
      BufsSnoc(a, nulls[0]);
      NullsAreNothing(a + [nulls[0]], nulls[1..]);
    }
  }

  /** Frees the buffers that are there. */
  method FreeAll(h: Heap, entries: array<array?<byte>>)
    requires NoneTwice(entries[..]) && Bufs(entries[..]) <= h.live
    modifies h`live
    ensures h.live == old(h.live) - Bufs(entries[..])
  {
    var i := 0;
    assert entries[0..] == entries[..];
    while i < entries.Length
      invariant i <= entries.Length && NoneTwice(entries[i..]) && Bufs(entries[i..]) <= h.live
      invariant h.live - Bufs(entries[i..]) == old(h.live) - Bufs(entries[..])
    {
      assert entries[i..][1..] == entries[i + 1..];
      if entries[i] != null {
        h.Free(entries[i]);
      }
      i := i + 1;
    }
  }

  // ----- Sizes of lists ----------------------------------------------------

  /** The lengths of the texts, with `extra` bytes for each. */
  ghost function Total(texts: seq<Text>, extra: nat): nat {
    if texts == [] then 0 else |texts[0]| + extra + Total(texts[1..], extra)
  }

  // ----- The printer -------------------------------------------------------

  /** What a printing method promises: the text in a new buffer, or nothing left behind. */
  twostate predicate Printed(h: Heap, new out: array?<byte>, text: Text)
    reads h, if out == null then {} else {out}
  {
    if out == null then h.OutOfMemory() && h.live == old(h.live)
    else fresh(out) && Holds(out, text) && h.live == old(h.live) + {out} && h.Refused() == old(h.Refused())
  }

  /** `cJSON_strdup` of a constant. */
  method PrintWord(h: Heap, w: Text) returns (out: array?<byte>)
    requires NulFree(w)
    modifies h`asked, h`live
    ensures Printed(h, out, w)
  {
    out := h.Bytes(|w| + 1);
    if out != null {
      var ptr := Sprint(out, 0, w);
    }
  }

  /** `print_string_ptr`: an empty text for a null pointer. */
  method PrintStringOf(h: Heap, str: array?<byte>, ghost o: Owner) returns (out: array?<byte>)
    requires str == Field(o) && OwnerHolds(o)
    modifies h`asked, h`live
    ensures Printed(h, out, StringText(o)) && (out != null && o.None? ==> Holds(out, []))
  {
    if str == null {
      out := PrintWord(h, []);
    } else {
      out := PrintStringPtr(h, str, o.text);
    }
  }

  /** `print_value`. */
  method PrintValue(h: Heap, item: Node, depth: nat, fmt: bool, ghost t: Tree) returns (out: array?<byte>)
    requires item == t.node && Shown(t) && Finite(t) && h !in h.live && h !in Owned(t)
    modifies h`asked, h`live
    ensures Printed(h, out, TreeText(t, depth, fmt))
    decreases t, 3
  {
    match item.kind {
      case IsNull => out := PrintWord(h, NULL_WORD);
      case IsFalse => out := PrintWord(h, FALSE_WORD);
      case IsTrue => out := PrintWord(h, TRUE_WORD);
      case IsNumber => out := PrintNumberText(h, item);
      case IsString => out := PrintStringOf(h, item.valuestring, t.text);
      case IsArray => out := PrintArray(h, item, depth, fmt, t);
      case IsObject => out := PrintObject(h, item, depth, fmt, t);
    }
  }

  /** The loop that counts the children. */
  method CountChildren(item: Node, ghost t: Tree) returns (n: nat)
    requires item == t.node && Shown(t)
    ensures n == |t.kids|
  {
    var child := item.child;
    ghost var rest := t.kids;
    n := 0;
    while child != null
      invariant child == Head(rest, null) && ShownAll(rest) && n + |rest| == |t.kids|
      decreases |rest|
    {
      n, child, rest := n + 1, child.next, rest[1..];
    }
  }

  /** `print_array`. */
  method PrintArray(h: Heap, item: Node, depth: nat, fmt: bool, ghost t: Tree) returns (out: array?<byte>)
    requires item == t.node && Shown(t) && Finite(t) && h !in h.live && h !in Owned(t) && t.kind == IsArray
    modifies h`asked, h`live
    ensures Printed(h, out, TreeText(t, depth, fmt))
    decreases t, 2
  {
    TreeAllocated(t);
    out := null;
    var numentries := CountChildren(item, t);
    if numentries == 0 {
      out := PrintWord(h, [LBRACKET, RBRACKET]);
    } else {
      out := PrintFullArray(h, item, depth, fmt, numentries, t);
    }
  }

  lemma ArrayText(t: Tree, depth: nat, fmt: bool)
    requires t.kind == IsArray && t.kids != [] && Shown(t)
    ensures var texts := Texts(t.kids, depth + 1, fmt);
            && texts != [] && NulFree(TreeText(t, depth, fmt))
            && TreeText(t, depth, fmt) == [LBRACKET] + Joined(texts, Sep(fmt)) + [RBRACKET]
  {
    TextIsNulFree(t, depth, fmt);
    hide Joined, Texts, NulFree, Shown;
  }

  /** The loop that prints the items: the children in `rest` are still to be printed, the texts of
      the others are in the buffers `done`, and `len` counts their sizes. */
  ghost predicate Items(rest: seq<Tree>, texts: seq<Text>, done: seq<array?<byte>>, len: nat, all: seq<Text>,
                        depth: nat, fmt: bool)
    reads OwnedAll(rest), Bufs(done)
  {
    && ShownAll(rest) && FiniteAll(rest) && HoldAll(done, texts)
    && texts + Texts(rest, depth, fmt) == all
    && len + Total(Texts(rest, depth, fmt), Extra(fmt)) == 5 + Total(all, Extra(fmt))
  }

  /** What `print_array` adds to the length of each item. */
  function Extra(fmt: bool): nat {
    if fmt then 3 else 2
  }

  lemma ItemsStep(rest: seq<Tree>, texts: seq<Text>, done: seq<array?<byte>>, len: nat, all: seq<Text>, depth: nat,
                  fmt: bool, b: array<byte>)
    requires rest != [] && Items(rest, texts, done, len, all, depth, fmt)
    requires Holds(b, TreeText(rest[0], depth, fmt))
    ensures var text := TreeText(rest[0], depth, fmt);
            Items(rest[1..], texts + [text], done + [b], len + |text| + Extra(fmt), all, depth, fmt)
  {
    var text := TreeText(rest[0], depth, fmt);
    hide TreeText, Shown, Finite;
    HoldAllSnoc(done, b, texts, text);
    Regroup(texts, text, Texts(rest[1..], depth, fmt));
  }

  lemma Regroup(a: seq<Text>, t: Text, b: seq<Text>)
    ensures a + ([t] + b) == a + [t] + b && ([t] + b)[1..] == b
  {
  }

  lemma FirstChild(rest: seq<Tree>, texts: seq<Text>, done: seq<array?<byte>>, len: nat, all: seq<Text>, depth: nat,
                   fmt: bool)
    requires rest != [] && Items(rest, texts, done, len, all, depth, fmt)
    ensures Shown(rest[0]) && Finite(rest[0]) && rest[0].node.next == Head(rest[1..], null)
    ensures Owned(rest[0]) <= OwnedAll(rest) && OwnedAll(rest[1..]) <= OwnedAll(rest)
  {
  }

  /** Prints one child into the next entry. */
  method CollectNext(h: Heap, child: Node, depth: nat, fmt: bool, entries: array<array?<byte>>, i: nat, len0: nat,
                     ghost rest: seq<Tree>, ghost texts0: seq<Text>, ghost all: seq<Text>)
    returns (len: nat, fail: bool, ghost texts: seq<Text>)
    requires rest != [] && child == rest[0].node && i < entries.Length
    requires Items(rest, texts0, entries[..i], len0, all, depth, fmt)
    requires h !in h.live && h !in OwnedAll(rest) && entries !in OwnedAll(rest)
    requires NoneTwice(entries[..i]) && Bufs(entries[..i]) <= h.live
    modifies h`asked, h`live, entries
    ensures entries[..i + 1] == old(entries[..i]) + [entries[i]]
            && forall k :: i < k < entries.Length ==> entries[k] == old(entries[k])
    ensures NoneTwice(entries[..i + 1]) && h !in h.live
    ensures h.live == old(h.live) + Bufs(entries[..i + 1]) && (entries[i] != null ==> fresh(entries[i]))
    ensures Bufs(entries[..i + 1]) == old(Bufs(entries[..i])) + if entries[i] == null then {} else {entries[i]}
    ensures fail ==> h.OutOfMemory()
    ensures !fail ==> Items(rest[1..], texts, entries[..i + 1], len, all, depth, fmt) && h.Refused() == old(h.Refused())
    decreases rest, 4
  {
    hide NoneTwice, Bufs, HoldAll, Items, Owned, OwnedAll, Shown, Finite, TreeText;
    FirstChild(rest, texts0, entries[..i], len0, all, depth, fmt);
    AllAllocated(rest);
    BufsAllocated(entries[..i]);
    PointersApart(entries[..i], entries);
    texts, len := texts0, len0;
    ghost var done := entries[..i];
    var ret := PrintValue(h, child, depth, fmt, rest[0]);
    fail := ret == null;
    entries[i] := ret;
    BufsSnoc(done, ret);
    assert entries[..i + 1] == done + [ret];
    if !fail {
      ghost var text := TreeText(rest[0], depth, fmt);
      ItemsStep(rest, texts0, done, len0, all, depth, fmt, ret);
      var n := StrLen(ret, text);
      len, texts := len0 + n + Extra(fmt), texts0 + [text];
    }
  }

  /** Prints the items one after the other until one fails: `len` is the size that their text takes. */
  method CollectItems(h: Heap, item: Node, depth: nat, fmt: bool, entries: array<array?<byte>>, ghost t: Tree)
    returns (len: nat, fail: bool, ghost texts: seq<Text>)
    requires item == t.node && Shown(t) && Finite(t) && h !in h.live && h !in Owned(t) && t.kind == IsArray
    requires entries.Length == |t.kids| && entries !in Owned(t)
    requires forall k :: 0 <= k < entries.Length ==> entries[k] == null
    modifies h`asked, h`live, entries
    ensures NoneTwice(entries[..]) && fresh(Bufs(entries[..])) && h.live == old(h.live) + Bufs(entries[..])
            && h !in h.live
    ensures fail ==> h.OutOfMemory()
    ensures !fail ==>
              && texts == Texts(t.kids, depth, fmt) && HoldAll(entries[..], texts)
              && len == 5 + Total(texts, Extra(fmt)) && h.Refused() == old(h.Refused())
    decreases t.kids, 5
  {
    hide NoneTwice, Bufs, HoldAll, Items, Total, Owned, OwnedAll, Texts;
    len, fail, texts := 5, false, [];
    var child, i := item.child, 0;
    ghost var rest, all := t.kids, Texts(t.kids, depth, fmt);
    StartItems(t, depth, fmt);
    assert entries[..0] == [];
    while child != null && !fail
      invariant i <= entries.Length && (forall k :: i <= k < entries.Length ==> entries[k] == null)
      invariant NoneTwice(entries[..i]) && fresh(Bufs(entries[..i])) && h.live == old(h.live) + Bufs(entries[..i])
                && h !in h.live
      invariant fail ==> h.OutOfMemory()
      invariant !fail ==>
                  && i + |rest| == entries.Length && rest == t.kids[i..] && child == Head(rest, null)
                  && Items(rest, texts, entries[..i], len, all, depth, fmt)
                  && h.Refused() == old(h.Refused()) && h !in OwnedAll(rest) && entries !in OwnedAll(rest)
      decreases entries.Length - i, !fail
    {
      FirstChild(rest, texts, entries[..i], len, all, depth, fmt);
      AllAllocated(rest);
      var next := child.next;
      len, fail, texts := CollectNext(h, child, depth, fmt, entries, i, len, rest, texts, all);
      i, child, rest := i + 1, next, rest[1..];
    }
    assert entries[..] == entries[..i] + entries[i..];
    NullsAreNothing(entries[..i], entries[i..]);
    if !fail {
      assert rest == [] && entries[..i] == entries[..];
      EndItems(texts, entries[..], len, all, depth, fmt);
    }
  }

  lemma StartItems(t: Tree, depth: nat, fmt: bool)
    requires Shown(t) && Finite(t) && t.kind == IsArray
    ensures Items(t.kids, [], [], 5, Texts(t.kids, depth, fmt), depth, fmt)
    ensures OwnedAll(t.kids) <= Owned(t) && Bufs([]) == {} && NoneTwice([])
  {
    var all := Texts(t.kids, depth, fmt);
    assert [] + all == all;
  }

  lemma EndItems(texts: seq<Text>, done: seq<array?<byte>>, len: nat, all: seq<Text>, depth: nat, fmt: bool)
    requires Items([], texts, done, len, all, depth, fmt)
    ensures texts == all && len == 5 + Total(all, Extra(fmt)) && HoldAll(done, texts)
  {
    assert Texts([], depth, fmt) == [];
    assert texts + [] == texts;
  }

  /** `print_array` when there are items. */
  method PrintFullArray(h: Heap, item: Node, depth: nat, fmt: bool, numentries: nat, ghost t: Tree)
    returns (out: array?<byte>)
    requires item == t.node && Shown(t) && Finite(t) && h !in h.live && h !in Owned(t) && t.kind == IsArray
    requires numentries == |t.kids| > 0
    modifies h`asked, h`live
    ensures Printed(h, out, TreeText(t, depth, fmt))
    decreases t, 1
  {
    hide NoneTwice, Bufs, HoldAll, Total, Joined, Texts, Owned, OwnedAll, Finite, TreeText;
    TreeAllocated(t);
    ArrayText(t, depth, fmt);
    out := null;
    var entries := h.Pointers(numentries);
    if entries == null {
      return;
    }
    var len, fail;
    ghost var texts;
    len, fail, texts := CollectItems(h, item, depth + 1, fmt, entries, t);
    BufsAllocated(entries[..]);
    PointersApart(entries[..], entries);
    if !fail {
      out := h.Bytes(len);
    }
    if out == null {
      FreeAll(h, entries);
      h.Free(entries);
      return;
    }
    ComposeArray(h, out, entries, fmt, texts);
  }

  // ----- Composing an array ------------------------------------------------

  /** The loop that copies the texts into the output buffer and frees them. */
  ghost predicate Composing(h: Heap, out: array<byte>, ptr: nat, start: Text, rest: seq<array?<byte>>,
                            texts: seq<Text>, all: Text, fmt: bool)
    reads h, out, Bufs(rest)
  {
    && NoneTwice(rest) && Bufs(rest) <= h.live && out !in Bufs(rest) && HoldAll(rest, texts)
    && ptr + Total(texts, Extra(fmt)) + 4 <= out.Length
    && out[..ptr] + Joined(texts, Sep(fmt)) == start + all
  }

  /** Copies one text behind the ones before it, with a separator if more follow, and frees it. */
  method ComposeNext(h: Heap, out: array<byte>, at: nat, fmt: bool, entries: array<array?<byte>>, i: nat,
                     ghost start: Text, ghost texts: seq<Text>, ghost all: Text)
    returns (ptr: nat)
    requires i < entries.Length && Composing(h, out, at, start, entries[i..], texts, all, fmt) && h !in h.live
             && texts != []
    modifies h`live, out
    ensures Composing(h, out, ptr, start, entries[i + 1..], texts[1..], all, fmt)
    ensures entries[i] != null && h.live == old(h.live) - {entries[i]}
    ensures Bufs(entries[i..]) == {entries[i]} + Bufs(entries[i + 1..]) && entries[i] !in Bufs(entries[i + 1..])
  {
    hide Joined, Total;
    assert entries[i..][0] == entries[i] && entries[i..][1..] == entries[i + 1..];
    BufsAllocated(entries[i..]);
    TotalStep(texts, Extra(fmt));
    JoinedStep(texts, Sep(fmt));
    ghost var before := out[..at];
    ptr := Append(out, at, entries[i], texts[0]);
    if i != entries.Length - 1 {
      ghost var middle := out[..ptr];
      ptr := PutSeparator(out, ptr, fmt);
      Assoc3(before, texts[0], Sep(fmt), Joined(texts[1..], Sep(fmt)));
    }
    h.Free(entries[i]);
  }

  method PutSeparator(out: array<byte>, at: nat, fmt: bool) returns (ptr: nat)
    requires at + |Sep(fmt)| <= out.Length
    modifies out
    ensures ptr == at + |Sep(fmt)| && out[..ptr] == old(out[..at]) + Sep(fmt)
  {
    ptr := Put(out, at, COMMA);
    if fmt {
      ptr := Put(out, ptr, SPACE);
    }
  }

  lemma TotalStep(texts: seq<Text>, extra: nat)
    requires texts != []
    ensures Total(texts, extra) == |texts[0]| + extra + Total(texts[1..], extra)
  {
  }

  lemma JoinedStep(texts: seq<Text>, sep: Text)
    requires texts != []
    ensures Joined(texts, sep) == if |texts| == 1 then texts[0] else texts[0] + sep + Joined(texts[1..], sep)
    ensures |texts| == 1 ==> Joined(texts[1..], sep) == [] && texts[0] + [] == texts[0]
  {
  }

  lemma Assoc3(a: Text, b: Text, c: Text, d: Text)
    ensures a + (b + c + d) == a + b + c + d
  {
  }

  lemma StartComposing(h: Heap, out: array<byte>, entries: seq<array?<byte>>, texts: seq<Text>, fmt: bool)
    requires NoneTwice(entries) && Bufs(entries) <= h.live && out !in Bufs(entries) && HoldAll(entries, texts)
    requires out.Length == 5 + Total(texts, Extra(fmt)) && out[..1] == [LBRACKET]
    ensures |entries| == |texts| && Composing(h, out, 1, [LBRACKET], entries, texts, Joined(texts, Sep(fmt)), fmt)
  {
  }

  lemma EndComposing(h: Heap, out: array<byte>, ptr: nat, start: Text, rest: seq<array?<byte>>, texts: seq<Text>,
                     all: Text, fmt: bool)
    requires rest == [] && Composing(h, out, ptr, start, rest, texts, all, fmt)
    ensures ptr + 4 <= out.Length && out[..ptr] == start + all && Bufs(rest) == {}
  {
    assert out[..ptr] + [] == out[..ptr];
  }

  /** The second half of `print_array`: the output, and the end of everything else. */
  method ComposeArray(h: Heap, out: array<byte>, entries: array<array?<byte>>, fmt: bool, ghost texts: seq<Text>)
    requires NoneTwice(entries[..]) && Bufs(entries[..]) <= h.live && h !in h.live && out !in Bufs(entries[..])
    requires entries in h.live && HoldAll(entries[..], texts) && out.Length == 5 + Total(texts, Extra(fmt))
    requires NulFree([LBRACKET] + Joined(texts, Sep(fmt)) + [RBRACKET])
    modifies h`live, out
    ensures Holds(out, [LBRACKET] + Joined(texts, Sep(fmt)) + [RBRACKET])
    ensures h.live == old(h.live) - Bufs(entries[..]) - {entries}
  {
    hide NoneTwice, Total, Joined, Bufs, HoldAll, Composing;
    ghost var all := Joined(texts, Sep(fmt));
    var ptr := Put(out, 0, LBRACKET);
    StartComposing(h, out, entries[..], texts, fmt);
    var i := 0;
    ghost var rest := texts;
    PointersApart(entries[..], entries);
    BufsAllocated(entries[..]);
    assert entries[0..] == entries[..];
    while i < entries.Length
      invariant i <= entries.Length && i + |rest| == entries.Length && h !in h.live
      invariant Composing(h, out, ptr, [LBRACKET], entries[i..], rest, all, fmt)
      invariant h.live == old(h.live) - (Bufs(entries[..]) - Bufs(entries[i..])) && entries in h.live
      invariant Bufs(entries[i..]) <= Bufs(entries[..])
    {
      ptr := ComposeNext(h, out, ptr, fmt, entries, i, [LBRACKET], rest, all);
      i, rest := i + 1, rest[1..];
    }
    EndComposing(h, out, ptr, [LBRACKET], entries[i..], rest, all, fmt);
    h.Free(entries);
    ptr := Put(out, ptr, RBRACKET);
    out[ptr] := 0;
  }

  // ----- Objects -----------------------------------------------------------

  /** What `print_object` adds to the length of each member: `depth` counts the tabs in front. */
  function MemberExtra(depth: nat, fmt: bool): nat {
    2 + if fmt then 2 + depth else 0
  }

  ghost function Total2(names: seq<Text>, values: seq<Text>, extra: nat): nat {
    Total(names, 0) + Total(values, extra)
  }

  /** The children still to be printed by `print_object`. */
  ghost predicate Pending(rest: seq<Tree>)
    reads OwnedAll(rest)
  {
    ShownAll(rest) && FiniteAll(rest)
  }

  lemma FirstPending(rest: seq<Tree>)
    requires rest != [] && Pending(rest)
    ensures Pending(rest[1..]) && rest[0].node.next == Head(rest[1..], null)
    ensures Shown(rest[0]) && Finite(rest[0])
    ensures rest[0].node.name == Field(rest[0].name) && OwnerHolds(rest[0].name)
    ensures Owned(rest[0]) <= OwnedAll(rest) && OwnedAll(rest[1..]) <= OwnedAll(rest)
  {
  }

  /** Two arrays of buffers, all of them different. */
  ghost predicate Apart(a: seq<array?<byte>>, b: seq<array?<byte>>) {
    NoneTwice(a) && NoneTwice(b) && Bufs(a) !! Bufs(b)
  }

  /** The texts so far, and the size counted so far, as long as nothing has failed. */
  ghost predicate Gathered(rest: seq<Tree>, nm: seq<array?<byte>>, ns: seq<Text>, en: seq<array?<byte>>, vs: seq<Text>,
                           len: nat, allN: seq<Text>, allV: seq<Text>, depth: nat, fmt: bool)
    reads Bufs(nm), Bufs(en)
  {
    && HoldAll(nm, ns) && HoldAll(en, vs)
    && ns + Names(rest) == allN && vs + Texts(rest, depth, fmt) == allV
    && len + Total2(Names(rest), Texts(rest, depth, fmt), MemberExtra(depth, fmt))
       == 7 + (if fmt then depth else 0) + Total2(allN, allV, MemberExtra(depth, fmt))
  }

  lemma GatherStep(rest: seq<Tree>, nm: seq<array?<byte>>, ns: seq<Text>, en: seq<array?<byte>>, vs: seq<Text>,
                   len: nat, allN: seq<Text>, allV: seq<Text>, depth: nat, fmt: bool, str: array<byte>,
                     ret: array<byte>)
    requires rest != [] && Pending(rest) && Gathered(rest, nm, ns, en, vs, len, allN, allV, depth, fmt)
    requires Holds(str, StringText(rest[0].name)) && Holds(ret, TreeText(rest[0], depth, fmt))
    ensures var n, v := StringText(rest[0].name), TreeText(rest[0], depth, fmt);
            Gathered(rest[1..], nm + [str], ns + [n], en + [ret], vs + [v], len + |v| + |n| + MemberExtra(depth, fmt),
                     allN, allV,
                     depth, fmt)
  {
    var n, v := StringText(rest[0].name), TreeText(rest[0], depth, fmt);
    FirstPending(rest);
    hide TreeText, StringText, Shown, Finite, HoldAll, Pending;
    HoldAllSnoc(nm, str, ns, n);
    HoldAllSnoc(en, ret, vs, v);
    Regroup(ns, n, Names(rest[1..]));
    Regroup(vs, v, Texts(rest[1..], depth, fmt));
  }

  /** One more buffer in an array that has room for it. */
  ghost predicate Grown(a: seq<array?<byte>>, b: seq<array?<byte>>, i: nat, x: array?<byte>)
    requires i < |a| && |a| == |b|
  {
    b == a[..i] + [x] + a[i + 1..]
  }

  /** Prints the name of one child into the next entry of `names`. */
  method GatherName(h: Heap, child: Node, names: array<array?<byte>>, i: nat, ghost name: Owner)
    returns (str: array?<byte>)
    requires i < names.Length && child.name == Field(name) && OwnerHolds(name)
    requires NoneTwice(names[..i]) && Bufs(names[..i]) <= h.live
    modifies h`asked, h`live, names
    ensures Grown(old(names[..]), names[..], i, str) && Printed(h, str, StringText(name))
    ensures NoneTwice(names[..i + 1])
            && Bufs(names[..i + 1]) == old(Bufs(names[..i])) + if str == null then {} else {str}
  {
    hide NoneTwice, Bufs, StringText;
    BufsAllocated(names[..i]);
    ghost var nm := names[..i];
    str := PrintStringOf(h, child.name, name);
    names[i] := str;
    BufsSnoc(nm, str);
    assert names[..i + 1] == nm + [str];
  }

  /** Prints the value of one child into the next entry of `entries`. */
  method GatherValue(h: Heap, child: Node, depth: nat, fmt: bool, entries: array<array?<byte>>, i: nat, ghost t: Tree)
    returns (ret: array?<byte>)
    requires i < entries.Length && child == t.node && Shown(t) && Finite(t) && h !in h.live
             && h !in Owned(t)
    requires NoneTwice(entries[..i]) && Bufs(entries[..i]) <= h.live
    modifies h`asked, h`live, entries
    ensures Grown(old(entries[..]), entries[..], i, ret) && Printed(h, ret, TreeText(t, depth, fmt))
    ensures NoneTwice(entries[..i + 1])
            && Bufs(entries[..i + 1]) == old(Bufs(entries[..i])) + if ret == null then {} else {ret}
    decreases t, 4
  {
    hide NoneTwice, Bufs, TreeText, Shown, Finite;
    BufsAllocated(entries[..i]);
    ghost var en := entries[..i];
    ret := PrintValue(h, child, depth, fmt, t);
    entries[i] := ret;
    BufsSnoc(en, ret);
    assert entries[..i + 1] == en + [ret];
  }

  lemma GrownParts(a: seq<array?<byte>>, b: seq<array?<byte>>, i: nat, x: array?<byte>)
    requires i < |a| && |a| == |b| && Grown(a, b, i, x)
    ensures b[..i + 1] == a[..i] + [x] && b[i + 1..] == a[i + 1..] && b[i] == x
  {
  }

  /** Prints the name and the value of one child; an earlier failure does not stop this. */
  method GatherNext(h: Heap, child: Node, depth: nat, fmt: bool, names: array<array?<byte>>,
                    entries: array<array?<byte>>,
                    i: nat, len0: nat, fail0: bool,
                    ghost rest: seq<Tree>, ghost ns0: seq<Text>, ghost vs0: seq<Text>, ghost allN: seq<Text>,
                    ghost allV: seq<Text>)
    returns (len: nat, fail: bool, ghost ns: seq<Text>, ghost vs: seq<Text>)
    requires rest != [] && child == rest[0].node && i < entries.Length == names.Length && names != entries
    requires Pending(rest) && h !in h.live && h !in OwnedAll(rest) && entries !in OwnedAll(rest)
             && names !in OwnedAll(rest)
    requires !fail0 ==> Gathered(rest, names[..i], ns0, entries[..i], vs0, len0, allN, allV, depth, fmt)
    requires Apart(names[..i], entries[..i]) && Bufs(names[..i]) + Bufs(entries[..i]) <= h.live
    modifies h`asked, h`live, names, entries
    ensures Apart(names[..i + 1], entries[..i + 1]) && h !in h.live
    ensures h.live == old(h.live) + Bufs(names[..i + 1]) + Bufs(entries[..i + 1])
    ensures fresh(Bufs(names[..i + 1]) - old(Bufs(names[..i])))
            && fresh(Bufs(entries[..i + 1]) - old(Bufs(entries[..i])))
    ensures old(Bufs(names[..i])) <= Bufs(names[..i + 1]) && old(Bufs(entries[..i])) <= Bufs(entries[..i + 1])
    ensures (fail ==> h.OutOfMemory() || fail0) && (fail0 ==> fail) && old(h.Refused()) <= h.Refused()
    ensures !fail ==>
              && Gathered(rest[1..], names[..i + 1], ns, entries[..i + 1], vs, len, allN, allV, depth, fmt)
              && h.Refused() == old(h.Refused())
    decreases rest, 4
  {
    hide NoneTwice, Bufs, HoldAll, Gathered, Pending, Owned, OwnedAll, Shown, Finite, TreeText;
    hide StringText, Grown, MemberExtra, Holds, Heap.Refused;
    FirstPending(rest);
    AllAllocated(rest);
    BufsAllocated(names[..i]);
    BufsAllocated(entries[..i]);
    PointersApart(names[..i], names);
    PointersApart(names[..i], entries);
    PointersApart(entries[..i], names);
    PointersApart(entries[..i], entries);
    ghost var nm, en, n0, e0 := names[..i], entries[..i], names[..], entries[..];
    len, fail, ns, vs := len0, fail0, ns0, vs0;
    var str := GatherName(h, child, names, i, rest[0].name);
    GrownParts(n0, names[..], i, str);
    var ret := GatherValue(h, child, depth, fmt, entries, i, rest[0]);
    GrownParts(e0, entries[..], i, ret);
    if str != null && ret != null {
      ghost var n, v := StringText(rest[0].name), TreeText(rest[0], depth, fmt);
      var ls := StrLen(ret, v);
      var ln := StrLen(str, n);
      len := len0 + ls + ln + MemberExtra(depth, fmt);
      ns, vs := ns0 + [n], vs0 + [v];
      if !fail0 {
        GatherStep(rest, nm, ns0, en, vs0, len0, allN, allV, depth, fmt, str, ret);
      }
    } else {
      fail := true;
    }
  }

  /** Prints the names and the values of all the children. */
  method GatherMembers(h: Heap, item: Node, depth: nat, fmt: bool, names: array<array?<byte>>,
                       entries: array<array?<byte>>, ghost t: Tree)
    returns (len: nat, fail: bool, ghost ns: seq<Text>, ghost vs: seq<Text>)
    requires item == t.node && Shown(t) && h !in h.live && h !in Owned(t) && Pending(t.kids)
    requires entries.Length == names.Length == |t.kids| && names != entries && entries !in Owned(t)
             && names !in Owned(t)
    modifies h`asked, h`live, names, entries
    ensures Apart(names[..], entries[..]) && fresh(Bufs(names[..]) + Bufs(entries[..])) && h !in h.live
    ensures h.live == old(h.live) + Bufs(names[..]) + Bufs(entries[..])
    ensures fail ==> h.OutOfMemory()
    ensures !fail ==>
              && ns == Names(t.kids) && vs == Texts(t.kids, depth, fmt)
              && HoldAll(names[..], ns) && HoldAll(entries[..], vs) && h.Refused() == old(h.Refused())
              && len == 7 + (if fmt then depth else 0) + Total2(ns, vs, MemberExtra(depth, fmt))
    decreases t.kids, 5
  {
    hide NoneTwice, Bufs, HoldAll, Gathered, Pending, Total2, Owned, OwnedAll, Names, Texts, Shown, Apart;
    hide MemberExtra, Heap.Refused;
    ShowsKids(t);
    fail, ns, vs := false, [], [];
    len := 7 + if fmt then depth else 0;
    var child, i := item.child, 0;
    ghost var rest := t.kids;
    ghost var allN, allV := Names(rest), Texts(rest, depth, fmt);
    StartMembers(t, depth, fmt, allN, allV);
    assert names[..0] == [] && entries[..0] == [];
    while child != null
      invariant i <= entries.Length && i + |rest| == entries.Length && rest == t.kids[i..] && child == Head(rest, null)
      invariant Pending(rest) && h !in h.live && h !in OwnedAll(rest) && entries !in OwnedAll(rest)
                && names !in OwnedAll(rest)
      invariant Apart(names[..i], entries[..i]) && fresh(Bufs(names[..i])) && fresh(Bufs(entries[..i]))
      invariant h.live == old(h.live) + Bufs(names[..i]) + Bufs(entries[..i])
      invariant fail ==> h.OutOfMemory()
      invariant !fail ==>
                  && Gathered(rest, names[..i], ns, entries[..i], vs, len, allN, allV, depth, fmt)
                  && h.Refused() == old(h.Refused())
      decreases entries.Length - i
    {
      FirstPending(rest);
      AllAllocated(rest);
      var next := child.next;
      len, fail, ns, vs := GatherNext(h, child, depth, fmt, names, entries, i, len, fail, rest, ns, vs, allN, allV);
      i, child, rest := i + 1, next, rest[1..];
    }
    assert rest == [] && entries[..i] == entries[..] && names[..i] == names[..];
    if !fail {
      EndMembers(names[..], ns, entries[..], vs, len, allN, allV, depth, fmt);
    }
  }

  lemma StartMembers(t: Tree, depth: nat, fmt: bool, allN: seq<Text>, allV: seq<Text>)
    requires Pending(t.kids) && allN == Names(t.kids)
             && allV == Texts(t.kids, depth, fmt)
    ensures Gathered(t.kids, [], [], [], [], 7 + if fmt then depth else 0, allN, allV, depth, fmt)
    ensures OwnedAll(t.kids) <= Owned(t) && Bufs([]) == {} && Apart([], [])
  {
    assert [] + allN == allN && [] + allV == allV;
  }

  lemma EndMembers(nm: seq<array?<byte>>, ns: seq<Text>, en: seq<array?<byte>>, vs: seq<Text>, len: nat,
                   allN: seq<Text>, allV: seq<Text>, depth: nat, fmt: bool)
    requires Gathered([], nm, ns, en, vs, len, allN, allV, depth, fmt)
    ensures ns == allN && vs == allV && HoldAll(nm, ns) && HoldAll(en, vs)
    ensures len == 7 + (if fmt then depth else 0) + Total2(allN, allV, MemberExtra(depth, fmt))
  {
    assert Names([]) == [] && Texts([], depth, fmt) == [];
    assert ns + [] == ns && vs + [] == vs;
  }

  /** Writes `n` tabs. */
  method PutTabs(out: array<byte>, at: nat, n: int) returns (ptr: nat)
    requires at + (if n > 0 then n else 0) <= out.Length
    modifies out
    ensures ptr == at + |Tabs(n)| && out[..ptr] == old(out[..at]) + Tabs(n)
  {
    var i := 0;
    ptr := at;
    var m := if n > 0 then n else 0;
    assert out[..ptr] + Tabs(0) == out[..ptr];
    while i < m
      invariant i <= m && ptr == at + i && out[..ptr] == old(out[..at]) + Tabs(i)
    {
      ghost var before := Tabs(i);
      ptr := Put(out, ptr, TAB);
      assert Tabs(i) + [TAB] == Tabs(i + 1);
      i := i + 1;
    }
    assert Tabs(m) == Tabs(n);
  }

  /** Writes `b` in the formatted form only. */
  method PutIf(out: array<byte>, at: nat, fmt: bool, b: byte) returns (ptr: nat)
    requires at + |If(fmt, [b])| <= out.Length
    modifies out
    ensures ptr == at + |If(fmt, [b])| && out[..ptr] == old(out[..at]) + If(fmt, [b])
  {
    ptr := at;
    if fmt {
      ptr := Put(out, ptr, b);
    } else {
      assert out[..ptr] + [] == out[..ptr];
    }
  }

  /** Writes one member: tabs, name, colon, value. */
  method PutLine(out: array<byte>, at: nat, depth: nat, fmt: bool, name: array<byte>, entry: array<byte>,
                 ghost n: Text, ghost v: Text)
    returns (ptr: nat)
    requires Holds(name, n) && Holds(entry, v) && name != out && entry != out
    requires at + |Line(n, v, depth, fmt)| < out.Length
    modifies out
    ensures ptr == at + |Line(n, v, depth, fmt)| && out[..ptr] == old(out[..at]) + Line(n, v, depth, fmt)
  {
    hide Tabs;
    ghost var start := out[..at];
    ptr := at;
    if fmt {
      ptr := PutTabs(out, at, depth);
    } else {
      assert start + [] == start;
    }
    assert out[..ptr] == start + If(fmt, Tabs(depth));
    ptr := Append(out, ptr, name, n);
    ptr := Put(out, ptr, COLON);
    ptr := PutIf(out, ptr, fmt, TAB);
    ptr := Append(out, ptr, entry, v);
    LineParts(start, n, v, depth, fmt);
  }

  lemma LineParts(start: Text, n: Text, v: Text, depth: nat, fmt: bool)
    ensures start + Line(n, v, depth, fmt)
         == start + If(fmt, Tabs(depth)) + n + [COLON] + If(fmt, [TAB]) + v
  {
    hide Tabs;
    var a, c, d := If(fmt, Tabs(depth)), [COLON], If(fmt, [TAB]);
    assert start + (a + n + (c + d) + v) == start + a + n + c + d + v;
  }

  /** The loop that copies the members into the output buffer and frees their texts: what has been
      written and what is still to be written, and that it fits. */
  ghost predicate Lined(out: array<byte>, ptr: nat, start: Text, ns: seq<Text>, vs: seq<Text>, all: Text, depth: nat,
                        fmt: bool)
    reads out
  {
    && |ns| == |vs| && ptr + Total2(ns, vs, MemberExtra(depth, fmt)) + |If(fmt, Tabs(depth - 1))| + 2 <= out.Length
    && out[..ptr] + Lines(ns, vs, depth, fmt) == start + all
  }

  /** The texts that are still in memory. */
  ghost predicate Stored(h: Heap, nm: seq<array?<byte>>, ns: seq<Text>, en: seq<array?<byte>>, vs: seq<Text>)
    reads h`live, Bufs(nm), Bufs(en)
  {
    Apart(nm, en) && Bufs(nm) + Bufs(en) <= h.live && HoldAll(nm, ns) && HoldAll(en, vs)
  }

  lemma LinesStep(ns: seq<Text>, vs: seq<Text>, depth: nat, fmt: bool)
    requires ns != [] && |ns| == |vs|
    ensures Lines(ns, vs, depth, fmt)
         == Line(ns[0], vs[0], depth, fmt) + LineEnd(|ns| == 1, fmt) + Lines(ns[1..], vs[1..], depth, fmt)
    ensures Total2(ns, vs, MemberExtra(depth, fmt))
         == |ns[0]| + |vs[0]| + MemberExtra(depth, fmt) + Total2(ns[1..], vs[1..], MemberExtra(depth, fmt))
    ensures |Line(ns[0], vs[0], depth, fmt)| + |LineEnd(|ns| == 1, fmt)| <= |ns[0]| + |vs[0]| + MemberExtra(depth, fmt)
  {
  }

  /** The first buffers of the two arrays, and the others. */
  lemma FirstBuffers(nm: seq<array?<byte>>, ns: seq<Text>, en: seq<array?<byte>>, vs: seq<Text>)
    requires nm != [] && |nm| == |en| && Apart(nm, en) && HoldAll(nm, ns) && HoldAll(en, vs)
    ensures nm[0] != null && en[0] != null && nm[0] != en[0] && ns != [] && vs != []
    ensures Holds(nm[0], ns[0]) && Holds(en[0], vs[0]) && HoldAll(nm[1..], ns[1..]) && HoldAll(en[1..], vs[1..])
    ensures Apart(nm[1..], en[1..]) && Bufs(nm) == {nm[0]} + Bufs(nm[1..]) && Bufs(en) == {en[0]} + Bufs(en[1..])
    ensures nm[0] !in Bufs(nm[1..]) + Bufs(en[1..]) && en[0] !in Bufs(nm[1..]) + Bufs(en[1..])
  {
  }

  /** Copies one member behind the ones before it. */
  method WriteMember(out: array<byte>, at: nat, depth: nat, fmt: bool, name: array<byte>, entry: array<byte>,
                     last: bool, ghost start: Text, ghost ns: seq<Text>, ghost vs: seq<Text>, ghost all: Text)
    returns (ptr: nat)
    requires ns != [] && last == (|ns| == 1) && Lined(out, at, start, ns, vs, all, depth, fmt)
    requires Holds(name, ns[0]) && Holds(entry, vs[0]) && name != out && entry != out
    modifies out
    ensures Lined(out, ptr, start, ns[1..], vs[1..], all, depth, fmt)
  {
    hide Lines, Total2, Line, Tabs;
    LinesStep(ns, vs, depth, fmt);
    ghost var before := out[..at];
    ptr := PutLine(out, at, depth, fmt, name, entry, ns[0], vs[0]);
    ptr := PutLineEnd(out, ptr, last, fmt);
    Assoc3(before, Line(ns[0], vs[0], depth, fmt), LineEnd(last, fmt), Lines(ns[1..], vs[1..], depth, fmt));
  }

  /** Copies one member and frees its texts. */
  method LineNext(h: Heap, out: array<byte>, at: nat, depth: nat, fmt: bool, names: array<array?<byte>>,
                  entries: array<array?<byte>>,
                  i: nat, ghost start: Text, ghost ns: seq<Text>, ghost vs: seq<Text>, ghost all: Text)
    returns (ptr: nat)
    requires i < entries.Length == names.Length && i + |ns| == entries.Length && h !in h.live
    requires Lined(out, at, start, ns, vs, all, depth, fmt) && Stored(h, names[i..], ns, entries[i..], vs)
    requires out !in Bufs(names[i..]) + Bufs(entries[i..])
    modifies h`live, out
    ensures Lined(out, ptr, start, ns[1..], vs[1..], all, depth, fmt)
            && Stored(h, names[i + 1..], ns[1..], entries[i + 1..], vs[1..])
    ensures h.live
            == old(h.live) - (Bufs(names[i..]) - Bufs(names[i + 1..])) - (Bufs(entries[i..]) - Bufs(entries[i + 1..]))
    ensures Bufs(names[i + 1..]) <= Bufs(names[i..]) && Bufs(entries[i + 1..]) <= Bufs(entries[i..])
  {
    assert names[i..][0] == names[i] && names[i..][1..] == names[i + 1..];
    assert entries[i..][0] == entries[i] && entries[i..][1..] == entries[i + 1..];
    hide Lined, HoldAll, Apart, Bufs;
    BufsAllocated(names[i..]);
    BufsAllocated(entries[i..]);
    FirstBuffers(names[i..], ns, entries[i..], vs);
    ptr := WriteMember(out, at, depth, fmt, names[i], entries[i], i == entries.Length - 1, start, ns, vs, all);
    h.Free(names[i]);
    h.Free(entries[i]);
  }

  method PutLineEnd(out: array<byte>, at: nat, last: bool, fmt: bool) returns (ptr: nat)
    requires at + |LineEnd(last, fmt)| <= out.Length
    modifies out
    ensures ptr == at + |LineEnd(last, fmt)| && out[..ptr] == old(out[..at]) + LineEnd(last, fmt)
  {
    ptr := at;
    if !last {
      ptr := Put(out, ptr, COMMA);
    }
    ptr := PutIf(out, ptr, fmt, LF);
  }

  /** The second half of `print_object`; `depth` counts the tabs in front of the members. */
  method ComposeObject(h: Heap, out: array<byte>, names: array<array?<byte>>, entries: array<array?<byte>>,
                       depth: nat, fmt: bool, ghost ns: seq<Text>, ghost vs: seq<Text>)
    requires Apart(names[..], entries[..]) && Bufs(names[..]) + Bufs(entries[..]) <= h.live && h !in h.live
    requires out !in Bufs(names[..]) + Bufs(entries[..]) && entries in h.live && names in h.live && names != entries
    requires HoldAll(names[..], ns) && HoldAll(entries[..], vs) && depth > 0
    requires names.Length == entries.Length == |ns| == |vs|
    requires out.Length == 7 + (if fmt then depth else 0) + Total2(ns, vs, MemberExtra(depth, fmt))
    requires NulFree(ObjectText(ns, vs, depth, fmt))
    modifies h`live, out
    ensures Holds(out, ObjectText(ns, vs, depth, fmt))
    ensures h.live == old(h.live) - Bufs(names[..]) - Bufs(entries[..]) - {names, entries}
  {
    hide Total2, Lines, Tabs, Bufs, Apart, HoldAll;
    ghost var start, all := [LBRACE] + If(fmt, [LF]), Lines(ns, vs, depth, fmt);
    PointersApart(names[..], names);
    PointersApart(names[..], entries);
    PointersApart(entries[..], names);
    PointersApart(entries[..], entries);
    BufsAllocated(names[..]);
    BufsAllocated(entries[..]);
    NoLinesLeft(depth, fmt);
    var ptr := Put(out, 0, LBRACE);
    ptr := PutIf(out, ptr, fmt, LF);
    ptr := LineAll(h, out, ptr, depth, fmt, names, entries, start, ns, vs, all);
    h.Free(names);
    h.Free(entries);
    CloseObject(out, ptr, depth, fmt, start + all);
  }

  /** The loop of `print_object` that composes the output. */
  method LineAll(h: Heap, out: array<byte>, at: nat, depth: nat, fmt: bool, names: array<array?<byte>>,
                 entries: array<array?<byte>>,
                 ghost start: Text, ghost ns: seq<Text>, ghost vs: seq<Text>, ghost all: Text)
    returns (ptr: nat)
    requires entries.Length == names.Length == |ns| == |vs| && h !in h.live
    requires Lined(out, at, start, ns, vs, all, depth, fmt) && Stored(h, names[..], ns, entries[..], vs)
    requires out !in Bufs(names[..]) + Bufs(entries[..])
    modifies h`live, out
    ensures ptr + |If(fmt, Tabs(depth - 1))| + 2 <= out.Length && out[..ptr] == start + all
    ensures h.live == old(h.live) - Bufs(names[..]) - Bufs(entries[..])
  {
    hide Lined, Stored, Bufs;
    var i := 0;
    ptr := at;
    ghost var rn, rv := ns, vs;
    assert names[0..] == names[..] && entries[0..] == entries[..];
    while i < entries.Length
      invariant i <= entries.Length && i + |rn| == entries.Length && |rn| == |rv| && h !in h.live
      invariant Lined(out, ptr, start, rn, rv, all, depth, fmt) && Stored(h, names[i..], rn, entries[i..], rv)
      invariant h.live == old(h.live) - (Bufs(names[..]) - Bufs(names[i..])) - (Bufs(entries[..]) - Bufs(entries[i..]))
      invariant Bufs(names[i..]) <= Bufs(names[..]) && Bufs(entries[i..]) <= Bufs(entries[..])
    {
      ptr := LineNext(h, out, ptr, depth, fmt, names, entries, i, start, rn, rv, all);
      i, rn, rv := i + 1, rn[1..], rv[1..];
    }
    assert names[i..] == [] && entries[i..] == [] && rn == [];
    NoBuffers();
    AllLined(out, ptr, start, rv, all, depth, fmt);
  }

  lemma NoBuffers()
    ensures Bufs([]) == {}
  {
  }

  lemma AllLined(out: array<byte>, ptr: nat, start: Text, vs: seq<Text>, all: Text, depth: nat, fmt: bool)
    requires Lined(out, ptr, start, [], vs, all, depth, fmt)
    ensures ptr + |If(fmt, Tabs(depth - 1))| + 2 <= out.Length && out[..ptr] == start + all
  {
    NoLinesLeft(depth, fmt);
    assert out[..ptr] + [] == out[..ptr];
  }

  lemma NoLinesLeft(depth: nat, fmt: bool)
    ensures Lines([], [], depth, fmt) == [] && Total2([], [], MemberExtra(depth, fmt)) == 0
    ensures |If(fmt, Tabs(depth - 1))| <= if fmt then depth else 0
  {
  }

  /** The closing brace behind its tabs, and the NUL. */
  method CloseObject(out: array<byte>, at: nat, depth: nat, fmt: bool, ghost before: Text)
    requires at + |If(fmt, Tabs(depth - 1))| + 2 <= out.Length && out[..at] == before
    requires NulFree(before + (If(fmt, Tabs(depth - 1)) + [RBRACE]))
    modifies out
    ensures Holds(out, before + (If(fmt, Tabs(depth - 1)) + [RBRACE]))
  {
    hide Tabs;
    var ptr := at;
    if fmt {
      ptr := PutTabs(out, ptr, depth - 1);
    } else {
      assert before + [] == before;
    }
    Assoc(before, If(fmt, Tabs(depth - 1)), [RBRACE]);
    ptr := Put(out, ptr, RBRACE);
    out[ptr] := 0;
  }

  /** `print_object`. */
  method PrintObject(h: Heap, item: Node, depth: nat, fmt: bool, ghost t: Tree) returns (out: array?<byte>)
    requires item == t.node && Shown(t) && Finite(t) && h !in h.live && h !in Owned(t) && t.kind == IsObject
    modifies h`asked, h`live
    ensures Printed(h, out, TreeText(t, depth, fmt))
    decreases t, 2
  {
    TreeAllocated(t);
    var numentries := CountChildren(item, t);
    if numentries == 0 {
      out := PrintEmptyObject(h, depth, fmt);
    } else {
      out := PrintFullObject(h, item, depth, fmt, numentries, t);
    }
  }

  method PrintEmptyObject(h: Heap, depth: nat, fmt: bool) returns (out: array?<byte>)
    modifies h`asked, h`live
    ensures Printed(h, out, Print(Object([]), depth, fmt))
  {
    hide Tabs;
    out := h.Bytes(if fmt then depth + 4 else 3);
    if out == null {
      return;
    }
    TabsFit(depth, fmt);
    ghost var start := [LBRACE] + If(fmt, [LF]);
    var ptr := Put(out, 0, LBRACE);
    ptr := PutIf(out, ptr, fmt, LF);
    EmptyObjectText(depth, fmt);
    CloseObject(out, ptr, depth, fmt, start);
  }

  lemma TabsFit(depth: nat, fmt: bool)
    ensures |If(fmt, Tabs(depth - 1))| <= if fmt && depth > 0 then depth - 1 else 0
  {
  }

  lemma FullObjectText(t: Tree, depth: nat, fmt: bool)
    requires t.kind == IsObject && t.kids != [] && Shown(t) && Finite(t)
    ensures Pending(t.kids)
    ensures var ns, vs := Names(t.kids), Texts(t.kids, depth + 1, fmt);
            && |ns| == |vs| == |t.kids| && NulFree(TreeText(t, depth, fmt))
            && TreeText(t, depth, fmt) == ObjectText(ns, vs, depth + 1, fmt)
  {
    TextIsNulFree(t, depth, fmt);
    hide ObjectText, Names, Texts, NulFree;
  }

  /** `print_object` when there are members. */
  method PrintFullObject(h: Heap, item: Node, depth: nat, fmt: bool, numentries: nat, ghost t: Tree)
    returns (out: array?<byte>)
    requires item == t.node && Shown(t) && Finite(t) && h !in h.live && h !in Owned(t) && t.kind == IsObject
    requires numentries == |t.kids| > 0
    modifies h`asked, h`live
    ensures Printed(h, out, TreeText(t, depth, fmt))
    decreases t, 1
  {
    hide NoneTwice, Bufs, HoldAll, Total2, Names, Texts, Owned, OwnedAll, Finite, TreeText, Pending, ObjectText;
    hide Shown, Holds;
    TreeAllocated(t);
    AllAllocated(t.kids);
    KidsAreOwned(t);
    FullObjectText(t, depth, fmt);
    out := null;
    var entries := h.Pointers(numentries);
    if entries == null {
      return;
    }
    var names := h.Pointers(numentries);
    if names == null {
      h.Free(entries);
      return;
    }
    var len, fail;
    ghost var ns, vs;
    len, fail, ns, vs := GatherMembers(h, item, depth + 1, fmt, names, entries, t);
    BufsAllocated(entries[..]);
    BufsAllocated(names[..]);
    PointersApart(entries[..], entries);
    PointersApart(entries[..], names);
    PointersApart(names[..], entries);
    PointersApart(names[..], names);
    if !fail {
      out := h.Bytes(len);
    }
    if out == null {
      FreeAll(h, names);
      FreeAll(h, entries);
      h.Free(names);
      h.Free(entries);
      return;
    }
    ComposeObject(h, out, names, entries, depth + 1, fmt, ns, vs);
  }

  // ----- The main result ---------------------------------------------------

  /** `cJSON_Print` and `cJSON_PrintUnformatted`: every write stays in the buffer whose size was
      computed beforehand; the one allocation left is the text, or none if memory runs out. A tree that
      makes up a JSON value has the text of that value. */
  method PrintItem(h: Heap, item: Node, fmt: bool, ghost t: Tree) returns (out: array?<byte>)
    requires item == t.node && Shown(t) && Finite(t) && h !in h.live && h !in Owned(t)
    modifies h`asked, h`live
    ensures Printed(h, out, TreeText(t, 0, fmt))
    ensures Fit(t) ==> Printable(JsonOf(t)) && TreeText(t, 0, fmt) == Print(JsonOf(t), 0, fmt)
  {
    hide TreeText, Print, Printable, JsonOf, Finite, Fit;
    if Fit(t) {
      FitText(t, 0, fmt);
    }
    out := PrintValue(h, item, 0, fmt, t);
  }
}
