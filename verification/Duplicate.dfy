/** `cJSON_Duplicate`: deep copies. */
module Duplicate {
  import opened Bytes
  import opened Memory
  import opened Siblings
  import opened Objects

  // ----- What is copied ----------------------------------------------------

  /** What the list of children says about its `i`th element. */
  lemma {:induction false} ShownAt(ts: seq<Tree>, i: nat)
    requires ShownAll(ts) && i < |ts|
    ensures Shown(ts[i]) && ts[i].node.next == Head(ts[i + 1..], null)
    ensures Owned(ts[i]) <= OwnedAll(ts)
    decreases i
  {
    if i > 0 {
      assert ts[i] == ts[1..][i - 1] && ts[i + 1..] == ts[1..][i..];
      ShownAt(ts[1..], i - 1);
    }
  }

  /** A tree without references shows what it owns. */
  lemma {:induction false} ValidIsShown(t: Tree)
    requires Valid(t) && NoReferences(t)
    ensures Shown(t)
    decreases t
  {
    ChainIsShown(t.kids, null);
  }

  lemma {:induction false} ChainIsShown(ts: seq<Tree>, prev: Node?)
    requires Chain(ts, prev, null) && NoReferencesIn(ts)
    ensures ShownAll(ts)
    decreases ts
  {
    if ts != [] {
      ValidIsShown(ts[0]);
      ChainIsShown(ts[1..], ts[0].node);
    }
  }

  ghost predicate SameOwner(a: Owner, b: Owner) {
    if a.Some? && b.Some? then a.text == b.text else a.None? && b.None?
  }

  /** The same values and names, in the same order, at every depth. */
  ghost predicate SameContent(a: Tree, b: Tree) {
    SameItem(a, b) && SameContents(a.kids, b.kids)
  }

  ghost predicate SameItem(a: Tree, b: Tree) {
    a.kind == b.kind && a.integer == b.integer && a.number == b.number && SameOwner(a.text, b.text)
      && SameOwner(a.name, b.name)
  }

  ghost predicate SameContents(a: seq<Tree>, b: seq<Tree>) {
    if a == [] || b == [] then a == b else SameContent(a[0], b[0]) && SameContents(a[1..], b[1..])
  }

  lemma {:induction false} SameContentsSnoc(a: seq<Tree>, s: Tree, b: seq<Tree>, t: Tree)
    requires SameContents(a, b) && SameContent(s, t)
    ensures SameContents(a + [s], b + [t])
    decreases |a|
  {
    if a != [] && b != [] {
      assert (a + [s])[1..] == a[1..] + [s] && (b + [t])[1..] == b[1..] + [t];
      SameContentsSnoc(a[1..], s, b[1..], t);
    }
  }

  // ----- Copying -----------------------------------------------------------

  /** A fresh node that is in no list, with all that it owns. */
  ghost predicate Fresh(h: Heap, n: Node, t: Tree)
    reads h, Owned(t)
  {
    n == t.node && Detached(t) && NoReferences(t) && Owned(t) <= h.live && h !in h.live
  }

  /** Copies a string for the new node `n`; if memory runs out, `n` is deleted. */
  method CopyString(h: Heap, n: Node, str: array<byte>, ghost t: Tree, ghost s: Text) returns (copy: array?<byte>)
    requires Fresh(h, n, t) && Holds(str, s)
    modifies h`asked, h`live
    ensures copy == null ==> h.OutOfMemory() && h.live == old(h.live) - Owned(t)
    ensures copy != null ==>
              && fresh(copy) && Holds(copy, s) && Fresh(h, n, t) && copy !in Owned(t)
              && h.live == old(h.live) + {copy} && h.Refused() == old(h.Refused())
  {
    TreeAllocated(t);
    copy := StrDup(h, str, s);
    if copy == null {
      ChainOne(t, null, null);
      Delete(h, n, [t], null);
    }
  }

  /** Gives the new node a copy of the string of the source, if the source has one. */
  method CopyText(h: Heap, n: Node, str: array?<byte>, ghost t: Tree, ghost o: Owner) returns (ok: bool, ghost t': Tree)
    requires Fresh(h, n, t) && t.text.None? && str == Field(o) && OwnerHolds(o)
    modifies h`asked, h`live, n`valuestring
    ensures !ok ==> h.OutOfMemory() && h.live == old(h.live) - Owned(t)
    ensures ok ==>
              && t' == t.(text := t'.text) && SameOwner(o, t'.text) && fresh(Buffer(t'.text)) && Fresh(h, n, t')
              && h.live == old(h.live) + Buffer(t'.text) && h.Refused() == old(h.Refused())
  {
    TreeAllocated(t);
    ok, t' := true, t;
    if str != null {
      var copy := CopyString(h, n, str, t, o.text);
      ok := copy != null;
      if ok {
        n.valuestring := copy;
        t' := t.(text := Some(copy, o.text));
      }
    }
  }

  /** The same for the name. */
  method CopyName(h: Heap, n: Node, str: array?<byte>, ghost t: Tree, ghost o: Owner) returns (ok: bool, ghost t': Tree)
    requires Fresh(h, n, t) && t.name.None? && str == Field(o) && OwnerHolds(o)
    modifies h`asked, h`live, n`name
    ensures !ok ==> h.OutOfMemory() && h.live == old(h.live) - Owned(t)
    ensures ok ==>
              && t' == t.(name := t'.name) && SameOwner(o, t'.name) && fresh(Buffer(t'.name)) && Fresh(h, n, t')
              && h.live == old(h.live) + Buffer(t'.name) && h.Refused() == old(h.Refused())
  {
    TreeAllocated(t);
    ok, t' := true, t;
    if str != null {
      var copy := CopyString(h, n, str, t, o.text);
      ok := copy != null;
      if ok {
        n.name := copy;
        t' := t.(name := Some(copy, o.text));
      }
    }
  }

  lemma LeafIsDetached(n: Node, t: Tree)
    requires t == Tree(n, n.kind, n.valueint, n.valuedouble, None, None, [], false) && !n.isReference
    requires n.child == null && n.valuestring == null && n.name == null && n.next == null && n.prev == null
    ensures Detached(t) && NoReferences(t) && Owned(t) == {n}
  {
    assert Chain([], null, null);
  }

  /** A new node with the type and the numbers of the item. */
  method CopyFields(h: Heap, item: Node) returns (n: Node?, ghost t': Tree)
    requires h !in h.live
    modifies h`asked, h`live
    ensures n == null ==> h.OutOfMemory() && h.live == old(h.live)
    ensures n != null ==>
              && t' == Tree(n, item.kind, item.valueint, item.valuedouble, None, None, [], false) && fresh(n)
              && Fresh(h, n, t') && h.live == old(h.live) + {n} && h.Refused() == old(h.Refused())
  {
    n := h.NewItem();
    if n != null {
      n.kind, n.isReference, n.valueint, n.valuedouble := item.kind, false, item.valueint, item.valuedouble;
      t' := Tree(n, item.kind, item.valueint, item.valuedouble, None, None, [], false);
      LeafIsDetached(n, t');
    } else {
      t' := Tree(item, item.kind, item.valueint, item.valuedouble, None, None, [], false);
    }
  }

  /** The item itself, without children. Null if memory runs out: then nothing is left behind. */
  method CopyItem(h: Heap, item: Node, ghost t: Tree) returns (n: Node?, ghost t': Tree)
    requires item == t.node && Shown(t) && h !in h.live && h !in Owned(t)
    modifies h`asked, h`live
    ensures n == null ==> h.OutOfMemory() && h.live == old(h.live)
    ensures n != null ==> Fresh(h, n, t') && SameItem(t, t') && t'.kids == [] && fresh(Owned(t'))
    ensures n != null ==> h.live == old(h.live) + Owned(t') && h.Refused() == old(h.Refused())
  {
    hide Distinct, Valid, Matches, Holds, NoReferences, OwnedAll;
    n, t' := CopyFields(h, item);
    if n == null {
      return;
    }
    OwnsNoKids(t');
    var ok;
    ok, t' := CopyText(h, n, item.valuestring, t', t.text);
    if !ok {
      n := null;
      return;
    }
    OwnsNoKids(t');
    ok, t' := CopyName(h, n, item.name, t', t.name);
    if !ok {
      n := null;
      return;
    }
    OwnsNoKids(t');
  }

  lemma OwnsNoKids(t: Tree)
    requires t.kids == []
    ensures Owned(t) == {t.node} + Buffer(t.text) + Buffer(t.name)
  {
  }

  /** The first copied child. */
  method AppendFirst(h: Heap, n: Node, child: Node, ghost t: Tree, ghost c: Tree)
    requires Fresh(h, n, t) && t.kids == [] && Fresh(h, child, c) && Owned(c) !! Owned(t)
    modifies n`child
    ensures Fresh(h, n, t.(kids := [c]))
    ensures Owned(t.(kids := [c])) == Owned(t) + Owned(c)
  {
    hide DistinctAll, NoReferencesIn;
    TreeAllocated(c);
    n.child := child;
    ChainOne(c, null, null);
    NoReferencesSnoc([], c);
    assert [] + [c] == [c];
  }

  /** A later one, linked behind the last. */
  method AppendLater(h: Heap, n: Node, nptr: Node, child: Node, ghost t: Tree, ghost c: Tree)
    requires Fresh(h, n, t) && t.kids != [] && nptr == Last(t.kids, null)
    requires Fresh(h, child, c) && Owned(c) !! Owned(t)
    modifies nptr`next, child`prev
    ensures Fresh(h, n, t.(kids := t.kids + [c]))
    ensures Owned(t.(kids := t.kids + [c])) == Owned(t) + Owned(c)
  {
    hide DistinctAll, OwnedAll, Chain, NoReferencesIn;
    TreeAllocated(t);
    TreeAllocated(c);
    AllAllocated(t.kids);
    RootIsOwned(c);
    RootAtIsOwned(t.kids, |t.kids| - 1);
    assert NoReferencesIn(t.kids);
    SuffixObject(nptr, child, t.kids, c);
    NoReferencesSnoc(t.kids, c);
  }

  /** `cJSON_Duplicate`. Null for a null item; otherwise null only if memory runs out, and then
      nothing is left behind. The copy is in no list and shares nothing with its source. */
  method DuplicateItem(h: Heap, item: Node?, recurse: bool, ghost t: Tree) returns (n: Node?, ghost t': Tree)
    requires item != null ==> item == t.node && Shown(t)
    requires h !in h.live && h !in Owned(t)
    modifies h`asked, h`live
    ensures item == null ==> n == null && h.live == old(h.live)
    ensures item != null && n == null ==> h.OutOfMemory() && h.live == old(h.live)
    ensures n != null ==>
              && Fresh(h, n, t') && fresh(Owned(t')) && h.live == old(h.live) + Owned(t')
              && h.Refused() == old(h.Refused())
    ensures n != null ==> SameItem(t, t') && if recurse then SameContent(t, t') else t'.kids == []
    decreases t, 1
  {
    if item == null {
      t' := t;
      return null, t;
    }
    TreeAllocated(t);
    n, t' := CopyItem(h, item, t);
    if n == null || !recurse {
      return;
    }
    var ok;
    ok, t' := CopyChildren(h, item, n, t, t');
    if !ok {
      n := null;
    }
  }

  lemma FreshRoot(h: Heap, n: Node, t: Tree)
    requires Fresh(h, n, t)
    ensures n == t.node && Owned(t) <= h.live && h !in h.live
  {
  }

  /** The loop of `cJSON_Duplicate`. */
  method CopyChildren(h: Heap, item: Node, n: Node, ghost t: Tree, ghost t0: Tree) returns (ok: bool, ghost t': Tree)
    requires item == t.node && Shown(t) && h !in Owned(t) && Fresh(h, n, t0) && t0.kids == [] && Owned(t0) !! Owned(t)
    modifies h`asked, h`live, n`child
    ensures !ok ==> h.OutOfMemory() && h.live == old(h.live) - Owned(t0)
    ensures ok ==>
              && t' == t0.(kids := t'.kids) && SameContents(t.kids, t'.kids) && Fresh(h, n, t')
              && fresh(Owned(t') - Owned(t0)) && h.live == old(h.live) + Owned(t') && h.Refused() == old(h.Refused())
    decreases t, 0
  {
    hide Valid, Distinct, DistinctAll, NoReferences, SameContent, Owned, OwnedAll, Matches, Chain, Detached, Fresh;
    hide Shown, ShownAll;
    TreeAllocated(t);
    RootIsOwned(t0);
    FreshRoot(h, n, t0);
    ShowsKids(t);
    t' := t0;
    ok := true;
    var cptr, nptr: Node? := item.child, null;
    ghost var i := 0;
    while cptr != null
      invariant i <= |t.kids| && cptr == Head(t.kids[i..], null) && Shown(t)
      invariant t' == t0.(kids := t'.kids) && SameContents(t.kids[..i], t'.kids)
      invariant Fresh(h, n, t') && nptr == Last(t'.kids, null) && Owned(t') !! Owned(t) && Owned(t0) <= Owned(t')
      invariant fresh(Owned(t') - Owned(t0)) && h.live == old(h.live) + Owned(t') && h.Refused() == old(h.Refused())
      invariant nptr != null ==> fresh(nptr)
      decreases |t.kids| - i
    {
      var newchild;
      ghost var c;
      ShowsKids(t);
      ShownAt(t.kids, i);
      KidsAreOwned(t);
      var next := cptr.next;
      ok, newchild, c := CopyChild(h, cptr, n, nptr, t', t.kids[i]);
      if !ok {
        return;
      }
      RootIsOwned(c);
      SameContentsSnoc(t.kids[..i], t.kids[i], t'.kids, c);
      assert t.kids[..i + 1] == t.kids[..i] + [t.kids[i]];
      t' := t'.(kids := t'.kids + [c]);
      nptr, cptr, i := newchild, next, i + 1;
    }
    assert t.kids[..i] == t.kids;
  }

  /** Copies one child and appends the copy; if memory runs out, the whole copy is deleted. */
  method CopyChild(h: Heap, cptr: Node, n: Node, nptr: Node?, ghost t: Tree, ghost s: Tree)
    returns (ok: bool, newchild: Node?, ghost c: Tree)
    requires cptr == s.node && Shown(s) && h !in Owned(s) && Fresh(h, n, t) && nptr == Last(t.kids, null)
             && Owned(t) !! Owned(s)
    modifies h`asked, h`live, n`child, (if nptr == null then {} else {nptr})`next
    ensures !ok ==> h.OutOfMemory() && h.live == old(h.live) - Owned(t)
    ensures ok ==>
              && newchild == c.node && SameContent(s, c) && Fresh(h, n, t.(kids := t.kids + [c])) && fresh(Owned(c))
              && Owned(t.(kids := t.kids + [c])) == Owned(t) + Owned(c) && h.live == old(h.live) + Owned(c)
              && h.Refused() == old(h.Refused())
    decreases s, 2
  {
    hide Valid, Distinct, DistinctAll, NoReferences, SameContent, Owned, OwnedAll, Matches;
    TreeAllocated(t);
    newchild, c := DuplicateItem(h, cptr, true, s);
    ok := newchild != null;
    if !ok {
      ChainOne(t, null, null);
      Delete(h, n, [t], null);
      return;
    }
    RootIsOwned(c);
    if nptr != null {
      AppendLater(h, n, nptr, newchild, t, c);
    } else {
      AppendFirst(h, n, newchild, t, c);
      assert t.kids + [c] == [c];
    }
  }
}
