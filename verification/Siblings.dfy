/** Sibling lists: the pointer surgery of cJSON carries out sequence operations. */
module Siblings {
  import opened Bytes
  import opened Memory

  // ----- Splitting and joining chains --------------------------------------

  lemma {:induction false} OwnedSplit(a: seq<Tree>, b: seq<Tree>)
    ensures OwnedAll(a + b) == OwnedAll(a) + OwnedAll(b)
    decreases |a|
  {
    if a == [] {
      assert a + b == b;
    } else {
      assert (a + b)[1..] == a[1..] + b;
      OwnedSplit(a[1..], b);
    }
  }

  lemma {:induction false} DistinctSplit(a: seq<Tree>, b: seq<Tree>)
    ensures DistinctAll(a + b) <==> DistinctAll(a) && DistinctAll(b) && OwnedAll(a) !! OwnedAll(b)
    decreases |a|
  {
    if a == [] {
      assert a + b == b;
    } else {
      assert (a + b)[1..] == a[1..] + b;
      OwnedSplit(a[1..], b);
      DistinctSplit(a[1..], b);
    }
  }

  lemma {:induction false} ChainSplit(a: seq<Tree>, b: seq<Tree>, prev: Node?, next: Node?)
    ensures Chain(a + b, prev, next) <==> Chain(a, prev, Head(b, next)) && Chain(b, Last(a, prev), next)
    decreases |a|
  {
    if a == [] {
      assert a + b == b;
    } else {
      assert (a + b)[1..] == a[1..] + b;
      ChainSplit(a[1..], b, a[0].node, next);
    }
  }

  lemma ChainOne(t: Tree, prev: Node?, next: Node?)
    ensures Chain([t], prev, next) <==> Valid(t) && t.node.prev == prev && t.node.next == next
    ensures OwnedAll([t]) == Owned(t)
    ensures DistinctAll([t]) <==> Distinct(t)
  {
    assert [t][1..] == [];
  }

  /** What the `i`th tree owns, and what the trees around it own. */
  lemma OwnedAt(ts: seq<Tree>, i: nat)
    requires i < |ts| && DistinctAll(ts)
    ensures Distinct(ts[i]) && DistinctAll(ts[..i]) && DistinctAll(ts[i + 1..])
    ensures OwnedAll(ts) == OwnedAll(ts[..i]) + Owned(ts[i]) + OwnedAll(ts[i + 1..])
    ensures OwnedAll(ts[..i]) !! Owned(ts[i]) !! OwnedAll(ts[i + 1..])
  {
    hide OwnedAll, DistinctAll, Distinct, Owned;
    var a, b, c := ts[..i], [ts[i]], ts[i + 1..];
    assert ts == a + (b + c);
    OwnedSplit(a, b + c);
    OwnedSplit(b, c);
    DistinctSplit(a, b + c);
    DistinctSplit(b, c);
    ChainOne(ts[i], null, null);
  }

  /** What a chain says about its `i`th element. */
  lemma ChainAt(ts: seq<Tree>, prev: Node?, next: Node?, i: nat)
    requires i < |ts| && Chain(ts, prev, next) && DistinctAll(ts)
    ensures Valid(ts[i]) && ts[i].node.prev == Last(ts[..i], prev) && ts[i].node.next == Head(ts[i + 1..], next)
    ensures Chain(ts[..i], prev, ts[i].node) && Chain(ts[i + 1..], ts[i].node, next)
    ensures OwnedAll(ts) == OwnedAll(ts[..i]) + Owned(ts[i]) + OwnedAll(ts[i + 1..])
    ensures Distinct(ts[i]) && DistinctAll(ts[..i]) && DistinctAll(ts[i + 1..])
    ensures OwnedAll(ts[..i]) !! Owned(ts[i]) !! OwnedAll(ts[i + 1..])
  {
    hide Chain, OwnedAll, DistinctAll, Distinct, Valid, Owned;
    var a, b, c := ts[..i], [ts[i]], ts[i + 1..];
    assert ts == a + (b + c);
    ChainSplit(a, b + c, prev, next);
    ChainSplit(b, c, Last(a, prev), next);
    ChainOne(ts[i], Last(a, prev), Head(c, next));
    OwnedAt(ts, i);
  }

  /** A chain put together from a front, one element and a back. */
  lemma ChainJoin(a: seq<Tree>, t: Tree, c: seq<Tree>, prev: Node?, next: Node?)
    requires Chain(a, prev, t.node) && Chain(c, t.node, next)
    requires Valid(t) && t.node.prev == Last(a, prev) && t.node.next == Head(c, next)
    ensures Chain(a + [t] + c, prev, next)
  {
    ChainOne(t, Last(a, prev), Head(c, next));
    ChainSplit([t], c, Last(a, prev), next);
    ChainSplit(a, [t] + c, prev, next);
    assert a + [t] + c == a + ([t] + c);
  }

  /** The links of a list mirror each other, and the list is open at both ends. */
  lemma LinksMirror(ts: seq<Tree>, i: nat)
    requires i < |ts| && Chain(ts, null, null) && DistinctAll(ts)
    ensures ts[i].node.prev == if i == 0 then null else ts[i - 1].node
    ensures ts[i].node.next == if i + 1 == |ts| then null else ts[i + 1].node
    ensures ts[i].node.next != null ==> ts[i].node.next.prev == ts[i].node
  {
    hide Valid, Owned, OwnedAll, DistinctAll, Distinct, Chain;
    ChainAt(ts, null, null, i);
    if i + 1 < |ts| {
      ChainAt(ts, null, null, i + 1);
    }
  }

  // ----- The operations ----------------------------------------------------

  /** The children of `parent` are the trees `ts`, and `parent` is not one of their objects. */
  ghost predicate Children(parent: Node, ts: seq<Tree>)
    reads parent, OwnedAll(ts)
  {
    parent.child == Head(ts, null) && Chain(ts, null, null) && DistinctAll(ts) && parent !in OwnedAll(ts)
  }

  /** An item that is in no list. */
  ghost predicate Detached(t: Tree)
    reads Owned(t)
  {
    Valid(t) && Distinct(t) && t.node.prev == null && t.node.next == null
  }

  ghost function Roots(ts: seq<Tree>): set<Node> {
    set t | t in ts :: t.node
  }

  /** `cJSON_GetArraySize`. */
  method GetArraySize(parent: Node, ghost ts: seq<Tree>) returns (n: nat)
    requires Children(parent, ts)
    ensures n == |ts|
  {
    var c := parent.child;
    n := 0;
    while c != null
      invariant n <= |ts| && c == Head(ts[n..], null) && Children(parent, ts)
      decreases |ts| - n
    {
      ChainAt(ts, null, null, n);
      n, c := n + 1, c.next;
    }
  }

  /** The index that `which` selects: a negative one acts as 0. */
  function Index(which: int): nat {
    if which > 0 then which else 0
  }

  /** The loop that finds an item by its index. */
  method Walk(parent: Node, which: int, ghost ts: seq<Tree>) returns (c: Node?)
    requires Children(parent, ts)
    ensures c == if Index(which) < |ts| then ts[Index(which)].node else null
  {
    c := parent.child;
    var left := which;
    ghost var i := 0;
    while c != null && left > 0
      invariant i <= |ts| && c == Head(ts[i..], null) && Index(which) == i + Index(left) && Children(parent, ts)
      decreases |ts| - i
    {
      ChainAt(ts, null, null, i);
      c, left, i := c.next, left - 1, i + 1;
    }
  }

  /** `cJSON_GetArrayItem`. */
  method GetArrayItem(parent: Node, item: int, ghost ts: seq<Tree>) returns (c: Node?)
    requires Children(parent, ts)
    ensures 0 <= item < |ts| ==> c == ts[item].node
    ensures item >= |ts| ==> c == null
    ensures item < 0 ==> c == if ts == [] then null else ts[0].node
  {
    c := Walk(parent, item, ts);
  }

  /** `cJSON_AddItemToArray`: the item becomes the last one. */
  method AddItemToArray(parent: Node, item: Node?, ghost ts: seq<Tree>, ghost t: Tree)
    requires Children(parent, ts)
    requires item != null ==> item == t.node && Detached(t) && Owned(t) !! OwnedAll(ts) + {parent}
    modifies parent`child, Roots(ts)`next, (if item == null then {} else {item})`prev
    ensures Children(parent, if item == null then ts else ts + [t])
  {
    hide Valid, Matches, Owned, OwnedAll, Distinct, DistinctAll, Chain;
    if item == null {
      return;
    }
    var c := parent.child;
    AllAllocated(ts);
    TreeAllocated(t);
    RootIsOwned(t);
    if c == null {
      parent.child := item;
      ChainOne(t, null, null);
      assert ts + [t] == [t];
    } else {
      ghost var i := 0;
      while c != null && c.next != null
        invariant i < |ts| && c == ts[i].node && Children(parent, ts) && Detached(t)
        decreases |ts| - i
      {
        ChainAt(ts, null, null, i);
        c, i := c.next, i + 1;
      }
      ChainAt(ts, null, null, i);
      SuffixObject(c, item, ts, t);
    }
  }

  /** `n->next = next`: what stands below `n` is not touched. */
  method SetNext(n: Node, next: Node?, ghost t: Tree)
    requires n == t.node && Valid(t) && Distinct(t)
    modifies n`next
    ensures n.next == next && Valid(t)
  {
    n.next := next;
  }

  /** `n->prev = prev`. */
  method SetPrev(n: Node, prev: Node?, ghost t: Tree)
    requires n == t.node && Valid(t) && Distinct(t)
    modifies n`prev
    ensures n.prev == prev && Valid(t)
  {
    n.prev := prev;
  }

  /** `n->next = next; n->prev = prev`. */
  method SetLinks(n: Node, prev: Node?, next: Node?, ghost t: Tree)
    requires n == t.node && Valid(t) && Distinct(t)
    modifies n`prev, n`next
    ensures n.prev == prev && n.next == next && Valid(t)
  {
    n.next := next;
    n.prev := prev;
  }

  lemma RootIsOwned(t: Tree)
    ensures t.node in Owned(t)
  {
  }

  lemma {:induction false} RootAtIsOwned(ts: seq<Tree>, i: nat)
    requires i < |ts|
    ensures ts[i].node in OwnedAll(ts)
    decreases |ts|
  {
    if i > 0 {
      assert ts[i] == ts[1..][i - 1];
      RootAtIsOwned(ts[1..], i - 1);
    }
  }

  /** `suffix_object`, after the last item of a list. */
  method SuffixObject(prev: Node, item: Node, ghost ts: seq<Tree>, ghost t: Tree)
    requires ts != [] && prev == Last(ts, null) && Chain(ts, null, null) && DistinctAll(ts)
    requires item == t.node && Detached(t) && Owned(t) !! OwnedAll(ts)
    modifies prev`next, item`prev
    ensures Chain(ts + [t], null, null) && DistinctAll(ts + [t]) && OwnedAll(ts + [t]) == OwnedAll(ts) + Owned(t)
  {
    ghost var n := |ts| - 1;
    hide Valid, Matches, Owned, OwnedAll, Distinct, DistinctAll;
    ghost var last := ts[n];
    ChainAt(ts, null, null, n);
    RootIsOwned(last);
    RootIsOwned(t);
    assert prev !in Owned(t) && item !in Owned(last) && prev !in OwnedAll(ts[..n]) && item !in OwnedAll(ts[..n]);
    AllAllocated(ts);
    TreeAllocated(t);
    SetNext(prev, item, last);
    SetPrev(item, prev, t);
    ChainSnoc(ts, t);
  }

  lemma ChainSnoc(ts: seq<Tree>, t: Tree)
    requires ts != [] && DistinctAll(ts) && Distinct(t) && Owned(t) !! OwnedAll(ts)
    requires var n := |ts| - 1;
             && Chain(ts[..n], null, ts[n].node) && Valid(ts[n])
             && ts[n].node.prev == Last(ts[..n], null) && ts[n].node.next == t.node
    requires Valid(t) && t.node.prev == ts[|ts| - 1].node && t.node.next == null
    ensures Chain(ts + [t], null, null) && DistinctAll(ts + [t]) && OwnedAll(ts + [t]) == OwnedAll(ts) + Owned(t)
  {
    hide Valid, Owned, OwnedAll, DistinctAll, Distinct, Chain;
    var n := |ts| - 1;
    ChainOne(t, ts[n].node, null);
    ChainJoin(ts[..n], ts[n], [t], null, null);
    assert ts == ts[..n] + [ts[n]];
    OwnedSplit(ts, [t]);
    DistinctSplit(ts, [t]);
  }

  /** `cJSON_DetachItemFromArray`: takes the selected item out of the list, if there is one. */
  method DetachItemFromArray(parent: Node, which: int, ghost ts: seq<Tree>) returns (c: Node?)
    requires Children(parent, ts)
    modifies parent`child, Roots(ts)`next, Roots(ts)`prev
    ensures Index(which) >= |ts| ==> c == null && Children(parent, ts)
    ensures var i := Index(which);
            i < |ts| ==> c == ts[i].node && Detached(ts[i]) && Children(parent, ts[..i] + ts[i + 1..])
  {
    AllAllocated(ts);
    c := Walk(parent, which, ts);
    if c == null {
      return;
    }
    ghost var i := Index(which);
    Unlink(parent, c, ts, i);
  }

  /** The pointer surgery of `cJSON_DetachItemFromArray` on item `i`. */
  method Unlink(parent: Node, c: Node, ghost ts: seq<Tree>, ghost i: nat)
    requires Children(parent, ts) && i < |ts| && c == ts[i].node
    modifies parent`child, Roots(ts)`next, Roots(ts)`prev
    ensures Detached(ts[i]) && Children(parent, ts[..i] + ts[i + 1..])
  {
    hide Valid, Matches, Owned, OwnedAll, Distinct, DistinctAll;
    ghost var a, t, b := ts[..i], ts[i], ts[i + 1..];
    ChainAt(ts, null, null, i);
    AllAllocated(ts);
    RootIsOwned(t);
    if i > 0 {
      RootAtIsOwned(a, i - 1);
    }
    if b != [] {
      RootAtIsOwned(b, 0);
    }
    if c.prev != null {
      RelinkFront(c.prev, c.next, a, c);
    }
    if c.next != null {
      RelinkBack(c.next, c.prev, b, c);
    }
    if c == parent.child {
      parent.child := c.next;
    }
    SetLinks(c, null, null, t);
    ChainSplit(a, b, null, null);
    DistinctSplit(a, b);
    OwnedSplit(a, b);
  }

  /** Makes the last item of a front end of a list point to `next`. */
  method RelinkFront(n: Node, next: Node?, ghost a: seq<Tree>, ghost c: Node?)
    requires a != [] && n == Last(a, null) && Chain(a, null, c) && DistinctAll(a)
    modifies n`next
    ensures Chain(a, null, next)
  {
    hide Valid, Matches, Owned, OwnedAll, Distinct, DistinctAll;
    ghost var k := |a| - 1;
    ChainAt(a, null, c, k);
    RootIsOwned(a[k]);
    AllAllocated(a);
    SetNext(n, next, a[k]);
    assert a == a[..k] + [a[k]] + [];
    ChainJoin(a[..k], a[k], [], null, next);
  }

  /** Makes the first item of a back end of a list point back to `prev`. */
  method RelinkBack(n: Node, prev: Node?, ghost b: seq<Tree>, ghost c: Node?)
    requires b != [] && n == b[0].node && Chain(b, c, null) && DistinctAll(b)
    modifies n`prev
    ensures Chain(b, prev, null)
  {
    hide Valid, Matches, Owned, OwnedAll, Distinct, DistinctAll;
    ChainAt(b, c, null, 0);
    RootIsOwned(b[0]);
    AllAllocated(b);
    SetPrev(n, prev, b[0]);
    assert b == [] + [b[0]] + b[1..];
    ChainJoin([], b[0], b[1..], prev, null);
  }

  /** `cJSON_ReplaceItemInArray`: the selected item gives way to the new one and is deleted. If no
      item is selected, nothing happens, and the new item is still the caller's. */
  method ReplaceItemInArray(h: Heap, parent: Node, which: int, newitem: Node, ghost ts: seq<Tree>, ghost t: Tree)
    requires Children(parent, ts) && newitem == t.node && Detached(t) && Owned(t) !! OwnedAll(ts) + {parent}
    requires OwnedAll(ts) + Owned(t) <= h.live && h !in h.live
    modifies h`live, parent`child, Roots(ts)`next, Roots(ts)`prev, newitem`next, newitem`prev
    ensures Index(which) >= |ts| ==> Children(parent, ts) && Detached(t) && h.live == old(h.live)
    ensures var i := Index(which);
            i < |ts| ==> Children(parent, ts[..i] + [t] + ts[i + 1..]) && h.live == old(h.live) - Owned(ts[i])
  {
    hide Valid, Matches, Owned, OwnedAll, Distinct, DistinctAll, Chain;
    AllAllocated(ts);
    TreeAllocated(t);
    var c := Walk(parent, which, ts);
    if c == null {
      return;
    }
    ghost var i := Index(which);
    Exchange(parent, c, newitem, ts, t, i);
    OwnedAt(ts, i);
    DistinctJoin(ts[..i], t, ts[i + 1..]);
    AllAllocated(ts[..i] + [t] + ts[i + 1..]);
    ChainOne(ts[i], null, null);
    Delete(h, c, [ts[i]], null);
  }

  /** Item `i` makes room for the new one. */
  method Exchange(parent: Node, c: Node, newitem: Node, ghost ts: seq<Tree>, ghost t: Tree, ghost i: nat)
    requires Children(parent, ts) && i < |ts| && c == ts[i].node
    requires newitem == t.node && Detached(t) && Owned(t) !! OwnedAll(ts) + {parent}
    modifies parent`child, Roots(ts)`next, Roots(ts)`prev, newitem`next, newitem`prev
    ensures Detached(ts[i]) && Children(parent, ts[..i] + [t] + ts[i + 1..])
  {
    hide Valid, Matches, Owned, OwnedAll, Distinct, DistinctAll, Chain;
    ghost var a, b := ts[..i], ts[i + 1..];
    ChainAt(ts, null, null, i);
    AllAllocated(ts);
    TreeAllocated(t);
    TreeAllocated(ts[i]);
    RootIsOwned(ts[i]);
    RootIsOwned(t);
    if i > 0 {
      RootAtIsOwned(a, i - 1);
    }
    if b != [] {
      RootAtIsOwned(b, 0);
    }
    LinkIn(parent, c, newitem, a, ts[i], b, t);
    SetLinks(c, null, null, ts[i]);
    ChainJoin(a, t, b, null, null);
    DistinctJoin(a, t, b);
  }

  /** The new item takes the place of `c` between `a` and `b`; `c` still points to its old place. */
  method LinkIn(parent: Node, c: Node, newitem: Node, ghost a: seq<Tree>, ghost x: Tree, ghost b: seq<Tree>,
                ghost t: Tree)
    requires c == x.node && newitem == t.node && Valid(x) && Detached(t)
    requires Chain(a, null, c) && Chain(b, c, null) && c.prev == Last(a, null) && c.next == Head(b, null)
    requires parent.child == Head(a, c) && DistinctAll(a) && DistinctAll(b)
    requires OwnedAll(a) !! Owned(x) !! OwnedAll(b) !! Owned(t)
             && parent !in OwnedAll(a) + Owned(x) + OwnedAll(b) + Owned(t)
    modifies parent`child, newitem`next, newitem`prev
    modifies (if a == [] then {} else {Last(a, null)})`next, (if b == [] then {} else {Head(b, null)})`prev
    ensures Chain(a, null, newitem) && Chain(b, newitem, null) && Valid(x) && Valid(t)
    ensures newitem.prev == Last(a, null) && newitem.next == Head(b, null) && parent.child == Head(a, newitem)
  {
    hide Valid, Matches, Owned, OwnedAll, Distinct, DistinctAll, Chain;
    AllAllocated(a);
    AllAllocated(b);
    TreeAllocated(t);
    TreeAllocated(x);
    RootIsOwned(x);
    RootIsOwned(t);
    if a != [] {
      RootAtIsOwned(a, 0);
      RootAtIsOwned(a, |a| - 1);
    }
    if b != [] {
      RootAtIsOwned(b, 0);
    }
    NoChain(a, c, newitem);
    NoChain(b, newitem, newitem);
    SetLinks(newitem, c.prev, c.next, t);
    if newitem.next != null {
      RelinkBack(newitem.next, newitem, b, c);
    }
    if c == parent.child {
      parent.child := newitem;
    } else {
      RelinkFront(newitem.prev, newitem, a, c);
    }
  }

  lemma NoChain(ts: seq<Tree>, prev: Node?, next: Node?)
    ensures ts == [] ==> Chain(ts, prev, null) && Chain(ts, null, next)
  {
  }

  lemma DistinctJoin(a: seq<Tree>, t: Tree, b: seq<Tree>)
    requires DistinctAll(a) && Distinct(t) && DistinctAll(b) && OwnedAll(a) !! Owned(t) !! OwnedAll(b)
    ensures DistinctAll(a + [t] + b) && OwnedAll(a + [t] + b) == OwnedAll(a) + Owned(t) + OwnedAll(b)
  {
    ChainOne(t, null, null);
    OwnedSplit(a, [t]);
    DistinctSplit(a, [t]);
    OwnedSplit(a + [t], b);
    DistinctSplit(a + [t], b);
  }
}
