/** Building trees: the creating functions of cJSON, and members added to objects and items to
    arrays. */
module Build {
  import opened Bytes
  import opened Json
  import opened Memory
  import opened Siblings
  import opened Objects
  import opened Duplicate
  import opened ParseTree
  import opened PrintText
  import opened PrintTree
  import opened PrintedTree

  // ----- Items of their own ------------------------------------------------

  /** An item that is in no list, holds no references and can be printed, whether or not memory ran out
      for its parts. */
  ghost predicate Kept(t: Tree)
    reads Owned(t)
  {
    Detached(t) && NoReferences(t) && Finite(t)
  }

  /** One that makes up a JSON value. */
  ghost predicate Item(t: Tree)
    reads Owned(t)
  {
    Kept(t) && Fit(t)
  }

  ghost predicate Live(h: Heap, t: Tree)
    reads h`live
  {
    Owned(t) <= h.live && h !in h.live
  }

  /** A constant string of the program. */
  method Literal(s: Text) returns (a: array<byte>)
    requires NulFree(s)
    ensures fresh(a) && Holds(a, s)
  {
    a := new byte[|s| + 1];
    var ptr := Sprint(a, 0, s);
  }

  /** The tree of a node without children and without a name. */
  ghost function Bare(item: Node, kind: Kind, text: Owner): Tree {
    Tree(item, kind, 0, 0.0, text, None, [], false)
  }

  /** `cJSON_CreateObject` and `cJSON_CreateArray`. */
  method CreateContainer(h: Heap, kind: Kind) returns (item: Node?)
    requires (kind == IsArray || kind == IsObject) && h !in h.live
    modifies h`asked, h`live
    ensures item == null ==> h.OutOfMemory() && h.live == old(h.live)
    ensures item != null ==>
              && fresh(item) && Item(Bare(item, kind, None)) && Live(h, Bare(item, kind, None))
              && h.live == old(h.live) + {item} && h.Refused() == old(h.Refused())
    ensures h.asked == old(h.asked) + 1 && (item != null <==> h.grants(old(h.asked)))
  {
    item := h.NewItem();
    if item != null {
      item.kind := kind;
      BareIsItem(item, kind, None);
    }
  }

  lemma BareIsItem(n: Node, kind: Kind, text: Owner)
    requires n.child == null && n.prev == null && n.next == null && n.name == null && !n.isReference
    requires n.kind == kind && n.valueint == 0 && n.valuedouble == 0.0 && n.valuestring == Field(text)
             && OwnerHolds(text)
    ensures Detached(Bare(n, kind, text)) && NoReferences(Bare(n, kind, text)) && Finite(Bare(n, kind, text))
    ensures Owned(Bare(n, kind, text)) == {n} + Buffer(text)
            && (kind == IsString && text.Some? ==> Fit(Bare(n, kind, text)))
    ensures kind == IsArray || kind == IsObject ==> Fit(Bare(n, kind, text))
  {
    assert Chain([], null, null);
  }

  /** `cJSON_CreateString`: without memory for the string the item is left without one. */
  method CreateString(h: Heap, s: Text) returns (item: Node?, ghost text: Owner)
    requires NulFree(s) && h !in h.live
    modifies h`asked, h`live
    ensures item == null ==> h.OutOfMemory() && h.live == old(h.live)
    ensures item != null ==>
              && fresh(item) && fresh(Buffer(text)) && h.live == old(h.live) + {item} + Buffer(text)
              && Kept(Bare(item, IsString, text))
              && (if text.Some? then
                    text.text == s && Item(Bare(item, IsString, text)) && Live(h, Bare(item, IsString, text))
                  else h.OutOfMemory())
              && old(h.Refused()) <= h.Refused()
  {
    text := None;
    item := h.NewItem();
    if item != null {
      item.kind := IsString;
      var str := Literal(s);
      item.valuestring := StrDup(h, str, s);
      text := if item.valuestring == null then None else Some(item.valuestring, s);
      BareIsItem(item, IsString, text);
    }
  }

  // ----- Adding ------------------------------------------------------------

  /** An unnamed array or object with one more child. */
  ghost function Grow(t: Tree, x: Tree): Tree {
    t.(kids := t.kids + [x])
  }

  ghost predicate Container(t: Tree) {
    t.text == None && t.name == None && (t.kind == IsArray || t.kind == IsObject)
  }

  lemma {:induction false} AllFitSnoc(ts: seq<Tree>, t: Tree, named: bool)
    requires AllFit(ts, named) && Fit(t) && (named ==> t.name.Some?)
    ensures AllFit(ts + [t], named)
    decreases |ts|
  {
    if ts == [] {
      assert ts + [t] == [t];
    } else {
      assert (ts + [t])[1..] == ts[1..] + [t];
      AllFitSnoc(ts[1..], t, named);
    }
  }

  lemma {:induction false} FiniteSnoc(ts: seq<Tree>, t: Tree)
    requires FiniteAll(ts) && Finite(t)
    ensures FiniteAll(ts + [t])
    decreases |ts|
  {
    if ts == [] {
      assert ts + [t] == [t];
    } else {
      assert (ts + [t])[1..] == ts[1..] + [t];
      FiniteSnoc(ts[1..], t);
    }
  }

  lemma Grown(t: Tree, x: Tree)
    requires Container(t) && Children(t.node, t.kids + [x]) && t.node.prev == null && t.node.next == null
    requires t.node.kind == t.kind && t.node.valueint == t.integer && t.node.valuedouble == t.number
    requires t.node.name == null && t.node.valuestring == null && !t.node.isReference
    requires NoReferences(t) && NoReferences(x) && Finite(t) && Finite(x)
    ensures Kept(Grow(t, x)) && Owned(Grow(t, x)) == Owned(t) + Owned(x)
  {
    hide Chain, DistinctAll, OwnedAll, NoReferencesIn, Owned, FiniteAll;
    FiniteSnoc(t.kids, x);
    OwnedParts(t);
    OwnedParts(Grow(t, x));
    OwnedSplit(t.kids, [x]);
    ChainOne(x, null, null);
    NoReferencesSnoc(t.kids, x);
  }

  lemma GrownFit(t: Tree, x: Tree)
    requires Container(t) && Fit(t) && Fit(x) && (t.kind == IsObject ==> x.name.Some?)
    ensures Fit(Grow(t, x))
    ensures MembersOf(Grow(t, x).kids) == MembersOf(t.kids) + [Member(TextOf(x.name), JsonOf(x))]
    ensures JsonsOf(Grow(t, x).kids) == JsonsOf(t.kids) + [JsonOf(x)]
  {
    hide AllFit, MembersOf, JsonsOf;
    AllFitSnoc(t.kids, x, t.kind == IsObject);
    JsonsOfSnoc(t.kids, x);
  }

  lemma OwnedParts(t: Tree)
    requires Container(t)
    ensures Owned(t) == {t.node} + OwnedAll(t.kids)
  {
  }

  lemma {:induction false} RootsAreOwned(ts: seq<Tree>)
    ensures forall n :: n in Roots(ts) ==> n in OwnedAll(ts)
  {
    forall i | 0 <= i < |ts| ensures ts[i].node in OwnedAll(ts) {
      RootAtIsOwned(ts, i);
    }
  }

  /** An item, seen as the parent of its children. */
  lemma AsParent(t: Tree)
    requires Detached(t) && NoReferences(t) && Container(t)
    ensures Children(t.node, t.kids) && Owned(t) == {t.node} + OwnedAll(t.kids)
    ensures t.node.kind == t.kind && t.node.valueint == t.integer && t.node.valuedouble == t.number
    ensures t.node.name == null && t.node.valuestring == null && !t.node.isReference
    ensures forall n :: n in Roots(t.kids) ==> n in OwnedAll(t.kids)
  {
    RootsAreOwned(t.kids);
  }

  /** `cJSON_AddItemToArray` of an item that has no name. */
  method AddItem(h: Heap, parent: Node, item: Node, ghost t: Tree, ghost x: Tree)
    requires parent == t.node && item == x.node && Kept(t) && Live(h, t) && Kept(x) && Live(h, x)
             && Owned(t) !! Owned(x)
    requires Container(t) && t.kind == IsArray
    modifies Owned(t), item
    ensures Kept(Grow(t, x)) && Live(h, Grow(t, x)) && Owned(Grow(t, x)) == Owned(t) + Owned(x)
    ensures Fit(t) && Fit(x) ==> Fit(Grow(t, x)) && JsonsOf(Grow(t, x).kids) == JsonsOf(t.kids) + [JsonOf(x)]
  {
    hide Chain, DistinctAll, Distinct, OwnedAll, Owned, Valid, AllFit, Fit, NoReferencesIn, JsonsOf, MembersOf, JsonOf;
    hide Finite;
    AsParent(t);
    RootIsOwned(x);
    TreeAllocated(t);
    TreeAllocated(x);
    AllAllocated(t.kids);
    AddItemToArray(parent, item, t.kids, x);
    Grown(t, x);
    if Fit(t) && Fit(x) {
      GrownFit(t, x);
    }
  }

  /** The state after adding a member `name` with the value of `x` to the object `t`. */
  ghost predicate Added(h: Heap, t: Tree, t': Tree, name: Text, value: Json)
    reads h, Owned(t')
  {
    && Item(t') && Live(h, t') && Container(t') && t'.node == t.node && t'.kind == t.kind == IsObject
    && Owned(t) <= Owned(t') && MembersOf(t'.kids) == MembersOf(t.kids) + [Member(name, value)]
  }

  /** `cJSON_AddItemToObject` of an item without a name. Without memory for the name the item is added
      without one. */
  method AddMember(h: Heap, parent: Node, name: Text, item: Node, ghost t: Tree, ghost x: Tree)
    returns (ghost t': Tree)
    requires NulFree(name) && parent == t.node && item == x.node
    requires Kept(t) && Live(h, t) && Kept(x) && Live(h, x) && Owned(t) !! Owned(x)
    requires Container(t) && t.kind == IsObject && x.name == None
    modifies h`asked, h`live, Owned(t), item
    ensures |t'.kids| == |t.kids| + 1 && t' == Grow(t, Renamed(x, t'.kids[|t.kids|].name))
    ensures var given := t'.kids[|t.kids|].name;
            if given.Some? then given.text == name else h.OutOfMemory()
    ensures Kept(t') && Live(h, t') && Owned(t) + Owned(x) <= Owned(t') && fresh(Owned(t') - Owned(t) - Owned(x))
    ensures h.live == old(h.live) + Owned(t') && old(h.Refused()) <= h.Refused()
    ensures !h.OutOfMemory() && Fit(t) && Fit(x) ==> Added(h, t, t', name, JsonOf(x))
  {
    hide Chain, DistinctAll, Distinct, OwnedAll, Owned, Valid, AllFit, NoReferencesIn, JsonsOf, MembersOf, JsonOf;
    hide Fit, Finite, Heap.Refused;
    AsParent(t);
    RootIsOwned(x);
    TreeAllocated(t);
    TreeAllocated(x);
    AllAllocated(t.kids);
    var str := Literal(name);
    ghost var named := AddItemToObject(h, parent, str, item, t.kids, x, name);
    Named(x, named.name);
    t' := Grow(t, named);
    Grown(t, named);
    if Fit(t) && Fit(x) && named.name.Some? {
      GrownFit(t, named);
    }
  }

  lemma Named(x: Tree, name: Owner)
    requires x.name == None && NoReferences(x)
    ensures NoReferences(Renamed(x, name)) && JsonOf(Renamed(x, name)) == JsonOf(x)
    ensures Fit(x) ==> Fit(Renamed(x, name))
    ensures Finite(x) ==> Finite(Renamed(x, name))
    ensures Owned(Renamed(x, name)) == Owned(x) + Buffer(name)
  {
  }

  /** `cJSON_AddStringToObject`. Without memory nothing is added, or an item without a string or
      without a name. */
  method AddString(h: Heap, parent: Node, name: Text, s: Text, ghost t: Tree) returns (ghost t': Tree)
    requires NulFree(name) && NulFree(s)
    requires parent == t.node && Kept(t) && Live(h, t) && Container(t) && t.kind == IsObject
    modifies h`asked, h`live, Owned(t)
    ensures Kept(t') && Live(h, t') && Container(t') && t'.node == t.node && t'.kind == IsObject
    ensures Owned(t) <= Owned(t') && fresh(Owned(t') - Owned(t)) && h.live == old(h.live) + Owned(t')
    ensures old(h.Refused()) <= h.Refused()
    ensures !h.OutOfMemory() && Fit(t) ==> Added(h, t, t', name, String(s))
  {
    hide Chain, DistinctAll, Distinct, OwnedAll, Owned, Valid, AllFit, Fit, NoReferencesIn, JsonsOf, MembersOf, JsonOf;
    hide Finite, Heap.Refused;
    TreeAllocated(t);
    t' := t;
    var item, text := CreateString(h, s);
    if item != null {
      BareOwns(item, text);
      t' := AddMember(h, parent, name, item, t, Bare(item, IsString, text));
    }
  }

  lemma BareOwns(item: Node, text: Owner)
    ensures Owned(Bare(item, IsString, text)) == {item} + Buffer(text)
    ensures text.Some? ==>
              Fit(Bare(item, IsString, text)) && JsonOf(Bare(item, IsString, text)) == String(text.text)
  {
  }
}
