/** Objects: items found by name, whatever the case of its letters, and references. */
module Objects {
  import opened Bytes
  import opened Memory
  import opened Siblings

  // ----- Comparing names ---------------------------------------------------

  /** `tolower` in the C locale. */
  function Lower(b: byte): byte {
    if 65 <= b <= 90 then b + 32 else b
  }

  function Fold(t: Text): Text {
    seq(|t|, i requires 0 <= i < |t| => Lower(t[i]))
  }

  /** Two names are the same but for the case of ASCII letters; a missing name is like no other. */
  ghost predicate SameName(a: Owner, b: Owner) {
    if a.Some? && b.Some? then Fold(a.text) == Fold(b.text) else a.None? && b.None?
  }

  /** The same byte, or the two cases of one ASCII letter. */
  ghost predicate Alike(b: byte, c: byte) {
    || b == c
    || ('A' <= b as char <= 'Z' && c == b + 32)
    || ('A' <= c as char <= 'Z' && b == c + 32)
  }

  ghost predicate AlikeTexts(a: Text, b: Text) {
    |a| == |b| && forall i :: 0 <= i < |a| ==> Alike(a[i], b[i])
  }

  lemma LowerIs(b: byte, c: byte)
    ensures Lower(b) == Lower(c) <==> Alike(b, c)
  {
  }

  lemma FoldIs(a: Text, b: Text)
    ensures Fold(a) == Fold(b) <==> AlikeTexts(a, b)
  {
    hide Lower, Alike;
    forall i | 0 <= i < |a| && i < |b| ensures Lower(a[i]) == Lower(b[i]) <==> Alike(a[i], b[i]) {
      LowerIs(a[i], b[i]);
    }
    if |a| == |b| {
      assert forall i :: 0 <= i < |a| ==> Fold(a)[i] == Lower(a[i]) && Fold(b)[i] == Lower(b[i]);
    } else {
      assert |Fold(a)| != |Fold(b)|;
    }
  }

  /** Names are the same exactly if they differ in nothing but the case of ASCII letters. */
  lemma SameNameIs(a: Owner, b: Owner)
    ensures SameName(a, b) <==> if a.Some? && b.Some? then AlikeTexts(a.text, b.text) else a.None? && b.None?
  {
    if a.Some? && b.Some? {
      FoldIs(a.text, b.text);
    }
  }

  lemma SameNameIsEquivalence(a: Owner, b: Owner, c: Owner)
    ensures SameName(a, a) && (SameName(a, b) ==> SameName(b, a))
    ensures SameName(a, b) && SameName(b, c) ==> SameName(a, c)
  {
  }

  lemma FoldFrom(a: Text, b: Text, i: nat)
    requires NulFree(a) && NulFree(b) && i <= |a| && i <= |b|
    requires forall j :: 0 <= j < i ==> Lower(a[j]) == Lower(b[j])
    ensures i == |a| == |b| ==> Fold(a) == Fold(b)
    ensures Lower(At(a, i)) != Lower(At(b, i)) ==> Fold(a) != Fold(b)
  {
    if i < |a| && i < |b| && Lower(a[i]) != Lower(b[i]) {
      assert Fold(a)[i] != Fold(b)[i];
    } else if (i < |a|) != (i < |b|) {
      assert |Fold(a)| != |Fold(b)|;
    }
  }

  /** `cJSON_strcasecmp`: 0 exactly for the same name. */
  method StrCaseCmp(s1: array?<byte>, s2: array?<byte>, ghost a: Owner, ghost b: Owner) returns (r: int)
    requires s1 == Field(a) && s2 == Field(b) && OwnerHolds(a) && OwnerHolds(b)
    ensures r == 0 <==> SameName(a, b)
    ensures r == 0 <==> if a.Some? && b.Some? then AlikeTexts(a.text, b.text) else a.None? && b.None?
  {
    SameNameIs(a, b);
    hide AlikeTexts;
    if s1 == null {
      return if s2 == null then 0 else 1;
    }
    if s2 == null {
      return 1;
    }
    var i := 0;
    while Lower(s1[i]) == Lower(s2[i])
      invariant i <= |a.text| && i <= |b.text|
      invariant forall j :: 0 <= j < i ==> Lower(a.text[j]) == Lower(b.text[j])
      decreases |a.text| - i
    {
      HeldByte(s1, a.text, i);
      HeldByte(s2, b.text, i);
      if s1[i] == 0 {
        FoldFrom(a.text, b.text, i);
        return 0;
      }
      i := i + 1;
    }
    HeldByte(s1, a.text, i);
    HeldByte(s2, b.text, i);
    FoldFrom(a.text, b.text, i);
    return Lower(s1[i]) - Lower(s2[i]);
  }

  // ----- Finding items -----------------------------------------------------

  /** The first item with the given name, or the number of items. */
  ghost function FirstMatch(ts: seq<Tree>, key: Owner): (i: nat)
    ensures i <= |ts| && (i < |ts| ==> SameName(ts[i].name, key))
    ensures forall j :: 0 <= j < i ==> !SameName(ts[j].name, key)
  {
    if ts == [] || SameName(ts[0].name, key) then 0 else 1 + FirstMatch(ts[1..], key)
  }

  lemma FirstMatchIs(ts: seq<Tree>, key: Owner, i: nat)
    requires i <= |ts| && (i < |ts| ==> SameName(ts[i].name, key))
    requires forall j :: 0 <= j < i ==> !SameName(ts[j].name, key)
    ensures FirstMatch(ts, key) == i
  {
  }

  lemma NameInMemory(t: Tree)
    requires Valid(t)
    ensures t.node.name == Field(t.name) && OwnerHolds(t.name)
  {
  }

  /** The loop that looks an item up by its name, counting as it goes. */
  method Find(parent: Node, key: array?<byte>, ghost ts: seq<Tree>, ghost k: Owner) returns (c: Node?, n: nat)
    requires Children(parent, ts) && key == Field(k) && OwnerHolds(k)
    ensures n == FirstMatch(ts, k)
    ensures c == if n < |ts| then ts[n].node else null
  {
    hide Valid, Owned, OwnedAll, Distinct, DistinctAll, SameName;
    AllAllocated(ts);
    c := parent.child;
    n := 0;
    while c != null
      invariant n <= |ts| && c == Head(ts[n..], null) && Children(parent, ts) && OwnerHolds(k)
      invariant forall j :: 0 <= j < n ==> !SameName(ts[j].name, k)
      decreases |ts| - n
    {
      ChainAt(ts, null, null, n);
      NameInMemory(ts[n]);
      var r := StrCaseCmp(c.name, key, ts[n].name, k);
      if r == 0 {
        break;
      }
      n, c := n + 1, c.next;
    }
    FirstMatchIs(ts, k, n);
  }

  /** `cJSON_GetObjectItem`. */
  method GetObjectItem(parent: Node, key: array?<byte>, ghost ts: seq<Tree>, ghost k: Owner) returns (c: Node?)
    requires Children(parent, ts) && key == Field(k) && OwnerHolds(k)
    ensures var i := FirstMatch(ts, k);
            c == if i < |ts| then ts[i].node else null
  {
    var n;
    c, n := Find(parent, key, ts, k);
  }

  /** `cJSON_DetachItemFromObject`: takes out the item that `cJSON_GetObjectItem` finds. */
  method DetachItemFromObject(parent: Node, key: array?<byte>, ghost ts: seq<Tree>, ghost k: Owner) returns (c: Node?)
    requires Children(parent, ts) && key == Field(k) && OwnerHolds(k)
    modifies parent`child, Roots(ts)`next, Roots(ts)`prev
    ensures var i := FirstMatch(ts, k);
            if i == |ts| then c == null && Children(parent, ts)
            else c == ts[i].node && Detached(ts[i]) && Children(parent, ts[..i] + ts[i + 1..])
  {
    AllAllocated(ts);
    var n;
    c, n := Find(parent, key, ts, k);
    if c != null {
      c := DetachItemFromArray(parent, n, ts);
    }
  }

  // ----- Naming items ------------------------------------------------------

  /** The tree with another name. */
  ghost function Renamed(t: Tree, name: Owner): Tree {
    t.(name := name)
  }

  lemma RenamedOwns(t: Tree, name: Owner)
    ensures Owned(Renamed(t, name)) <= Owned(t) + Buffer(name)
  {
  }

  /** `item->string = cJSON_strdup(string)`: without memory the item is left without a name. */
  method SetName(h: Heap, item: Node, str: array<byte>, ghost t: Tree, ghost s: Text) returns (ghost t': Tree)
    requires item == t.node && Valid(t) && Distinct(t) && Holds(str, s) && h !in Owned(t)
    modifies h`asked, h`live, item`name
    ensures t'.name.Some? ==> t'.name.text == s && fresh(t'.name.at) && h.Refused() == old(h.Refused())
    ensures t'.name.None? ==> h.OutOfMemory()
    ensures t' == Renamed(t, t'.name) && Valid(t') && Distinct(t') && h.live == old(h.live) + Buffer(t'.name)
  {
    TreeAllocated(t);
    var copy := StrDup(h, str, s);
    assert Chain(t.kids, null, null);
    t' := Renamed(t, if copy == null then None else Some(copy, s));
    item.name := copy;
  }

  /** `cJSON_AddItemToObject`: the item loses its old name, gets a copy of the new one, and becomes
      the last item. Without memory for the copy it becomes the last item without a name. */
  method AddItemToObject(h: Heap, parent: Node, str: array<byte>, item: Node?, ghost ts: seq<Tree>, ghost t: Tree,
                         ghost s: Text)
    returns (ghost t': Tree)
    requires Children(parent, ts) && Holds(str, s) && h !in OwnedAll(ts)
    requires item != null ==>
               && item == t.node && Detached(t) && Owned(t) !! OwnedAll(ts) + {parent}
               && Owned(t) <= h.live && h !in h.live && str !in Buffer(t.name)
    modifies h`asked, h`live, parent`child, Roots(ts)`next
    modifies (if item == null then {} else {item})`prev, (if item == null then {} else {item})`name
    ensures item == null ==> Children(parent, ts) && h.live == old(h.live)
    ensures item != null ==>
              && t' == Renamed(t, t'.name) && Children(parent, ts + [t'])
              && (if t'.name.Some? then t'.name.text == s && fresh(t'.name.at) else h.OutOfMemory())
              && h.live == old(h.live) - Buffer(t.name) + Buffer(t'.name) && old(h.Refused()) <= h.Refused()
  {
    t' := t;
    if item == null {
      return;
    }
    AllAllocated(ts);
    TreeAllocated(t);
    t' := GiveName(h, item, str, t, s);
    AllAllocated(ts);
    AddItemToArray(parent, item, ts, t');
  }

  /** Frees the name of the item, if it has one, and gives it a new one. */
  method GiveName(h: Heap, item: Node, str: array<byte>, ghost t: Tree, ghost s: Text) returns (ghost t': Tree)
    requires item == t.node && Detached(t) && Owned(t) <= h.live && h !in h.live
    requires Holds(str, s) && str !in Buffer(t.name)
    modifies h`asked, h`live, item`name
    ensures t' == Renamed(t, t'.name) && Detached(t') && fresh(Buffer(t'.name))
    ensures t'.name.Some? ==> t'.name.text == s
    ensures t'.name.None? ==> h.OutOfMemory()
    ensures h.live == old(h.live) - Buffer(t.name) + Buffer(t'.name) && old(h.Refused()) <= h.Refused()
  {
    if item.name != null {
      h.Free(item.name);
    }
    t' := SetName(h, item, str, t, s);
  }

  /** What the list and the new item own after a replacement under the name `key`. */
  ghost function OwnedAfter(ts: seq<Tree>, t: Tree, t': Tree, key: Owner): set<object> {
    var i := FirstMatch(ts, key);
    if i == |ts| then OwnedAll(ts) + Owned(t) else OwnedAll(ts[..i] + [t'] + ts[i + 1..])
  }

  lemma RenamedOwnsExactly(t: Tree, name: Owner)
    requires Distinct(t)
    ensures Owned(Renamed(t, name)) == Owned(t) - Buffer(t.name) + Buffer(name)
  {
  }

  /** Of what is live after a replacement, everything has an owner that had one before, but for the
      old name of the new item if there was a match: so nothing is lost exactly when there was no
      match or no old name. */
  lemma ReplaceLosesOldName(before: set<object>, live: set<object>, ts: seq<Tree>, t: Tree, t': Tree, key: Owner)
    requires DistinctAll(ts) && Distinct(t) && Owned(t) !! OwnedAll(ts) && OwnedAll(ts) + Owned(t) <= before
    requires var i := FirstMatch(ts, key);
             if i == |ts| then t' == t && live == before
             else && t' == Renamed(t, t'.name) && Buffer(t'.name) !! before
                  && live == before - Owned(ts[i]) + Buffer(t'.name)
    ensures var others := before - (OwnedAll(ts) + Owned(t));
            && live - OwnedAfter(ts, t, t', key) == others + (if FirstMatch(ts, key) < |ts| then Buffer(t.name) else {})
            && (live - OwnedAfter(ts, t, t', key) == others <==> FirstMatch(ts, key) == |ts| || t.name.None?)
  {
    hide FirstMatch, Distinct, DistinctAll, OwnedAll, Renamed;
    var i := FirstMatch(ts, key);
    assert Buffer(t.name) <= Owned(t);
    if i < |ts| {
      RenamedOwnsExactly(t, t'.name);
      OwnedAt(ts, i);
      OwnedSplit(ts[..i], [t']);
      OwnedSplit(ts[..i] + [t'], ts[i + 1..]);
      ChainOne(t', null, null);
      hide Owned, Buffer;
      LostSet(before, OwnedAll(ts[..i]), Owned(ts[i]), OwnedAll(ts[i + 1..]), Owned(t), Buffer(t.name),
              Buffer(t'.name));
    }
  }

  lemma LostSet(live: set<object>, a: set<object>, x: set<object>, c: set<object>, t: set<object>, n: set<object>,
                m: set<object>)
    requires a !! x !! c !! t && a + x + c + t <= live && n <= t && m !! live
    ensures (live - x + m) - (a + (t - n + m) + c) == (live - (a + x + c + t)) + n
    ensures n !! live - (a + x + c + t)
  {
  }

  /** `cJSON_ReplaceItemInObject`: the item that `cJSON_GetObjectItem` finds gives way to the new
      one, renamed. The name that the new item had before is overwritten, not freed: it stays live. */
  method ReplaceItemInObject(h: Heap, parent: Node, str: array<byte>, newitem: Node, ghost ts: seq<Tree>,
                             ghost t: Tree, ghost s: Text)
    returns (ghost t': Tree)
    requires Children(parent, ts) && newitem == t.node && Detached(t) && Owned(t) !! OwnedAll(ts) + {parent}
    requires OwnedAll(ts) + Owned(t) <= h.live && h !in h.live && Holds(str, s)
    modifies h`asked, h`live, parent`child, Roots(ts)`next, Roots(ts)`prev, newitem`next, newitem`prev,
             newitem`name
    ensures FirstMatch(ts, Some(str, s)) == |ts| ==>
              Children(parent, ts) && t' == t && Detached(t) && h.live == old(h.live)
    ensures var i := FirstMatch(ts, Some(str, s));
            i < |ts| ==>
              && t' == Renamed(t, t'.name) && Children(parent, ts[..i] + [t'] + ts[i + 1..])
              && (if t'.name.Some? then t'.name.text == s && fresh(t'.name.at) else h.OutOfMemory())
              && h.live == old(h.live) - Owned(ts[i]) + Buffer(t'.name)
    ensures h.live - OwnedAfter(ts, t, t', Some(str, s)) == old(h.live) - (OwnedAll(ts) + Owned(t))
            <==> FirstMatch(ts, Some(str, s)) == |ts| || t.name.None?
  {
    hide Owned, OwnedAll, Valid, Matches, Distinct, DistinctAll, SameName, OwnedAfter, Chain, FirstMatch;
    t' := t;
    AllAllocated(ts);
    TreeAllocated(t);
    var c, i := Find(parent, str, ts, Some(str, s));
    if c != null {
      OwnedAt(ts, i);
      RootIsOwned(t);
      t' := SetName(h, newitem, str, t, s);
      RenamedOwns(t, t'.name);
      AllAllocated(ts);
      ReplaceItemInArray(h, parent, i, newitem, ts, t');
    }
    ReplaceLosesOldName(old(h.live), h.live, ts, t, t', Some(str, s));
  }

  // ----- What a lookup finds afterwards ------------------------------------

  /** An item added under a name that no other item has is the one that is found. */
  lemma FoundAfterAdd(ts: seq<Tree>, t: Tree, key: Owner)
    requires FirstMatch(ts, key) == |ts| && SameName(t.name, key)
    ensures FirstMatch(ts + [t], key) == |ts|
  {
    FirstMatchIs(ts + [t], key, |ts|);
  }

  /** After a replacement the new item is the one that is found. */
  lemma FoundAfterReplace(ts: seq<Tree>, t: Tree, key: Owner)
    requires FirstMatch(ts, key) < |ts| && SameName(t.name, key)
    ensures var i := FirstMatch(ts, key);
            FirstMatch(ts[..i] + [t] + ts[i + 1..], key) == i
  {
    var i := FirstMatch(ts, key);
    FirstMatchIs(ts[..i] + [t] + ts[i + 1..], key, i);
  }

  /** After a detachment the next item of that name is found, if there is one. */
  lemma FoundAfterDetach(ts: seq<Tree>, key: Owner)
    requires FirstMatch(ts, key) < |ts|
    ensures var i := FirstMatch(ts, key);
            FirstMatch(ts[..i] + ts[i + 1..], key) == i + FirstMatch(ts[i + 1..], key)
  {
    hide SameName;
    var i := FirstMatch(ts, key);
    var rest := ts[..i] + ts[i + 1..];
    var n := i + FirstMatch(ts[i + 1..], key);
    forall j | 0 <= j < n ensures !SameName(rest[j].name, key) {
      if j >= i {
        assert rest[j] == ts[i + 1..][j - i];
      }
    }
    FirstMatchIs(rest, key, n);
  }

  // ----- References --------------------------------------------------------

  /** The tree of a reference to the root of `t`: it owns its node and nothing else. */
  ghost function Reference(ref: Node, t: Tree): Tree {
    Tree(ref, t.kind, t.integer, t.number, None, None, [], true)
  }

  /** `create_reference`. */
  method CreateReference(h: Heap, item: Node, ghost t: Tree) returns (ref: Node?)
    requires item == t.node && Valid(t)
    modifies h`asked, h`live
    ensures ref == null ==> h.OutOfMemory() && h.live == old(h.live)
    ensures ref != null ==>
              && fresh(ref) && ref.isReference && ref.child == item.child && ref.valuestring == item.valuestring
              && Detached(Reference(ref, t)) && h.live == old(h.live) + {ref}
  {
    ref := h.NewItem();
    if ref != null {
      ref.child, ref.kind, ref.valuestring := item.child, item.kind, item.valuestring;
      ref.valueint, ref.valuedouble := item.valueint, item.valuedouble;
      ref.name, ref.isReference, ref.next, ref.prev := null, true, null, null;
    }
  }

  /** `cJSON_AddItemReferenceToArray`. */
  method AddItemReferenceToArray(h: Heap, parent: Node, item: Node, ghost ts: seq<Tree>, ghost t: Tree)
    returns (ref: Node?)
    requires Children(parent, ts) && item == t.node && Valid(t) && h !in OwnedAll(ts)
    modifies h`asked, h`live, parent`child, Roots(ts)`next
    ensures ref == null ==> h.OutOfMemory() && Children(parent, ts) && h.live == old(h.live)
    ensures ref != null ==> Children(parent, ts + [Reference(ref, t)]) && h.live == old(h.live) + {ref}
  {
    AllAllocated(ts);
    ref := CreateReference(h, item, t);
    AddItemToArray(parent, ref, ts, if ref == null then t else Reference(ref, t));
  }

  /** Deleting a reference frees its node and nothing else: what it refers to stays allocated. */
  method DeleteReference(h: Heap, ref: Node, ghost t: Tree)
    requires Detached(Reference(ref, t)) && ref in h.live && h !in h.live
    modifies h`live
    ensures h.live == old(h.live) - {ref}
  {
    ChainOne(Reference(ref, t), null, null);
    Delete(h, ref, [Reference(ref, t)], null);
  }
}
