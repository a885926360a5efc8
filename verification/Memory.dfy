/** Memory: the allocator behind `cJSON_malloc`, the nodes, and the trees that nodes form. */
module Memory {
  import opened Bytes
  import opened Json

  /** The global state of the library: the allocator, and `ep`, where the last parse failed (an index
      into the text, or -1 for null). `grants(n)` says whether request number `n` is granted, so a
      proof for every `Heap` is a proof for every pattern of allocation failures. */
  class Heap {
    const grants: nat -> bool
    var asked: nat
    var ep: int
    /** What is allocated and not yet freed. */
    ghost var live: set<object>

    /** Every request is granted. */
    ghost predicate Generous() {
      forall n :: grants(n)
    }

    /** How many requests have been refused so far. */
    ghost function Refused(): nat
      reads this`asked
    {
      Refusals(grants, asked)
    }

    /** A request has been refused since the call began. */
    twostate predicate OutOfMemory()
      reads this`asked
    {
      Refused() > old(Refused())
    }

    constructor (grants: nat -> bool)
      ensures this.grants == grants && asked == 0 && ep == -1 && live == {}
    {
      this.grants := grants;
      asked, ep, live := 0, -1, {};
    }

    method Ask() returns (granted: bool)
      modifies this`asked
      ensures granted == grants(old(asked)) && asked == old(asked) + 1
      ensures Refused() == old(Refused()) + if granted then 0 else 1
    {
      granted := grants(asked);
      asked := asked + 1;
    }

    /** `cJSON_malloc(size)` for a character buffer. */
    method Bytes(size: nat) returns (a: array?<byte>)
      modifies this`asked, this`live
      ensures a == null ==> OutOfMemory() && live == old(live)
      ensures a != null ==> fresh(a) && a.Length == size && live == old(live) + {a} && Refused() == old(Refused())
    {
      var granted := Ask();
      if granted {
        a := new byte[size];
        live := live + {a};
      } else {
        a := null;
      }
    }

    /** `cJSON_malloc(n * sizeof(char *))` and the `memset` after it: an array of null pointers. */
    method Pointers(n: nat) returns (a: array?<array?<byte>>)
      modifies this`asked, this`live
      ensures a == null ==> OutOfMemory() && live == old(live)
      ensures a != null ==>
                && fresh(a) && a.Length == n && (forall k :: 0 <= k < n ==> a[k] == null)
                && live == old(live) + {a} && Refused() == old(Refused())
    {
      var granted := Ask();
      if granted {
        a := new array?<byte>[n](_ => null);
        live := live + {a};
      } else {
        a := null;
      }
    }

    /** `cJSON_New_Item`: a zero-filled node. */
    method NewItem() returns (n: Node?)
      modifies this`asked, this`live
      ensures n == null ==> OutOfMemory() && live == old(live)
      ensures n != null ==> fresh(n) && n.Zero() && live == old(live) + {n} && Refused() == old(Refused())
      ensures asked == old(asked) + 1 && (n != null <==> grants(old(asked)))
    {
      var granted := Ask();
      if granted {
        n := new Node();
        live := live + {n};
      } else {
        n := null;
      }
    }

    /** `cJSON_free`: only what is live can be freed. */
    method Free(o: object)
      requires o in live
      modifies this`live
      ensures live == old(live) - {o}
    {
      live := live - {o};
    }
  }

  /** Of the first `n` requests, how many are refused. */
  ghost function Refusals(grants: nat -> bool, n: nat): nat {
    if n == 0 then 0 else Refusals(grants, n - 1) + if grants(n - 1) then 0 else 1
  }

  /** If more requests have been refused at the end than at the beginning, there is a request in
      between that was refused; and the other way round. */
  lemma {:induction false} RefusedBetween(grants: nat -> bool, a: nat, b: nat)
    requires a <= b
    ensures Refusals(grants, a) <= Refusals(grants, b)
    ensures Refusals(grants, a) < Refusals(grants, b) <==> exists n :: a <= n < b && !grants(n)
    decreases b
  {
    if a < b {
      RefusedBetween(grants, a, b - 1);
      if !grants(b - 1) {
        assert a <= b - 1 < b && !grants(b - 1);
      }
    }
  }

  /** An allocator that grants every request never refuses one. */
  lemma NeverRefuses(h: Heap)
    requires h.Generous()
    ensures h.Refused() == 0
  {
    RefusedBetween(h.grants, 0, h.asked);
  }

  /** The low byte of the C field `type`, numbered as there. */
  datatype Kind = IsFalse | IsTrue | IsNull | IsNumber | IsString | IsArray | IsObject

  /** `struct cJSON`. The bit `cJSON_IsReference` of `type` is a field of its own. */
  class Node {
    var next: Node?
    var prev: Node?
    var child: Node?
    var kind: Kind
    var isReference: bool
    var valuestring: array?<byte>
    var valueint: int
    var valuedouble: real
    var name: array?<byte>

    /** After `memset(node, 0, sizeof(cJSON))`. */
    ghost predicate Zero()
      reads this
    {
      && next == null && prev == null && child == null && kind == IsFalse && !isReference
      && valuestring == null && valueint == 0 && valuedouble == 0.0 && name == null
    }

    constructor ()
      ensures Zero()
    {
      next, prev, child, kind, isReference := null, null, null, IsFalse, false;
      valuestring, valueint, valuedouble, name := null, 0, 0.0, null;
    }
  }

  /** The buffer holds the string `t` and its NUL. */
  ghost predicate Holds(a: array<byte>, t: Text)
    reads a
  {
    |t| < a.Length && a[..|t|] == t && a[|t|] == 0 && NulFree(t)
  }

  /** What a node and the nodes below it own, and what they stand for. A reference owns neither
      its string nor its children. */
  datatype Tree =
    Tree(node: Node, kind: Kind, integer: int, number: real, text: Owner, name: Owner, kids: seq<Tree>,
         isReference: bool)

  /** A string and the buffer that holds it, if there is one. */
  datatype Owner = None | Some(at: array<byte>, text: Text)

  ghost function Buffer(o: Owner): set<object> {
    if o.Some? then {o.at} else {}
  }

  ghost function Field(o: Owner): array?<byte> {
    if o.Some? then o.at else null
  }

  /** Everything that is to be freed with the tree. */
  ghost function Owned(t: Tree): set<object> {
    {t.node} + Buffer(t.text) + Buffer(t.name) + OwnedAll(t.kids)
  }

  ghost function OwnedAll(ts: seq<Tree>): set<object> {
    if ts == [] then {} else Owned(ts[0]) + OwnedAll(ts[1..])
  }

  /** What a tree owns has been allocated. */
  lemma {:induction false} TreeAllocated(t: Tree)
    ensures forall o :: o in Owned(t) ==> allocated(o)
    decreases t
  {
    assert allocated(t.node) && allocated(t.text) && allocated(t.name) && allocated(t.kids);
    assert t.text.Some? ==> allocated(t.text.at);
    assert t.name.Some? ==> allocated(t.name.at);
    AllAllocated(t.kids);
  }

  lemma {:induction false} AllAllocated(ts: seq<Tree>)
    ensures forall o :: o in OwnedAll(ts) ==> allocated(o)
    decreases ts
  {
    if ts != [] {
      TreeAllocated(ts[0]);
      AllAllocated(ts[1..]);
    }
  }

  lemma KidsAreOwned(t: Tree)
    ensures OwnedAll(t.kids) <= Owned(t)
  {
  }

  /** No object is owned twice. */
  ghost predicate Distinct(t: Tree) {
    && (t.text.Some? && t.name.Some? ==> t.text.at != t.name.at)
    && t.node !in OwnedAll(t.kids) && Buffer(t.text) + Buffer(t.name) !! OwnedAll(t.kids)
    && DistinctAll(t.kids)
  }

  ghost predicate DistinctAll(ts: seq<Tree>) {
    ts != [] ==> Distinct(ts[0]) && DistinctAll(ts[1..]) && Owned(ts[0]) !! OwnedAll(ts[1..])
  }

  ghost function Head(ts: seq<Tree>, next: Node?): Node? {
    if ts == [] then next else ts[0].node
  }

  ghost function Last(ts: seq<Tree>, prev: Node?): Node? {
    if ts == [] then prev else ts[|ts| - 1].node
  }

  ghost predicate OwnerHolds(o: Owner)
    reads Buffer(o)
  {
    o.Some? ==> Holds(o.at, o.text)
  }

  /** The fields of the node are as the tree says. */
  ghost predicate Matches(t: Tree)
    reads t.node, Buffer(t.text), Buffer(t.name)
  {
    && t.node.kind == t.kind && t.node.valueint == t.integer && t.node.valuedouble == t.number
    && t.node.name == Field(t.name)
    && OwnerHolds(t.text) && OwnerHolds(t.name)
    && t.node.isReference == t.isReference
    && if t.isReference then t.text == None && t.kids == []
       else t.node.valuestring == Field(t.text) && t.node.child == Head(t.kids, null)
  }

  /** The tree is in memory. */
  ghost predicate Valid(t: Tree)
    reads Owned(t)
  {
    Matches(t) && Chain(t.kids, null, null)
  }

  /** The trees are in memory, their roots linked to each other, to `prev` and to `next`. */
  ghost predicate Chain(ts: seq<Tree>, prev: Node?, next: Node?)
    reads OwnedAll(ts)
  {
    ts != [] ==>
      && Valid(ts[0]) && ts[0].node.prev == prev && ts[0].node.next == Head(ts[1..], next)
      && Chain(ts[1..], ts[0].node, next)
  }

  /** What can be reached from a node, whether it is owned or only referred to. */
  ghost predicate Shown(t: Tree)
    reads Owned(t)
  {
    && t.node.kind == t.kind && t.node.valueint == t.integer && t.node.valuedouble == t.number
    && t.node.name == Field(t.name) && OwnerHolds(t.name)
    && t.node.valuestring == Field(t.text) && OwnerHolds(t.text)
    && t.node.child == Head(t.kids, null) && ShownAll(t.kids)
  }

  ghost predicate ShownAll(ts: seq<Tree>)
    reads OwnedAll(ts)
  {
    ts != [] ==> Shown(ts[0]) && ts[0].node.next == Head(ts[1..], null) && ShownAll(ts[1..])
  }

  /** A shown tree shows its children. */
  lemma ShowsKids(t: Tree)
    requires Shown(t)
    ensures t.node.child == Head(t.kids, null) && ShownAll(t.kids)
  {
  }

  /** No node of the tree is a reference. */
  ghost predicate NoReferences(t: Tree) {
    !t.isReference && NoReferencesIn(t.kids)
  }

  ghost predicate NoReferencesIn(ts: seq<Tree>) {
    ts != [] ==> NoReferences(ts[0]) && NoReferencesIn(ts[1..])
  }

  lemma {:induction false} NoReferencesSnoc(ts: seq<Tree>, t: Tree)
    requires NoReferencesIn(ts) && NoReferences(t)
    ensures NoReferencesIn(ts + [t])
    decreases |ts|
  {
    if ts != [] {
      assert (ts + [t])[1..] == ts[1..] + [t];
      NoReferencesSnoc(ts[1..], t);
    }
  }

  // ----- Strings in memory -------------------------------------------------

  lemma HeldByte(a: array<byte>, t: Text, i: nat)
    requires Holds(a, t) && i <= |t|
    ensures |t| < a.Length && a[i] == At(t, i) && (a[i] == 0 <==> i == |t|)
  {
    if i < |t| {
      assert a[i] == a[..|t|][i];
    }
  }

  /** `strlen`. */
  method StrLen(str: array<byte>, ghost s: Text) returns (n: nat)
    requires Holds(str, s)
    ensures n == |s|
  {
    n := 0;
    while str[n] != 0
      invariant n <= |s|
      decreases |s| - n
    {
      HeldByte(str, s, n);
      n := n + 1;
    }
    HeldByte(str, s, n);
  }

  /** `cJSON_strdup`. */
  method StrDup(h: Heap, str: array<byte>, ghost s: Text) returns (copy: array?<byte>)
    requires Holds(str, s)
    modifies h`asked, h`live
    ensures copy == null ==> h.OutOfMemory() && h.live == old(h.live)
    ensures copy != null ==>
              && fresh(copy) && Holds(copy, s) && h.live == old(h.live) + {copy} && h.Refused() == old(h.Refused())
  {
    var len := StrLen(str, s);
    copy := h.Bytes(len + 1);
    if copy == null {
      return;
    }
    forall i | 0 <= i < len + 1 {
      copy[i] := str[i];
    }
    assert copy[..|s|] == str[..|s|];
  }

  // ----- Deleting ----------------------------------------------------------

  /** `cJSON_Delete`: frees every node and every string of the forest, each of them once, and
      nothing else; in particular nothing that is reachable only through a reference. */
  method Delete(h: Heap, c0: Node?, ghost ts: seq<Tree>, ghost prev: Node?)
    requires Chain(ts, prev, null) && c0 == Head(ts, null)
    requires DistinctAll(ts) && OwnedAll(ts) <= h.live && h !in h.live
    modifies h`live
    ensures h.live == old(h.live) - OwnedAll(ts)
    decreases ts
  {
    hide Chain, Valid, Matches, Owned, OwnedAll, Distinct, DistinctAll, Freeing;
    var c := c0;
    ghost var i, before := 0, prev;
    assert ts[0..] == ts;
    FreeingStart(h.live, OwnedAll(ts));
    while c != null
      invariant i <= |ts| && Chain(ts[i..], before, null) && c == Head(ts[i..], null) && DistinctAll(ts[i..])
      invariant Freeing(old(h.live), h.live, OwnedAll(ts[i..]), OwnedAll(ts)) && h !in h.live
      decreases |ts| - i
    {
      assert ts[i..][1..] == ts[i + 1..];
      ghost var t := ts[i];
      ChainFirst(ts[i..], before);
      FreeingStep(old(h.live), h.live, Owned(t), OwnedAll(ts[i + 1..]), OwnedAll(ts));
      var next := c.next;
      DeleteOne(h, c, t);
      c := next;
      i, before := i + 1, t.node;
    }
    NothingOwned(ts[i..]);
    FreeingEnd(old(h.live), h.live, OwnedAll(ts));
  }

  /** Of `all` that was live, everything but `rest` has been freed. */
  ghost predicate Freeing(before: set<object>, live: set<object>, rest: set<object>, all: set<object>) {
    rest <= all && rest <= live && live == before - (all - rest)
  }

  lemma FreeingStart(live: set<object>, all: set<object>)
    requires all <= live
    ensures Freeing(live, live, all, all)
  {
  }

  lemma FreeingStep(before: set<object>, live: set<object>, first: set<object>, rest: set<object>, all: set<object>)
    requires Freeing(before, live, first + rest, all) && first !! rest
    ensures first <= live && Freeing(before, live - first, rest, all)
  {
  }

  lemma FreeingEnd(before: set<object>, live: set<object>, all: set<object>)
    requires Freeing(before, live, {}, all)
    ensures live == before - all
  {
  }

  /** The first tree of a list, and the list behind it. */
  lemma ChainFirst(ts: seq<Tree>, prev: Node?)
    requires ts != [] && Chain(ts, prev, null) && DistinctAll(ts)
    ensures Valid(ts[0]) && Distinct(ts[0]) && ts[0].node in Owned(ts[0]) && ts[0].node.next == Head(ts[1..], null)
    ensures Chain(ts[1..], ts[0].node, null) && DistinctAll(ts[1..])
    ensures OwnedAll(ts) == Owned(ts[0]) + OwnedAll(ts[1..]) && Owned(ts[0]) !! OwnedAll(ts[1..])
  {
  }

  lemma NothingOwned(ts: seq<Tree>)
    ensures ts == [] ==> OwnedAll(ts) == {}
  {
  }

  /** The body of the loop of `cJSON_Delete`. */
  method DeleteOne(h: Heap, c: Node, ghost t: Tree)
    requires Valid(t) && c == t.node && Distinct(t) && Owned(t) <= h.live && h !in h.live
    modifies h`live
    ensures h.live == old(h.live) - Owned(t)
    decreases t, 1
  {
    DeleteContents(h, c, t);
    h.Free(c);
  }

  /** The body of the loop of `cJSON_Delete`, but for the node itself. */
  method DeleteContents(h: Heap, c: Node, ghost t: Tree)
    requires Valid(t) && c == t.node && Distinct(t) && Owned(t) <= h.live && h !in h.live
    modifies h`live
    ensures h.live == old(h.live) - (Owned(t) - {t.node})
    decreases t, 0
  {
    if !c.isReference && c.child != null {
      Delete(h, c.child, t.kids, null);
    }
    if !c.isReference && c.valuestring != null {
      h.Free(c.valuestring);
    }
    if c.name != null {
      h.Free(c.name);
    }
  }
}
