/** The recursive-descent parser, filling nodes in memory: it computes what the functions of
    `Parser` compute, and every allocation ends up in the tree that it returns. */
module ParseTree {
  import opened Bytes
  import opened Json
  import opened Numbers
  import opened Strings
  import opened Memory
  import opened Siblings
  import opened ParseText
  import opened P = Parser

  // ----- The value of a tree -----------------------------------------------

  ghost function TextOf(o: Owner): Text {
    if o.Some? then o.text else []
  }

  ghost function JsonOf(t: Tree): Json {
    match t.kind
    case IsNull => Null
    case IsFalse => False
    case IsTrue => True
    case IsNumber => Number(t.number)
    case IsString => String(TextOf(t.text))
    case IsArray => Array(JsonsOf(t.kids))
    case IsObject => Object(MembersOf(t.kids))
  }

  ghost function JsonsOf(ts: seq<Tree>): seq<Json> {
    if ts == [] then [] else [JsonOf(ts[0])] + JsonsOf(ts[1..])
  }

  ghost function MembersOf(ts: seq<Tree>): seq<Member> {
    if ts == [] then [] else [Member(TextOf(ts[0].name), JsonOf(ts[0]))] + MembersOf(ts[1..])
  }

  lemma {:induction false} JsonsOfSnoc(ts: seq<Tree>, t: Tree)
    ensures JsonsOf(ts + [t]) == JsonsOf(ts) + [JsonOf(t)]
    ensures MembersOf(ts + [t]) == MembersOf(ts) + [Member(TextOf(t.name), JsonOf(t))]
    decreases |ts|
  {
    if ts == [] {
      assert ts + [t] == [t];
    } else {
      assert (ts + [t])[1..] == ts[1..] + [t];
      JsonsOfSnoc(ts[1..], t);
    }
  }

  // ----- The loops of the parser, from the middle --------------------------

  function After<T>(vs: seq<T>, r: Parsed<seq<T>>): Parsed<seq<T>> {
    if r.Ok? then Ok(vs + r.value, r.next) else r
  }

  /** The rest of an array, with the cursor behind a value. */
  function RestOfItems(s: Text, k: nat): Parsed<seq<Json>> {
    if At(s, k) == COMMA then ParseItems(s, k + 1) else if At(s, k) == RBRACKET then Ok([], k + 1) else Error(k)
  }

  /** The rest of an object, with the cursor behind a member. */
  function RestOfMembers(s: Text, k: nat): Parsed<seq<Member>> {
    if At(s, k) == COMMA then ParseMembers(s, k + 1) else if At(s, k) == RBRACE then Ok([], k + 1) else Error(k)
  }

  lemma AfterAfter<T>(a: seq<T>, b: seq<T>, r: Parsed<seq<T>>)
    ensures After(a, After(b, r)) == After(a + b, r)
  {
    if r.Ok? {
      assert a + (b + r.value) == a + b + r.value;
    }
  }

  lemma AfterNothing<T>(v: T)
    ensures [v] + [] == [v]
  {
  }

  lemma ItemsStep(s: Text, i: nat)
    ensures var v := ParseValue(s, Skip(s, i));
            ParseItems(s, i)
              == if v.Ok? then After([v.value], RestOfItems(s, Skip(s, v.next))) else v.PropagateFailure()
  {
    hide ParseValue, Skip;
    var v := ParseValue(s, Skip(s, i));
    if v.Ok? {
      AfterNothing(v.value);
    }
  }

  lemma MembersStep(s: Text, i: nat)
    ensures var m := ParseMember(s, i);
            ParseMembers(s, i)
              == if m.Ok? then After([m.value], RestOfMembers(s, Skip(s, m.next))) else m.PropagateFailure()
  {
    hide ParseMember, Skip;
    var m := ParseMember(s, i);
    if m.Ok? {
      AfterNothing(m.value);
    }
  }

  /** What the parser leaves in a tree: no references, with each number its integer part, with each string
      its text, and with each member its name. */
  ghost predicate Filled(t: Tree) {
    && !t.isReference && (t.kind == IsNumber ==> t.integer == Truncate(t.number))
    && (t.kind == IsString ==> t.text.Some?) && AllFilled(t.kids, t.kind == IsObject)
  }

  ghost predicate AllFilled(ts: seq<Tree>, named: bool) {
    ts != [] ==> Filled(ts[0]) && (named ==> ts[0].name.Some?) && AllFilled(ts[1..], named)
  }

  lemma {:induction false} AllFilledSnoc(ts: seq<Tree>, t: Tree, named: bool)
    requires AllFilled(ts, named) && Filled(t) && (named ==> t.name.Some?)
    ensures AllFilled(ts + [t], named)
    decreases |ts|
  {
    if ts == [] {
      assert ts + [t] == [t];
    } else {
      assert (ts + [t])[1..] == ts[1..] + [t];
      AllFilledSnoc(ts[1..], t, named);
    }
  }

  // ----- Nodes being filled ------------------------------------------------

  /** A node without children and without a string, named as `name` says. */
  ghost predicate Ready(n: Node, name: Owner)
    reads n, Buffer(name)
  {
    n.child == null && n.valuestring == null && !n.isReference && n.name == Field(name) && OwnerHolds(name)
  }

  /** The tree of such a node. */
  ghost function Leaf(n: Node, name: Owner): Tree
    reads n
  {
    Tree(n, n.kind, n.valueint, n.valuedouble, None, name, [], false)
  }

  /** What has been allocated below a node. */
  ghost function Below(t: Tree): set<object> {
    Buffer(t.text) + OwnedAll(t.kids)
  }

  /** `skip`. */
  method SkipBlanks(s: Text, i: nat) returns (k: nat)
    ensures k == Skip(s, i)
  {
    k := i;
    while At(s, k) != 0 && At(s, k) <= 32
      invariant i <= k && Skip(s, k) == Skip(s, i)
      decreases |s| - k
    {
      k := k + 1;
    }
  }

  lemma LeafIsValid(n: Node, name: Owner)
    requires Ready(n, name)
    ensures Valid(Leaf(n, name)) && Distinct(Leaf(n, name)) && Below(Leaf(n, name)) == {}
    ensures Owned(Leaf(n, name)) == {n} + Buffer(name)
  {
  }

  /** Such a node with children. */
  lemma WithKids(n: Node, name: Owner, ts: seq<Tree>)
    requires n.valuestring == null && !n.isReference && n.name == Field(name) && OwnerHolds(name)
    requires Children(n, ts) && Buffer(name) !! OwnedAll(ts)
    ensures var t := Leaf(n, name).(kids := ts);
            && Valid(t) && Distinct(t) && Below(t) == OwnedAll(ts)
            && (n.kind == IsArray ==> JsonOf(t) == Array(JsonsOf(ts)) && (AllFilled(ts, false) ==> Filled(t)))
            && (n.kind == IsObject ==> JsonOf(t) == Object(MembersOf(ts)) && (AllFilled(ts, true) ==> Filled(t)))
  {
    hide Chain, DistinctAll, OwnedAll, JsonsOf, MembersOf, AllFilled;
    assert {} + OwnedAll(ts) == OwnedAll(ts);
  }

  lemma LeafIsFilled(n: Node, name: Owner)
    requires n.kind == IsNumber ==> n.valueint == Truncate(n.valuedouble)
    ensures n.kind != IsString ==> Filled(Leaf(n, name))
  {
  }

  // ----- The parser --------------------------------------------------------

  /** `parse_value`. */
  method ParseValueInto(h: Heap, item: Node, s: Text, i: nat, ghost name: Owner) returns (end: int, ghost t: Tree)
    requires Ready(item, name) && NulFree(s) && !ParseValue(s, i).Overrun? && h !in h.live
    modifies h`asked, h`live, h`ep
    modifies item`child, item`kind, item`valuestring, item`valueint, item`valuedouble
    ensures t.node == item && t.name == name && Valid(t) && Distinct(t)
    ensures fresh(Below(t)) && h.live == old(h.live) + Below(t) && h !in h.live
    ensures if end < 0 then Failed(h, ParseValue(s, i))
            else ParseValue(s, i) == Ok(JsonOf(t), end) && Filled(t) && h.Refused() == old(h.Refused())
    decreases |s| - i, 2
  {
    hide Valid, Matches, Owned, OwnedAll, Distinct, DistinctAll, Chain, Below, StartsWith, ParseArray, ParseObject;
    hide ParseNumber, Truncate;
    if StartsWith(s, i, NULL_WORD) {
      item.kind := IsNull;
      LeafIsValid(item, name);
      return i + 4, Leaf(item, name);
    }
    if StartsWith(s, i, FALSE_WORD) {
      item.kind := IsFalse;
      LeafIsValid(item, name);
      return i + 5, Leaf(item, name);
    }
    if StartsWith(s, i, TRUE_WORD) {
      item.kind, item.valueint := IsTrue, 1;
      LeafIsValid(item, name);
      return i + 4, Leaf(item, name);
    }
    if At(s, i) == QUOTE {
      end, t := ParseStringValue(h, item, s, i, name);
    } else if At(s, i) == MINUS || IsDigit(At(s, i)) {
      end := ParseNumberInto(item, s, i);
      LeafIsValid(item, name);
      t := Leaf(item, name);
    } else if At(s, i) == LBRACKET {
      end, t := ParseArrayInto(h, item, s, i, name);
    } else if At(s, i) == LBRACE {
      end, t := ParseObjectInto(h, item, s, i, name);
    } else {
      h.ep := i;
      LeafIsValid(item, name);
      return -1, Leaf(item, name);
    }
  }

  method ParseStringValue(h: Heap, item: Node, s: Text, i: nat, ghost name: Owner) returns (end: int, ghost t: Tree)
    requires Ready(item, name) && NulFree(s) && !ParseString(s, i).Overrun? && h !in h.live
    modifies h`asked, h`live, h`ep, item`valuestring, item`kind
    ensures t.node == item && t.name == name && Valid(t) && Distinct(t)
    ensures fresh(Below(t)) && h.live == old(h.live) + Below(t) && h !in h.live
    ensures if end < 0 then Failed(h, ParseString(s, i))
            else ParseString(s, i).Ok? && JsonOf(t) == String(ParseString(s, i).value) && end == ParseString(s, i).next
                 && Filled(t) && h.Refused() == old(h.Refused())
  {
    ghost var text;
    end, text := ParseStringInto(h, item, s, i);
    t := Tree(item, item.kind, item.valueint, item.valuedouble, text, name, [], false);
  }

  /** `parse_array`. */
  method ParseArrayInto(h: Heap, item: Node, s: Text, i: nat, ghost name: Owner) returns (end: int, ghost t: Tree)
    requires Ready(item, name) && NulFree(s) && h !in h.live
    requires At(s, i) == LBRACKET && !ParseArray(s, i).Overrun?
    modifies h`asked, h`live, h`ep, item`child, item`kind
    ensures t.node == item && t.name == name && Valid(t) && Distinct(t)
    ensures fresh(Below(t)) && h.live == old(h.live) + Below(t) && h !in h.live
    ensures if end < 0 then Failed(h, ParseArray(s, i))
            else ParseArray(s, i) == Ok(JsonOf(t), end) && Filled(t) && h.Refused() == old(h.Refused())
    decreases |s| - i, 1
  {
    item.kind := IsArray;
    LeafIsValid(item, name);
    LeafIsFilled(item, name);
    OwnsNothing();
    t := Leaf(item, name);
    assert JsonOf(t) == Array([]);
    hide Valid, Matches, Owned, OwnedAll, Distinct, DistinctAll, Chain, Skip, ParseItems, JsonOf, Filled;
    var value := SkipBlanks(s, i + 1);
    if At(s, value) == RBRACKET {
      return value + 1, t;
    }
    end, t := ParseFullArrayInto(h, item, s, i, name);
  }

  /** `parse_array` behind the opening bracket, when the closing one does not follow. */
  method ParseFullArrayInto(h: Heap, item: Node, s: Text, i: nat, ghost name: Owner) returns (end: int, ghost t: Tree)
    requires Ready(item, name) && item.kind == IsArray && NulFree(s) && h !in h.live
    requires At(s, i) == LBRACKET && At(s, Skip(s, i + 1)) != RBRACKET && !ParseArray(s, i).Overrun?
    modifies h`asked, h`live, h`ep, item`child
    ensures t.node == item && t.name == name && Valid(t) && Distinct(t)
    ensures fresh(Below(t)) && h.live == old(h.live) + Below(t) && h !in h.live
    ensures if end < 0 then Failed(h, ParseArray(s, i))
            else ParseArray(s, i) == Ok(JsonOf(t), end) && Filled(t) && h.Refused() == old(h.Refused())
    decreases |s| - i, 0
  {
    hide Valid, Matches, Owned, OwnedAll, Distinct, DistinctAll, Chain, Below, Skip, ParseItems, JsonOf, JsonsOf;
    hide MembersOf;
    hide Filled, AllFilled, NulFree;
    ghost var ts;
    end, ts := ParseItemsInto(h, item, s, i + 1);
    WithKids(item, name, ts);
    t := Leaf(item, name).(kids := ts);
  }

  /** A new node behind the list `ts`: `item->child` if it is the first, linked to the last otherwise. */
  method NewLast(h: Heap, item: Node, child: Node?, ghost ts: seq<Tree>) returns (n: Node?)
    requires Children(item, ts) && child == Last(ts, null) && h !in h.live && h !in OwnedAll(ts)
    modifies h`asked, h`live, (if child == null then {item} else {})`child,
             (if child == null then {} else {child})`next
    ensures n == null ==> h.OutOfMemory() && Children(item, ts) && h.live == old(h.live)
    ensures n != null ==>
              && fresh(n) && Ready(n, None) && n.prev == child && n.next == null
              && item.child == Head(ts, n) && Chain(ts, null, n) && h.live == old(h.live) + {n}
                && h.Refused() == old(h.Refused())
  {
    hide Valid, Matches, Owned, OwnedAll, Distinct, DistinctAll;
    AllAllocated(ts);
    n := h.NewItem();
    if n == null {
      if child == null {
        item.child := null;
      }
      return;
    }
    if child == null {
      item.child := n;
    } else {
      RelinkFront(child, n, ts, null);
      n.prev := child;
    }
  }

  /** Parses a value into the node behind `ts`. */
  method ParseItemInto(h: Heap, child: Node, s: Text, i: nat, ghost ts: seq<Tree>) returns (end: int, ghost t: Tree)
    requires NulFree(s) && h !in h.live && Ready(child, None) && !ParseValue(s, Skip(s, i)).Overrun?
    requires Chain(ts, null, child) && child.prev == Last(ts, null) && child.next == null
    requires DistinctAll(ts) && child !in OwnedAll(ts) && h !in OwnedAll(ts)
    modifies h`asked, h`live, h`ep
    modifies child`child, child`kind, child`valuestring, child`valueint, child`valuedouble
    ensures Chain(ts + [t], null, null) && DistinctAll(ts + [t]) && t.node == child && fresh(Below(t)) && t.name == None
    ensures OwnedAll(ts + [t]) == OwnedAll(ts) + {child} + Below(t)
    ensures h.live == old(h.live) + Below(t) && h !in h.live
    ensures var v := ParseValue(s, Skip(s, i));
            if end < 0 then Failed(h, v)
            else v.Ok? && v.value == JsonOf(t) && end == Skip(s, v.next) && Filled(t) && h.Refused() == old(h.Refused())
    decreases |s| - i, 3
  {
    hide Valid, Matches, Owned, OwnedAll, Distinct, DistinctAll, Chain, JsonOf, ParseValue, Below, Filled;
    AllAllocated(ts);
    var value := SkipBlanks(s, i);
    end, t := ParseValueInto(h, child, s, value, None);
    TreeAllocated(t);
    OwnedIs(t);
    if end >= 0 {
      end := SkipBlanks(s, end);
    }
    LastJoins(ts, t);
  }

  lemma LastJoins(ts: seq<Tree>, t: Tree)
    requires Chain(ts, null, t.node) && DistinctAll(ts) && Valid(t) && Distinct(t)
    requires t.node.prev == Last(ts, null) && t.node.next == null && OwnedAll(ts) !! Owned(t)
    ensures Chain(ts + [t], null, null) && DistinctAll(ts + [t]) && OwnedAll(ts + [t]) == OwnedAll(ts) + Owned(t)
  {
    ChainOne(t, Last(ts, null), null);
    ChainSplit(ts, [t], null, null);
    DistinctSplit(ts, [t]);
    OwnedSplit(ts, [t]);
  }

  lemma OwnedIs(t: Tree)
    ensures Owned(t) == {t.node} + Buffer(t.name) + Below(t)
  {
  }

  /** The list of `parse_array`: it is linked to the node as it grows. */
  method ParseItemsInto(h: Heap, item: Node, s: Text, i: nat) returns (end: int, ghost ts: seq<Tree>)
    requires NulFree(s) && h !in h.live && item.child == null && !ParseItems(s, i).Overrun?
    modifies h`asked, h`live, h`ep, item`child
    ensures Children(item, ts) && fresh(OwnedAll(ts)) && h.live == old(h.live) + OwnedAll(ts) && h !in h.live
    ensures if end < 0 then Failed(h, ParseItems(s, i))
            else ParseItems(s, i) == Ok(JsonsOf(ts), end) && AllFilled(ts, false) && h.Refused() == old(h.Refused())
    decreases |s| - i, 6
  {
    hide Valid, Matches, Owned, OwnedAll, Distinct, DistinctAll, Chain, ParseValue, ParseItems, Skip, JsonOf, Filled;
    hide AllFilled;
    ts := [];
    var child: Node? := null;
    OwnsNothing();
    child, end, ts := ParseNextItem(h, item, s, i, null, []);
    if end < 0 {
      return;
    }
    FirstOf(JsonOf(ts[|ts| - 1]));
    while At(s, end) == COMMA
      invariant child != null && child == Last(ts, null) && fresh(child)
      invariant Children(item, ts) && fresh(OwnedAll(ts)) && h.live == old(h.live) + OwnedAll(ts) && h !in h.live
      invariant AllFilled(ts, false)
      invariant i < end <= |s| && ParseItems(s, i) == After(JsonsOf(ts), RestOfItems(s, end))
                && h.Refused() == old(h.Refused())
      decreases |s| - end
    {
      ghost var vs, k := JsonsOf(ts), end;
      child, end, ts := ParseNextItem(h, item, s, end + 1, child, ts);
      if end < 0 {
        end := -1;
        return;
      }
      AfterAfter(vs, [JsonOf(ts[|ts| - 1])], RestOfItems(s, end));
    }
    AfterEnd(JsonsOf(ts), end + 1);
    if At(s, end) == RBRACKET {
      end := end + 1;
    } else {
      h.ep := end;
      end := -1;
    }
  }

  lemma AfterEnd<T>(vs: seq<T>, n: nat)
    ensures After(vs, Ok([], n)) == Ok(vs, n)
  {
    assert vs + [] == vs;
  }

  lemma OwnsNothing()
    ensures OwnedAll([]) == {} && DistinctAll([]) && Chain([], null, null)
    ensures JsonsOf([]) == [] && MembersOf([]) == [] && AllFilled([], false) && AllFilled([], true)
  {
  }

  lemma FirstOf<T>(v: T)
    ensures [] + [v] == [v]
  {
  }

  /** Allocates a node behind the list and parses a value into it. */
  method ParseNextItem(h: Heap, item: Node, s: Text, i: nat, last: Node?, ghost ts0: seq<Tree>)
    returns (child: Node?, end: int, ghost ts: seq<Tree>)
    requires NulFree(s) && h !in h.live && !ParseItems(s, i).Overrun?
    requires Children(item, ts0) && last == Last(ts0, null) && h !in OwnedAll(ts0)
    modifies h`asked, h`live, h`ep, (if last == null then {item} else {})`child,
             (if last == null then {} else {last})`next
    ensures Children(item, ts) && h.live == old(h.live) + (OwnedAll(ts) - OwnedAll(ts0)) && h !in h.live
    ensures OwnedAll(ts0) <= OwnedAll(ts) && fresh(OwnedAll(ts) - OwnedAll(ts0))
    ensures end < 0 ==> Failed(h, ParseItems(s, i))
    ensures end >= 0 ==>
              && child != null && fresh(child) && ts != [] && child == Last(ts, null) && ts[..|ts| - 1] == ts0
              && JsonsOf(ts) == JsonsOf(ts0) + [JsonOf(ts[|ts| - 1])]
              && i < end <= |s| && ParseItems(s, i) == After([JsonOf(ts[|ts| - 1])], RestOfItems(s, end))
              && (AllFilled(ts0, false) ==> AllFilled(ts, false)) && h.Refused() == old(h.Refused())
    decreases |s| - i, 5
  {
    hide Valid, Matches, Owned, OwnedAll, Distinct, DistinctAll, Chain, ParseValue, ParseItems, Skip, JsonOf, JsonsOf;
    hide RestOfItems, Filled, AllFilled;
    ItemsStep(s, i);
    AllAllocated(ts0);
    ts, end := ts0, -1;
    child := NewLast(h, item, last, ts0);
    if child == null {
      return;
    }
    ghost var t;
    end, t := ParseItemInto(h, child, s, i, ts0);
    ts := ts0 + [t];
    JsonsOfSnoc(ts0, t);
    if end >= 0 && AllFilled(ts0, false) {
      AllFilledSnoc(ts0, t, false);
    }
  }

  /** `parse_object`. */
  method ParseObjectInto(h: Heap, item: Node, s: Text, i: nat, ghost name: Owner) returns (end: int, ghost t: Tree)
    requires Ready(item, name) && NulFree(s) && h !in h.live
    requires At(s, i) == LBRACE && !ParseObject(s, i).Overrun?
    modifies h`asked, h`live, h`ep, item`child, item`kind
    ensures t.node == item && t.name == name && Valid(t) && Distinct(t)
    ensures fresh(Below(t)) && h.live == old(h.live) + Below(t) && h !in h.live
    ensures if end < 0 then Failed(h, ParseObject(s, i))
            else ParseObject(s, i) == Ok(JsonOf(t), end) && Filled(t) && h.Refused() == old(h.Refused())
    decreases |s| - i, 1
  {
    item.kind := IsObject;
    LeafIsValid(item, name);
    LeafIsFilled(item, name);
    OwnsNothing();
    t := Leaf(item, name);
    assert JsonOf(t) == Object([]);
    hide Valid, Matches, Owned, OwnedAll, Distinct, DistinctAll, Chain, Skip, ParseMembers, JsonOf, Filled;
    var value := SkipBlanks(s, i + 1);
    if At(s, value) == RBRACE {
      return value + 1, t;
    }
    end, t := ParseFullObjectInto(h, item, s, i, name);
  }

  /** `parse_object` behind the opening bracket, when the closing one does not follow. */
  method ParseFullObjectInto(h: Heap, item: Node, s: Text, i: nat, ghost name: Owner) returns (end: int, ghost t: Tree)
    requires Ready(item, name) && item.kind == IsObject && NulFree(s) && h !in h.live
    requires At(s, i) == LBRACE && At(s, Skip(s, i + 1)) != RBRACE && !ParseObject(s, i).Overrun?
    modifies h`asked, h`live, h`ep, item`child
    ensures t.node == item && t.name == name && Valid(t) && Distinct(t)
    ensures fresh(Below(t)) && h.live == old(h.live) + Below(t) && h !in h.live
    ensures if end < 0 then Failed(h, ParseObject(s, i))
            else ParseObject(s, i) == Ok(JsonOf(t), end) && Filled(t) && h.Refused() == old(h.Refused())
    decreases |s| - i, 0
  {
    hide Valid, Matches, Owned, OwnedAll, Distinct, DistinctAll, Chain, Below, Skip, ParseMembers, JsonOf, JsonsOf;
    hide MembersOf;
    hide Filled, AllFilled, NulFree;
    ghost var ts;
    end, ts := ParseMembersInto(h, item, s, i + 1);
    WithKids(item, name, ts);
    t := Leaf(item, name).(kids := ts);
  }

  /** The name of a member: what `parse_string` left as the string of the node becomes its name. */
  method ParseNameInto(h: Heap, child: Node, s: Text, i: nat) returns (end: int, ghost name: Owner)
    requires NulFree(s) && h !in h.live && Ready(child, None) && !ParseString(s, Skip(s, i)).Overrun?
    modifies h`asked, h`live, h`ep, child`kind, child`valuestring, child`name
    ensures Ready(child, name) && fresh(Buffer(name)) && h.live == old(h.live) + Buffer(name)
    ensures var r := ParseString(s, Skip(s, i));
            if end < 0 then Failed(h, r) && name == None
            else && r.Ok? && name.Some? && name.text == r.value && end == Skip(s, r.next)
                 && h.Refused() == old(h.Refused())
  {
    hide Skip, ParseString;
    var value := SkipBlanks(s, i);
    end, name := ParseStringInto(h, child, s, value);
    if end >= 0 {
      end := SkipBlanks(s, end);
      child.name := child.valuestring;
      child.valuestring := null;
    }
  }

  /** A name, a colon and a value, parsed into a node that is in no list yet or at the end of one. */
  method ParsePairInto(h: Heap, child: Node, s: Text, i: nat) returns (end: int, ghost t: Tree)
    requires NulFree(s) && h !in h.live && Ready(child, None) && !ParseMember(s, i).Overrun?
    modifies h`asked, h`live, h`ep
    modifies child`child, child`kind, child`valuestring, child`valueint, child`valuedouble, child`name
    ensures t.node == child && Valid(t) && Distinct(t) && fresh(Owned(t) - {child})
    ensures h.live == old(h.live) + (Owned(t) - {child}) && h !in h.live
    ensures var m := ParseMember(s, i);
            if end < 0 then Failed(h, m)
            else m.Ok? && m.value == Member(TextOf(t.name), JsonOf(t)) && end == Skip(s, m.next)
                 && Filled(t) && t.name.Some? && h.Refused() == old(h.Refused())
    decreases |s| - i, 3
  {
    hide Skip, ParseString, ParseValue, JsonOf, Valid, Distinct, Matches, Filled;
    ghost var name;
    end, name := ParseNameInto(h, child, s, i);
    if end < 0 || At(s, end) != COLON {
      LeafIsValid(child, name);
      t := Leaf(child, name);
      if end >= 0 {
        h.ep := end;
        end := -1;
      }
      return;
    }
    var value := SkipBlanks(s, end + 1);
    end, t := ParseValueInto(h, child, s, value, name);
    TreeAllocated(t);
    OwnedIs(t);
    if end >= 0 {
      end := SkipBlanks(s, end);
    }
    RootIsNotBelow(t);
  }

  lemma RootIsNotBelow(t: Tree)
    requires Distinct(t)
    ensures t.node !in Below(t) + Buffer(t.name)
  {
  }

  /** Parses a member into the node behind `ts`. */
  method ParseMemberInto(h: Heap, child: Node, s: Text, i: nat, ghost ts: seq<Tree>) returns (end: int, ghost t: Tree)
    requires NulFree(s) && h !in h.live && Ready(child, None) && !ParseMember(s, i).Overrun?
    requires Chain(ts, null, child) && child.prev == Last(ts, null) && child.next == null
    requires DistinctAll(ts) && child !in OwnedAll(ts) && h !in OwnedAll(ts)
    modifies h`asked, h`live, h`ep
    modifies child`child, child`kind, child`valuestring, child`valueint, child`valuedouble, child`name
    ensures Chain(ts + [t], null, null) && DistinctAll(ts + [t]) && t.node == child && fresh(Owned(t) - {child})
    ensures OwnedAll(ts + [t]) == OwnedAll(ts) + Owned(t)
    ensures h.live == old(h.live) + (Owned(t) - {child}) && h !in h.live
    ensures var m := ParseMember(s, i);
            if end < 0 then Failed(h, m)
            else m.Ok? && m.value == Member(TextOf(t.name), JsonOf(t)) && end == Skip(s, m.next)
                 && Filled(t) && t.name.Some? && h.Refused() == old(h.Refused())
    decreases |s| - i, 4
  {
    hide Valid, Matches, Owned, OwnedAll, Distinct, DistinctAll, Chain, JsonOf, ParseMember, Skip, Filled;
    AllAllocated(ts);
    end, t := ParsePairInto(h, child, s, i);
    LastJoins(ts, t);
  }

  /** Allocates a node behind the list and parses a member into it. */
  method ParseNextMember(h: Heap, item: Node, s: Text, i: nat, last: Node?, ghost ts0: seq<Tree>)
    returns (child: Node?, end: int, ghost ts: seq<Tree>)
    requires NulFree(s) && h !in h.live && !ParseMembers(s, i).Overrun?
    requires Children(item, ts0) && last == Last(ts0, null) && h !in OwnedAll(ts0)
    modifies h`asked, h`live, h`ep, (if last == null then {item} else {})`child,
             (if last == null then {} else {last})`next
    ensures Children(item, ts) && h.live == old(h.live) + (OwnedAll(ts) - OwnedAll(ts0)) && h !in h.live
    ensures OwnedAll(ts0) <= OwnedAll(ts) && fresh(OwnedAll(ts) - OwnedAll(ts0))
    ensures end < 0 ==> Failed(h, ParseMembers(s, i))
    ensures end >= 0 ==>
              && child != null && fresh(child) && ts != [] && child == Last(ts, null) && ts[..|ts| - 1] == ts0
              && MembersOf(ts) == MembersOf(ts0) + [MemberOf(ts[|ts| - 1])]
              && i < end <= |s| && ParseMembers(s, i) == After([MemberOf(ts[|ts| - 1])], RestOfMembers(s, end))
              && (AllFilled(ts0, true) ==> AllFilled(ts, true)) && h.Refused() == old(h.Refused())
    decreases |s| - i, 5
  {
    hide Valid, Matches, Owned, OwnedAll, Distinct, DistinctAll, Chain, ParseMember, ParseMembers, Skip, JsonOf;
    hide MembersOf;
    hide RestOfMembers, Filled, AllFilled;
    MembersStep(s, i);
    AllAllocated(ts0);
    ts, end := ts0, -1;
    child := NewLast(h, item, last, ts0);
    if child == null {
      return;
    }
    ghost var t;
    end, t := ParseMemberInto(h, child, s, i, ts0);
    RootIsOwned(t);
    ts := ts0 + [t];
    JsonsOfSnoc(ts0, t);
    if end >= 0 && AllFilled(ts0, true) {
      AllFilledSnoc(ts0, t, true);
    }
  }

  ghost function MemberOf(t: Tree): Member {
    Member(TextOf(t.name), JsonOf(t))
  }

  /** The list of `parse_object`. */
  method ParseMembersInto(h: Heap, item: Node, s: Text, i: nat) returns (end: int, ghost ts: seq<Tree>)
    requires NulFree(s) && h !in h.live && item.child == null && !ParseMembers(s, i).Overrun?
    modifies h`asked, h`live, h`ep, item`child
    ensures Children(item, ts) && fresh(OwnedAll(ts)) && h.live == old(h.live) + OwnedAll(ts) && h !in h.live
    ensures if end < 0 then Failed(h, ParseMembers(s, i))
            else ParseMembers(s, i) == Ok(MembersOf(ts), end) && AllFilled(ts, true) && h.Refused() == old(h.Refused())
    decreases |s| - i, 6
  {
    hide Valid, Matches, Owned, OwnedAll, Distinct, DistinctAll, Chain, ParseMember, ParseMembers, Skip, JsonOf;
    hide Filled, AllFilled;
    ts := [];
    var child: Node? := null;
    OwnsNothing();
    child, end, ts := ParseNextMember(h, item, s, i, null, []);
    if end < 0 {
      return;
    }
    FirstOf(MemberOf(ts[|ts| - 1]));
    while At(s, end) == COMMA
      invariant child != null && child == Last(ts, null) && fresh(child)
      invariant Children(item, ts) && fresh(OwnedAll(ts)) && h.live == old(h.live) + OwnedAll(ts) && h !in h.live
      invariant AllFilled(ts, true)
      invariant i < end <= |s| && ParseMembers(s, i) == After(MembersOf(ts), RestOfMembers(s, end))
                && h.Refused() == old(h.Refused())
      decreases |s| - end
    {
      ghost var vs := MembersOf(ts);
      child, end, ts := ParseNextMember(h, item, s, end + 1, child, ts);
      if end < 0 {
        end := -1;
        return;
      }
      AfterAfter(vs, [MemberOf(ts[|ts| - 1])], RestOfMembers(s, end));
    }
    AfterEnd(MembersOf(ts), end + 1);
    if At(s, end) == RBRACE {
      end := end + 1;
    } else {
      h.ep := end;
      end := -1;
    }
  }

  // ----- The main result ---------------------------------------------------

  /** `cJSON_ParseWithOpts`. A null result means that memory ran out or that the text is wrong at
      `ep`, and then nothing is left behind. Otherwise the result is what `ParseWithOpts` of `Parser`
      says, and exactly what the tree owns has been allocated. */
  method ParseWithOptsInto(h: Heap, s: Text, requireNullTerminated: bool)
    returns (c: Node?, end: int, ghost ts: seq<Tree>)
    requires NulFree(s) && !P.ParseWithOpts(s, requireNullTerminated).Overrun? && h !in h.live
    modifies h`asked, h`live, h`ep
    ensures c == Head(ts, null) && Chain(ts, null, null) && DistinctAll(ts)
    ensures fresh(OwnedAll(ts)) && h.live == old(h.live) + OwnedAll(ts) && h !in h.live
    ensures c == null ==> ts == [] && Failed(h, P.ParseWithOpts(s, requireNullTerminated))
    ensures c != null ==>
              && end >= 0 && |ts| == 1 && h.Refused() == old(h.Refused())
              && P.ParseWithOpts(s, requireNullTerminated) == Ok(JsonOf(ts[0]), end) && Filled(ts[0])
  {
    hide Valid, Matches, Distinct, DistinctAll, ParseValue, Skip, JsonOf, Filled;
    OwnsNothing();
    end, ts := 0, [];
    c := h.NewItem();
    h.ep := -1;
    if c == null {
      return;
    }
    var value := SkipBlanks(s, 0);
    ghost var t;
    end, t := ParseValueInto(h, c, s, value, None);
    OwnedIs(t);
    ChainOne(t, null, null);
    if end < 0 {
      Delete(h, c, [t], null);
      c := null;
      return;
    }
    if requireNullTerminated {
      end := SkipBlanks(s, end);
      if At(s, end) != 0 {
        Delete(h, c, [t], null);
        h.ep := end;
        c := null;
        return;
      }
    }
    ts := [t];
  }
}
