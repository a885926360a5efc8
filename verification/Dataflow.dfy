/** `ws_dataflow.cpp`: the channels to be reported as a JSON text. */
module Dataflow {
  import opened Bytes
  import opened Json
  import opened Memory
  import opened Siblings
  import opened Duplicate
  import opened ParseTree
  import opened PrintTree
  import opened PrintedTree
  import opened Build
  import opened Hardware
  import opened Telemetry

  const NAME: Text := [110, 97, 109, 101] // name
  const ID: Text := [105, 100] // id
  const TERMINAL: Text := [116, 101, 114, 109, 105, 110, 97, 108] // terminal
  const MTYPE: Text := [109, 116, 121, 112, 101] // mtype
  const MSGE: Text := [77, 83, 71, 69] // MSGE
  const T: Text := [116] // t
  const PARAMS: Text := [112, 97, 114, 97, 109, 115] // params
  const JSON: Text := [106, 115, 111, 110] // json
  const KKS: Text := [107, 107, 115] // kks
  const REF: Text := [114, 101, 102] // ref
  const VTYPE: Text := [118, 116, 121, 112, 101] // vtype
  const VAL: Text := [118, 97, 108] // val

  // ----- The document ------------------------------------------------------

  /** What a message says about the device: `hw_info_t`. */
  datatype Info = Info(name: Text, id: Text, terminal: Text, time: Text)

  /** `get_hw_name_by_type`, and `get_val_strUnit` of `get_val` for channel `at` with value `v`. */
  datatype Formats = Formats(typeName: nat -> Text, valText: (nat, real) -> Text)

  /** C strings, whatever they are. */
  ghost predicate Printing(f: Formats) {
    (forall n :: NulFree(f.typeName(n))) && (forall at, v :: NulFree(f.valText(at, v)))
  }

  ghost predicate InfoText(i: Info) {
    NulFree(i.name) && NulFree(i.id) && NulFree(i.terminal) && NulFree(i.time)
  }

  ghost predicate ChannelText(c: Channel) {
    NulFree(c.kks) && NulFree(c.ref) && NulFree(c.time)
  }

  ghost function Param(f: Formats, e: Entry): Json {
    Object([Member(KKS, String(e.channel.kks)), Member(REF, String(e.channel.ref)),
            Member(VTYPE, String(f.typeName(e.channel.valType))), Member(VAL, String(f.valText(e.at, e.channel.val))),
            Member(T, String(e.channel.time))])
  }

  ghost function Params(f: Formats, entries: seq<Entry>): (r: seq<Json>)
    ensures |r| == |entries|
  {
    if entries == [] then [] else [Param(f, entries[0])] + Params(f, entries[1..])
  }

  ghost function Head5(i: Info): seq<Member> {
    [Member(NAME, String(i.name)), Member(ID, String(i.id)), Member(TERMINAL, String(i.terminal)),
     Member(MTYPE, String(MSGE)), Member(T, String(i.time))]
  }

  ghost function Document(i: Info, f: Formats, entries: seq<Entry>): Json {
    Object([Member(JSON, Object(Head5(i) + [Member(PARAMS, Array(Params(f, entries)))]))])
  }

  // ----- Building it -------------------------------------------------------

  /** What is neither a node nor a string is no part of a tree. */
  lemma {:induction false} Foreign(o: object, t: Tree)
    requires !(o is Node) && !(o is array<byte>)
    ensures o !in Owned(t)
    decreases t
  {
    ForeignToAll(o, t.kids);
  }

  lemma {:induction false} ForeignToAll(o: object, ts: seq<Tree>)
    requires !(o is Node) && !(o is array<byte>)
    ensures o !in OwnedAll(ts)
    decreases ts
  {
    if ts != [] {
      Foreign(o, ts[0]);
      ForeignToAll(o, ts[1..]);
    }
  }

  lemma CachesApart(cs: seq<Cache>, pData: array<Cache?>, t: Tree)
    ensures pData !in Owned(t) && forall k :: 0 <= k < |cs| ==> cs[k] !in Owned(t)
  {
    Foreign(pData, t);
    forall k | 0 <= k < |cs| ensures cs[k] !in Owned(t) {
      Foreign(cs[k], t);
    }
  }

  lemma NamesAreText()
    ensures NulFree(NAME) && NulFree(ID) && NulFree(TERMINAL) && NulFree(MTYPE) && NulFree(MSGE) && NulFree(T)
    ensures NulFree(PARAMS) && NulFree(JSON) && NulFree(KKS) && NulFree(REF) && NulFree(VTYPE) && NulFree(VAL)
  {
  }

  lemma NoMembers(ts: seq<Tree>)
    requires ts == []
    ensures MembersOf(ts) == []
  {
  }

  lemma ObjectJson(t: Tree)
    requires t.kind == IsObject
    ensures JsonOf(t) == Object(MembersOf(t.kids))
  {
  }

  lemma FiveMembers(a: Member, b: Member, c: Member, d: Member, e: Member)
    ensures [] + [a] + [b] + [c] + [d] + [e] == [a, b, c, d, e]
  {
  }

  /** `_ws_format_hardware_param`. Without memory members are missing, or lack their name or string. */
  method FormatHardwareParam(h: Heap, jp: Node, param: Cache, at: nat, f: Formats, ghost t: Tree)
    returns (ghost t': Tree)
    requires Printing(f) && ChannelText(param.View())
    requires jp == t.node && Kept(t) && Live(h, t) && Container(t) && t.kind == IsObject && t.kids == []
    modifies h`asked, h`live, Owned(t)
    ensures Kept(t') && Live(h, t') && Container(t') && t'.node == t.node && t'.kind == IsObject
    ensures Owned(t) <= Owned(t') && fresh(Owned(t') - Owned(t)) && h.live == old(h.live) + Owned(t')
    ensures !h.OutOfMemory() && Fit(t) ==> Item(t') && JsonOf(t') == Param(f, Entry(at, old(param.View())))
    ensures old(h.Refused()) <= h.Refused()
  {
    hide Kept, Fit, Owned, NulFree, JsonOf, MembersOf, Heap.Refused;
    NamesAreText();
    NoMembers(t.kids);
    var c := param.View();
    t' := AddFive(h, jp, KKS, c.kks, REF, c.ref, VTYPE, f.typeName(c.valType), VAL, f.valText(at, c.val), T, c.time, t);
    ObjectJson(t');
  }

  /** Five members of an object, all of them strings. */
  method AddFive(h: Heap, o: Node, n1: Text, s1: Text, n2: Text, s2: Text, n3: Text, s3: Text, n4: Text, s4: Text,
                 n5: Text, s5: Text, ghost t: Tree)
    returns (ghost t': Tree)
    requires NulFree(n1) && NulFree(n2) && NulFree(n3) && NulFree(n4) && NulFree(n5)
    requires NulFree(s1) && NulFree(s2) && NulFree(s3) && NulFree(s4) && NulFree(s5)
    requires o == t.node && Kept(t) && Live(h, t) && Container(t) && t.kind == IsObject && MembersOf(t.kids) == []
    modifies h`asked, h`live, Owned(t)
    ensures Kept(t') && Live(h, t') && Container(t') && t'.node == t.node && t'.kind == IsObject
    ensures Owned(t) <= Owned(t') && fresh(Owned(t') - Owned(t)) && h.live == old(h.live) + Owned(t')
    ensures !h.OutOfMemory() && Fit(t) ==>
              && Item(t')
              && MembersOf(t'.kids) == [Member(n1, String(s1)), Member(n2, String(s2)), Member(n3, String(s3)),
                                        Member(n4, String(s4)), Member(n5, String(s5))]
    ensures old(h.Refused()) <= h.Refused()
  {
    hide Kept, Fit, Owned, NulFree, MembersOf, Heap.Generous, Heap.Refused;
    t' := AddString(h, o, n1, s1, t);
    t' := AddString(h, o, n2, s2, t');
    t' := AddString(h, o, n3, s3, t');
    t' := AddString(h, o, n4, s4, t');
    t' := AddString(h, o, n5, s5, t');
    FiveMembers(Member(n1, String(s1)), Member(n2, String(s2)), Member(n3, String(s3)), Member(n4, String(s4)),
                Member(n5, String(s5)));
  }

  /** The members that describe the device. */
  method AddHead(h: Heap, root: Node, hwd: Info, ghost t: Tree) returns (ghost t': Tree)
    requires InfoText(hwd)
    requires root == t.node && Kept(t) && Live(h, t) && Container(t) && t.kind == IsObject && t.kids == []
    modifies h`asked, h`live, Owned(t)
    ensures Kept(t') && Live(h, t') && Container(t') && t'.node == t.node && t'.kind == IsObject
    ensures Owned(t) <= Owned(t') && fresh(Owned(t') - Owned(t)) && h.live == old(h.live) + Owned(t')
    ensures !h.OutOfMemory() && Fit(t) ==> Item(t') && MembersOf(t'.kids) == Head5(hwd)
    ensures old(h.Refused()) <= h.Refused()
  {
    hide Kept, Fit, Owned, NulFree, JsonOf, MembersOf, Heap.Refused;
    NamesAreText();
    NoMembers(t.kids);
    t' := AddFive(h, root, NAME, hwd.name, ID, hwd.id, TERMINAL, hwd.terminal, MTYPE, MSGE, T, hwd.time, t);
  }

  /** One channel of the report. Without memory for its object it is not marked and not appended. */
  method AppendParam(h: Heap, items: Node, pd: Cache, at: nat, f: Formats, ghost t: Tree)
    returns (ok: bool, ghost t': Tree)
    requires Printing(f) && ChannelText(pd.View())
    requires items == t.node && Kept(t) && Live(h, t) && Container(t) && t.kind == IsArray
    modifies h`asked, h`live, Owned(t), pd`status
    ensures Kept(t') && Live(h, t') && Container(t') && t'.node == t.node && t'.kind == IsArray
    ensures Owned(t) <= Owned(t') && fresh(Owned(t') - Owned(t)) && h.live == old(h.live) + Owned(t')
    ensures old(h.Refused()) <= h.Refused() && (!ok ==> h.OutOfMemory())
    ensures pd.View() == if ok then old(pd.View()).(status := Used) else old(pd.View())
    ensures !h.OutOfMemory() && Fit(t) ==>
              Fit(t') && JsonsOf(t'.kids) == JsonsOf(t.kids) + [Param(f, Entry(at, old(pd.View())))]
  {
    hide Detached, NoReferences, Finite, Fit, Owned, NulFree, JsonOf, JsonsOf, Heap.Refused;
    TreeAllocated(t);
    Foreign(pd, t);
    t' := t;
    var jparam := CreateContainer(h, IsObject);
    ok := jparam != null;
    if !ok {
      return;
    }
    BareOwnsItself(jparam, IsObject);
    TreeAllocated(Bare(jparam, IsObject, Owner.None));
    Foreign(pd, Bare(jparam, IsObject, Owner.None));
    var r := UsedCache(pd);
    ghost var x := FormatHardwareParam(h, jparam, pd, at, f, Bare(jparam, IsObject, Owner.None));
    AddItem(h, items, jparam, t, x);
    t' := Grow(t, x);
  }

  lemma BareOwnsItself(item: Node, kind: Memory.Kind)
    ensures Owned(Bare(item, kind, Owner.None)) == {item}
  {
  }

  lemma ParamsStep(f: Formats, cs: seq<Channel>, i: nat)
    requires i < |cs|
    ensures Params(f, Report(cs[i..], i))
         == (if cs[i].status == Uptare then [Param(f, Entry(i, cs[i]))] else []) + Params(f, Report(cs[i + 1..], i + 1))
  {
    var rest := Report(cs[i + 1..], i + 1);
    assert cs[i..][1..] == cs[i + 1..];
    assert ([Entry(i, cs[i])] + rest)[1..] == rest && [] + rest == rest;
    assert [] + Params(f, rest) == Params(f, rest);
  }

  lemma Assoc(a: seq<Json>, b: seq<Json>, c: seq<Json>)
    ensures a + (b + c) == a + b + c && [] + c == c
  {
  }

  lemma NoItems(t: Tree, all: seq<Json>)
    requires t.kids == []
    ensures JsonsOf(t.kids) + all == all
  {
  }

  lemma NothingLeft(f: Formats, done: seq<Json>, cs: seq<Channel>, i: nat)
    requires cs == []
    ensures done + Params(f, Report(cs, i)) == done
  {
  }

  /** A channel that is to be reported is marked as used and appended. */
  method AppendNext(h: Heap, items: Node, pd: Cache, at: nat, f: Formats, ghost t: Tree, ghost was: seq<Channel>,
                    ghost all: seq<Json>)
    returns (ok: bool, ghost t': Tree)
    requires Printing(f) && at < |was| && pd.View() == was[at] && ChannelText(was[at])
    requires items == t.node && Kept(t) && Live(h, t) && Container(t) && t.kind == IsArray
    modifies h`asked, h`live, Owned(t), pd`status
    ensures Kept(t') && Live(h, t') && Container(t') && t'.node == t.node && t'.kind == IsArray
    ensures Owned(t) <= Owned(t') && fresh(Owned(t') - Owned(t)) && h.live == old(h.live) + Owned(t')
    ensures old(h.Refused()) <= h.Refused() && (!ok ==> h.OutOfMemory())
    ensures pd.View() == if ok then MarkUsed(was[at]) else was[at]
    ensures !h.OutOfMemory() && Fit(t) && JsonsOf(t.kids) + Params(f, Report(was[at..], at)) == all ==>
              Fit(t') && JsonsOf(t'.kids) + Params(f, Report(was[at + 1..], at + 1)) == all
  {
    hide Kept, Fit, Owned, NulFree, Report, Params, JsonsOf, Param, Heap.Refused;
    ok, t' := true, t;
    ParamsStep(f, was, at);
    Assoc(JsonsOf(t.kids), [Param(f, Entry(at, was[at]))], Params(f, Report(was[at + 1..], at + 1)));
    if pd.status == Uptare {
      ok, t' := AppendParam(h, items, pd, at, f, t);
    }
  }

  /** The first `n` channels have been reported as far as they had to be. */
  ghost function SentFirst(cs: seq<Channel>, n: nat): (r: seq<Channel>)
    ensures |r| == |cs|
    ensures forall k :: 0 <= k < |cs| ==> r[k] == if k < n then MarkUsed(cs[k]) else cs[k]
    ensures n >= |cs| ==> r == Sent(cs)
  {
    seq(|cs|, k requires 0 <= k < |cs| => if k < n then MarkUsed(cs[k]) else cs[k])
  }

  /** The loop over the channels, up to the first null pointer or the first refused object: `n` of them
      are dealt with. */
  method AppendParams(h: Heap, items: Node, pData: array<Cache?>, number: nat, f: Formats, ghost cs: seq<Cache>,
                      ghost t: Tree)
    returns (ok: bool, ghost n: nat, ghost t': Tree)
    requires Printing(f) && Scans(pData, number, cs)
    requires forall i :: 0 <= i < |cs| ==> ChannelText(cs[i].View())
    requires items == t.node && Kept(t) && Live(h, t) && Container(t) && t.kind == IsArray && t.kids == []
    modifies h`asked, h`live, Owned(t), cs`status
    ensures Kept(t') && Live(h, t') && Container(t') && t'.node == t.node && t'.kind == IsArray
    ensures Owned(t) <= Owned(t') && fresh(Owned(t') - Owned(t)) && h.live == old(h.live) + Owned(t')
    ensures old(h.Refused()) <= h.Refused() && n <= |cs| && Views(cs) == SentFirst(old(Views(cs)), n)
    ensures ok ==> n == |cs| == number
    ensures !h.OutOfMemory() ==> n == |cs| && (ok <==> |cs| == number)
    ensures ok && !h.OutOfMemory() && Fit(t) ==> Fit(t') && JsonsOf(t'.kids) == Params(f, Report(old(Views(cs)), 0))
  {
    hide Kept, Fit, Owned, NulFree, Report, Params, JsonsOf, MarkUsed, ChannelText, Container, Views, Heap.Refused;
    ghost var was := Views(cs);
    ghost var all := Params(f, Report(was, 0));
    assert was[0..] == was && forall k :: 0 <= k < |cs| ==> ChannelText(was[k]);
    NoItems(t, all);
    t' := t;
    var i := 0;
    ok := true;
    while ok && i < number
      invariant i <= |cs| && Scans(pData, number, cs) && Live(h, t') && (!ok ==> h.OutOfMemory())
      invariant Kept(t') && Container(t') && t'.node == t.node && t'.kind == IsArray
      invariant Owned(t) <= Owned(t') && fresh(Owned(t') - Owned(t)) && h.live == old(h.live) + Owned(t')
      invariant forall k :: 0 <= k < i ==> cs[k].View() == MarkUsed(was[k])
      invariant forall k :: i <= k < |cs| ==> cs[k].View() == was[k]
      invariant old(h.Refused()) <= h.Refused()
      invariant ok && !h.OutOfMemory() && Fit(t) ==> Fit(t') && JsonsOf(t'.kids) + Params(f, Report(was[i..], i)) == all
      decreases number - i, ok
    {
      CachesApart(cs, pData, t');
      var pd := pData[i];
      if pd == null {
        break;
      }
      ok, t' := AppendNext(h, items, pd, i, f, t', was, all);
      if ok {
        i := i + 1;
      }
    }
    n := i;
    ok := ok && i == number;
    ViewsAre(cs, SentFirst(was, n));
    if ok {
      NothingLeft(f, JsonsOf(t'.kids), was[i..], i);
    }
  }

  /** The last steps of `ws_format_hardware_data`: the document is put together, printed and deleted. */
  method FinishDocument(h: Heap, json: Node, root: Node, items: Node, ghost hwd: Info, ghost f: Formats,
                        ghost entries: seq<Entry>, ghost tj: Tree, ghost tr: Tree, ghost ta: Tree)
    returns (out: array?<byte>)
    requires json == tj.node && Kept(tj) && Live(h, tj) && Container(tj) && tj.kind == IsObject && tj.kids == []
    requires root == tr.node && Kept(tr) && Live(h, tr) && Container(tr) && tr.kind == IsObject
    requires items == ta.node && Kept(ta) && Live(h, ta) && Container(ta) && ta.kind == IsArray
    requires Owned(tj) !! Owned(tr) !! Owned(ta)
    modifies h`asked, h`live, Owned(tj), Owned(tr), Owned(ta)
    ensures old(h.Refused()) <= h.Refused() && (out == null ==> h.OutOfMemory())
    ensures out != null ==> fresh(out)
    ensures h.live == old(h.live) - Owned(tj) - Owned(tr) - Owned(ta) + if out == null then {} else {out}
    ensures !h.OutOfMemory() && Fit(tj) && Fit(tr) && Fit(ta)
            && MembersOf(tr.kids) == Head5(hwd) && JsonsOf(ta.kids) == Params(f, entries) ==>
              && Printable(Document(hwd, f, entries)) && out != null
              && Holds(out, Print(Document(hwd, f, entries), 0, true))
  {
    hide Detached, NoReferences, Finite, Fit, Owned, NulFree, Params, JsonsOf, MembersOf, Print, Printable;
    hide Heap.Refused;
    NamesAreText();
    TreeAllocated(tj);
    NoMembers(tj.kids);
    RootIsOwned(tj);
    RootIsOwned(tr);
    RootIsOwned(ta);
    ghost var tr' := AddMember(h, root, PARAMS, items, tr, ta);
    TreeAllocated(tr');
    ghost var tj' := AddMember(h, json, JSON, root, tj, tr');
    assert [] + [Member(JSON, JsonOf(tr'))] == [Member(JSON, JsonOf(tr'))];
    out := PrintAndDelete(h, json, tj');
  }

  method PrintAndDelete(h: Heap, json: Node, ghost t: Tree) returns (out: array?<byte>)
    requires json == t.node && Kept(t) && Live(h, t)
    modifies h`asked, h`live
    ensures old(h.Refused()) <= h.Refused() && (out == null ==> h.OutOfMemory())
    ensures h.live == old(h.live) - Owned(t) + if out == null then {} else {out}
    ensures out != null ==> fresh(out) && (Fit(t) ==> Printable(JsonOf(t)) && Holds(out, Print(JsonOf(t), 0, true)))
  {
    hide Print, Printable, Shown, Fit, Finite, JsonOf, Owned, TreeText, Heap.Refused;
    ValidIsShown(t);
    TreeAllocated(t);
    out := PrintItem(h, json, true, t);
    ChainOne(t, null, null);
    Delete(h, json, [t], null);
  }

  lemma {:induction false} ReportHasText(f: Formats, cs: seq<Channel>, at: nat)
    requires Printing(f) && forall i :: 0 <= i < |cs| ==> ChannelText(cs[i])
    ensures AllPrintable(Params(f, Report(cs, at)))
    decreases |cs|
  {
    if cs != [] {
      ReportHasText(f, cs[1..], at + 1);
      ParamHasText(f, Entry(at, cs[0]));
      hide Param, ChannelText;
      var rest := Report(cs[1..], at + 1);
      assert ([Entry(at, cs[0])] + rest)[1..] == rest && [] + rest == rest;
      assert ([Param(f, Entry(at, cs[0]))] + Params(f, rest))[1..] == Params(f, rest);
    }
  }

  lemma ParamHasText(f: Formats, e: Entry)
    requires Printing(f) && ChannelText(e.channel)
    ensures Printable(Param(f, e))
  {
    NamesAreText();
    hide NulFree;
    StringsArePrintable(Param(f, e).members);
  }

  lemma {:induction false} StringsArePrintable(ms: seq<Member>)
    requires forall i :: 0 <= i < |ms| ==> NulFree(ms[i].name) && ms[i].value.String? && NulFree(ms[i].value.text)
    ensures MembersPrintable(ms)
    decreases |ms|
  {
    if ms != [] {
      StringsArePrintable(ms[1..]);
    }
  }

  /** The document can be printed. */
  lemma DocumentIsPrintable(hwd: Info, f: Formats, cs: seq<Channel>)
    requires InfoText(hwd) && Printing(f) && forall i :: 0 <= i < |cs| ==> ChannelText(cs[i])
    ensures Printable(Document(hwd, f, Report(cs, 0)))
  {
    hide NulFree, ChannelText, Printing, Params, Report, Head5, InfoText, MembersPrintable, AllPrintable;
    NamesAreText();
    ReportHasText(f, cs, 0);
    HeadHasText(hwd);
    PrintableSnoc(Head5(hwd), Member(PARAMS, Array(Params(f, Report(cs, 0)))));
    OneIsPrintable(Member(JSON, Object(Head5(hwd) + [Member(PARAMS, Array(Params(f, Report(cs, 0))))])));
  }

  lemma HeadHasText(hwd: Info)
    requires InfoText(hwd)
    ensures MembersPrintable(Head5(hwd))
  {
    NamesAreText();
    hide NulFree;
    StringsArePrintable(Head5(hwd));
  }

  lemma OneIsPrintable(m: Member)
    requires NulFree(m.name) && Printable(m.value)
    ensures MembersPrintable([m])
  {
    assert [m][1..] == [];
  }

  lemma {:induction false} PrintableSnoc(ms: seq<Member>, m: Member)
    requires MembersPrintable(ms) && NulFree(m.name) && Printable(m.value)
    ensures MembersPrintable(ms + [m])
    decreases |ms|
  {
    if ms == [] {
      assert ms + [m] == [m];
    } else {
      assert (ms + [m])[1..] == ms[1..] + [m];
      PrintableSnoc(ms[1..], m);
    }
  }

  /** The three containers of a document. */
  method CreateContainers(h: Heap) returns (json: Node?, root: Node?, items: Node?)
    requires h !in h.live
    modifies h`asked, h`live
    ensures old(h.Refused()) <= h.Refused() && h !in h.live && old(h.live) <= h.live
    ensures json == null || root == null || items == null ==> h.OutOfMemory()
    ensures old(h.grants(h.asked) && h.grants(h.asked + 1) && h.grants(h.asked + 2)) ==>
              json != null && root != null && items != null && h.Refused() == old(h.Refused())
    ensures json != null && root != null && items != null ==>
              && fresh({json, root, items}) && h.live == old(h.live) + {json, root, items}
              && json != root && root != items && items != json
              && Item(Bare(json, IsObject, Owner.None)) && Item(Bare(root, IsObject, Owner.None))
              && Item(Bare(items, IsArray, Owner.None))
  {
    hide Item, Owned, Heap.Refused;
    json := CreateContainer(h, IsObject);
    root := CreateContainer(h, IsObject);
    items := CreateContainer(h, IsArray);
  }

  /** `ws_format_hardware_data`: the channels to be reported are marked as used, and their document
      is printed; of everything else that was allocated nothing is left. With a null pointer among
      the channels, or without memory for one of their objects, it stops: nothing is printed, and what
      was built until then is lost. `n` channels are dealt with, all of them if it has `finished`. The
      source uses the three containers unchecked. */
  method FormatHardwareData(h: Heap, hwd: Info, pData: array?<Cache?>, number: nat, f: Formats, ghost cs: seq<Cache>)
    returns (out: array?<byte>, ghost n: nat, ghost finished: bool)
    requires h !in h.live && InfoText(hwd) && Printing(f)
    requires pData != null ==> h.grants(h.asked) && h.grants(h.asked + 1) && h.grants(h.asked + 2)
    requires if pData == null then cs == [] else Scans(pData, number, cs)
    requires forall i :: 0 <= i < |cs| ==> ChannelText(cs[i].View())
    modifies h`asked, h`live, cs`status
    ensures n <= |cs| && Views(cs) == SentFirst(old(Views(cs)), n)
    ensures finished ==> pData != null && n == |cs| == number
    ensures !h.OutOfMemory() ==> n == |cs| && (finished <==> pData != null && |cs| == number)
    ensures out != null ==> finished && fresh(out)
    ensures finished ==>
              && h.live == old(h.live) + (if out == null then {} else {out})
              && (out == null ==> h.OutOfMemory())
    ensures !finished ==> out == null && (pData != null || !h.OutOfMemory() ==> old(h.live) < h.live)
    ensures out != null && !h.OutOfMemory() ==>
              && Printable(Document(hwd, f, Report(old(Views(cs)), 0)))
              && Holds(out, Print(Document(hwd, f, Report(old(Views(cs)), 0)), 0, true))
  {
    hide Item, Kept, Owned, NulFree, Views, SentFirst, Sent, Scans, Document, Report, Print, Printable, Holds, Printing;
    hide InfoText, ChannelText, Heap.Refused, Bare;
    out, n, finished := null, 0, false;
    var json, root, items := CreateContainers(h);
    if pData == null {
      NoChannels(cs);
    } else {
      out, n, finished := FillDocument(h, json, root, items, hwd, pData, number, f, cs);
    }
  }

  lemma NoChannels(cs: seq<Cache>)
    ensures cs == [] ==> Views(cs) == [] == SentFirst(Views(cs), 0)
  {
  }

  /** `ws_format_hardware_data` from the first string on. */
  method FillDocument(h: Heap, json: Node, root: Node, items: Node, hwd: Info, pData: array<Cache?>, number: nat,
                      f: Formats, ghost cs: seq<Cache>)
    returns (out: array?<byte>, ghost n: nat, ghost finished: bool)
    requires h !in h.live && InfoText(hwd) && Printing(f) && Scans(pData, number, cs)
    requires forall i :: 0 <= i < |cs| ==> ChannelText(cs[i].View())
    requires Item(Bare(json, IsObject, Owner.None)) && Item(Bare(root, IsObject, Owner.None))
             && Item(Bare(items, IsArray, Owner.None))
    requires json in h.live && root in h.live && items in h.live && json != root && root != items && items != json
    modifies h`asked, h`live, json, root, items, cs`status
    ensures old(h.Refused()) <= h.Refused() && n <= |cs| && Views(cs) == SentFirst(old(Views(cs)), n)
    ensures finished ==> n == |cs| == number
    ensures !h.OutOfMemory() ==> n == |cs| && (finished <==> |cs| == number)
    ensures out != null ==> finished && fresh(out)
    ensures finished ==>
              && h.live == old(h.live) - {json, root, items} + (if out == null then {} else {out})
              && (out == null ==> h.OutOfMemory())
    ensures !finished ==> old(h.live) <= h.live && json in h.live && root in h.live && items in h.live
    ensures out != null && !h.OutOfMemory() ==>
              && Printable(Document(hwd, f, Report(old(Views(cs)), 0)))
              && Holds(out, Print(Document(hwd, f, Report(old(Views(cs)), 0)), 0, true))
  {
    hide Detached, NoReferences, Finite, Fit, Owned, OwnedAll, NulFree, Document, Report, ChannelText, Views, Print;
    hide Printable, JsonsOf, MembersOf, Scans, InfoText, Printing, Holds, Params, Head5, Sent, SentFirst, Heap.Refused;
    ghost var was := Views(cs);
    ghost var tj := Bare(json, IsObject, Owner.None);
    BareOwnsItself(json, IsObject);
    BareOwnsItself(root, IsObject);
    BareOwnsItself(items, IsArray);
    out := null;
    ghost var tr := AddHead(h, root, hwd, Bare(root, IsObject, Owner.None));
    TreeAllocated(tr);
    CachesApart(cs, pData, tr);
    ghost var ta;
    var ok;
    ok, n, ta := AppendParams(h, items, pData, number, f, cs, Bare(items, IsArray, Owner.None));
    finished := ok;
    if ok {
      out := FinishDocument(h, json, root, items, hwd, f, Report(was, 0), tj, tr, ta);
    }
  }
}
