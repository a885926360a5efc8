/** From the samples to the receiver of the reports. */
module EndToEnd {
  import opened Bytes
  import opened Json
  import opened Numbers
  import opened RoundTrip
  import opened Uplink
  import opened Hardware
  import opened Telemetry
  import opened Dataflow
  import opened Websocket
  import P = Parser

  /** What a receiver makes of a text: the JSON value whose bytes are in the array under "data", modulo 256. */
  ghost function Receive(s: Text): Option<Json> {
    var outer := P.ParseWithOpts(s, true);
    if outer.Ok? && Under(outer.value, "data").Array? then
      var inner := P.ParseWithOpts(Payload(Under(outer.value, "data").items), true);
      if inner.Ok? then Some(inner.value) else None
    else None
  }

  /** Whatever can be printed arrives, with its numbers as they are read back, in either form, whether
      `char` is signed or not; so it arrives as it was exactly if all its numbers come back, as integers
      of at most 53 bits do. */
  lemma SendThenReceive(j: Json, fmt: bool, cmdMerge: int, signed: bool)
    requires Printable(j) && INT_MIN <= cmdMerge <= INT_MAX
    ensures Receive(UplinkText(Print(j, 0, fmt), cmdMerge, signed)) == Some(Reread(j))
    ensures Receive(UplinkText(Print(j, 0, fmt), cmdMerge, signed)) == Some(j) <==> Survives(j)
    ensures HasSmallIntegers(j) ==> Survives(j)
  {
    UplinkDecodes(Print(j, 0, fmt), cmdMerge, signed);
    PrintThenParse(j, fmt, true);
    SurvivesExactly(j);
  }

  /** A report holds no numbers. */
  lemma {:induction false} StringsSurvive(ms: seq<Member>)
    requires forall i :: 0 <= i < |ms| ==> ms[i].value.String?
    ensures MembersSurvive(ms)
    decreases |ms|
  {
    if ms != [] {
      StringsSurvive(ms[1..]);
    }
  }

  lemma {:induction false} ParamsSurvive(f: Formats, entries: seq<Entry>)
    ensures AllSurvive(Params(f, entries))
    decreases |entries|
  {
    if entries != [] {
      StringsSurvive(Param(f, entries[0]).members);
      ParamsSurvive(f, entries[1..]);
      hide Param;
      assert Params(f, entries)[1..] == Params(f, entries[1..]);
    }
  }

  lemma {:induction false} SurviveSnoc(ms: seq<Member>, m: Member)
    requires MembersSurvive(ms) && Survives(m.value)
    ensures MembersSurvive(ms + [m])
    decreases |ms|
  {
    if ms == [] {
      assert ms + [m] == [m];
    } else {
      assert (ms + [m])[1..] == ms[1..] + [m];
      SurviveSnoc(ms[1..], m);
    }
  }

  lemma DocumentSurvives(hwd: Info, f: Formats, entries: seq<Entry>)
    ensures Survives(Document(hwd, f, entries))
  {
    ParamsSurvive(f, entries);
    StringsSurvive(Head5(hwd));
    hide MembersSurvive, Params, Head5;
    SurviveSnoc(Head5(hwd), Member(PARAMS, Array(Params(f, entries))));
    assert MembersSurvive([]) by {
      StringsSurvive([]);
    }
    var m := Member(JSON, Object(Head5(hwd) + [Member(PARAMS, Array(Params(f, entries)))]));
    SurviveSnoc([], m);
    assert [] + [m] == [m];
  }

  lemma {:induction false} ReportEntry(cs: seq<Channel>, at: nat, p: nat)
    requires p < |Report(cs, at)|
    ensures var e := Report(cs, at)[p];
            at <= e.at < at + |cs| && cs[e.at - at].status == Uptare && e.channel == cs[e.at - at]
    decreases |cs|
  {
    var rest := Report(cs[1..], at + 1);
    if cs[0].status != Uptare {
      assert Report(cs, at) == rest;
      ReportEntry(cs[1..], at + 1, p);
    } else if p > 0 {
      assert Report(cs, at)[p] == rest[p - 1];
      ReportEntry(cs[1..], at + 1, p - 1);
    }
  }

  lemma {:induction false} ReportInOrder(cs: seq<Channel>, at: nat, p: nat, q: nat)
    requires p < q < |Report(cs, at)|
    ensures Report(cs, at)[p].at < Report(cs, at)[q].at
    decreases |cs|
  {
    var rest := Report(cs[1..], at + 1);
    if cs[0].status != Uptare {
      assert Report(cs, at) == rest;
      ReportInOrder(cs[1..], at + 1, p, q);
    } else {
      assert Report(cs, at)[q] == rest[q - 1];
      if p == 0 {
        ReportEntry(cs[1..], at + 1, q - 1);
      } else {
        assert Report(cs, at)[p] == rest[p - 1];
        ReportInOrder(cs[1..], at + 1, p - 1, q - 1);
      }
    }
  }

  lemma {:induction false} ReportMentions(cs: seq<Channel>, at: nat, i: nat) returns (p: nat)
    requires i < |cs| && cs[i].status == Uptare
    ensures p < |Report(cs, at)| && Report(cs, at)[p].at == at + i
    decreases |cs|
  {
    var rest := Report(cs[1..], at + 1);
    if i == 0 {
      p := 0;
    } else {
      p := ReportMentions(cs[1..], at + 1, i - 1);
      if cs[0].status == Uptare {
        p := p + 1;
        assert Report(cs, at)[p] == rest[p - 1];
      } else {
        assert Report(cs, at) == rest;
      }
    }
  }

  /** The report is made of the channels to be reported, all of them, each with its own contents, in the
      order of the caches. */
  lemma ReportIsExact(cs: seq<Channel>)
    ensures var r := Report(cs, 0);
            && (forall p :: 0 <= p < |r| ==>
                  r[p].at < |cs| && cs[r[p].at].status == Uptare && r[p].channel == cs[r[p].at])
            && (forall p, q :: 0 <= p < q < |r| ==> r[p].at < r[q].at)
            && (forall i :: 0 <= i < |cs| && cs[i].status == Uptare ==> exists p :: 0 <= p < |r| && r[p].at == i)
  {
    hide Report;
    var r := Report(cs, 0);
    forall p | 0 <= p < |r| ensures r[p].at < |cs| && cs[r[p].at].status == Uptare && r[p].channel == cs[r[p].at] {
      ReportEntry(cs, 0, p);
    }
    forall p, q | 0 <= p < q < |r| ensures r[p].at < r[q].at {
      ReportInOrder(cs, 0, p, q);
    }
    forall i | 0 <= i < |cs| && cs[i].status == Uptare ensures exists p :: 0 <= p < |r| && r[p].at == i {
      var p := ReportMentions(cs, 0, i);
    }
  }

  lemma {:induction false} ParamsAt(f: Formats, entries: seq<Entry>, p: nat)
    requires p < |entries|
    ensures Params(f, entries)[p] == Param(f, entries[p])
    decreases p
  {
    if p > 0 {
      ParamsAt(f, entries[1..], p - 1);
    }
  }

  /** One send: the receiver gets the envelope of the device with one element for each channel to be
      reported, in the order of the caches. */
  lemma SendArrives(hwd: Info, f: Formats, cs: seq<Channel>, signed: bool)
    requires HasText(hwd, f, cs)
    ensures Receive(Upload(hwd, f, cs, signed)) == Some(Document(hwd, f, Report(cs, 0)))
  {
    UploadIsPrinted(hwd, f, cs, signed);
    DocumentSurvives(hwd, f, Report(cs, 0));
    SendThenReceive(Document(hwd, f, Report(cs, 0)), true, CMD_MES_PARAM, signed);
  }

  lemma {:induction false} StateHasText(kind: Kind, cs: seq<Channel>, beats: seq<Beat>, k: nat, hwd: Info, f: Formats)
    requires k <= |beats| && AllWired(kind, cs) && HasText(hwd, f, cs)
    requires forall j, i :: 0 <= j < |beats| ==> NulFree(beats[j].times(i))
    ensures HasText(hwd, f, State(kind, cs, beats, k))
    decreases k
  {
    if k > 0 {
      StateHasText(kind, cs, beats, k - 1, hwd, f);
      var s := State(kind, cs, beats, k - 1);
      MonitorHasText(kind, s, hwd, f, beats[k - 1].sample, beats[k - 1].times);
      hide NulFree, Monitor, AllWired;
    }
  }

  /** Over every run from a zero-filled start, what the receiver gets for heartbeat `k` mentions
      channel `i` exactly when a sender is there and the channel was never reported or its sample
      changed since it last was, and then it shows the sample of heartbeat `k`. */
  lemma RunArrives(kind: Kind, cs: seq<Channel>, beats: seq<Beat>, k: nat, i: nat, hwd: Info, f: Formats, signed: bool)
    requires k < |beats| && i < |cs| && Start(kind, cs) && HasText(hwd, f, cs)
    requires forall j, i :: 0 <= j < |beats| ==> NulFree(beats[j].times(i))
    ensures var m := Message(kind, cs, beats, k);
            && (m.Some? ==>
                  && Printable(Document(hwd, f, m.value))
                  && Receive(UplinkText(Print(Document(hwd, f, m.value), 0, true), CMD_MES_PARAM, signed))
                     == Some(Document(hwd, f, m.value)))
            && ((m.Some? && exists p :: 0 <= p < |m.value| && m.value[p].at == i)
                <==> beats[k].ready
                     && (NeverReported(kind, cs, beats, k, i) || Changed(kind, cs, beats, k, i)
                         || ChangedSinceReport(kind, cs, beats, k, i)))
            && (m.Some? ==> forall p :: 0 <= p < |m.value| && m.value[p].at == i ==>
                  && m.value[p].channel.val == SampleAt(kind, cs, beats, k, i)
                  && Params(f, m.value)[p] == Param(f, m.value[p]))
  {
    var m := Message(kind, cs, beats, k);
    NoSpuriousReport(kind, cs, beats, k, i);
    MessageIsReport(kind, cs, beats, k, hwd, f);
    if m.Some? {
      hide Message, Document, NeverReported, Changed, ChangedSinceReport, Start, HasText;
      DocumentSurvives(hwd, f, m.value);
      SendThenReceive(Document(hwd, f, m.value), true, CMD_MES_PARAM, signed);
      Mentioned(m.value, i);
      forall p | 0 <= p < |m.value| ensures Params(f, m.value)[p] == Param(f, m.value[p]) {
        ParamsAt(f, m.value, p);
      }
    }
  }

  /** The entries of a message have different indices, and their texts can be printed. */
  lemma MessageIsReport(kind: Kind, cs: seq<Channel>, beats: seq<Beat>, k: nat, hwd: Info, f: Formats)
    requires k < |beats| && AllWired(kind, cs) && HasText(hwd, f, cs)
    requires forall j, i :: 0 <= j < |beats| ==> NulFree(beats[j].times(i))
    ensures var m := Message(kind, cs, beats, k);
            m.Some? ==>
              && Printable(Document(hwd, f, m.value))
              && forall p, q :: 0 <= p < q < |m.value| ==> m.value[p].at < m.value[q].at
  {
    hide NulFree, AllWired, HasText, Document, Report;
    var s := State(kind, cs, beats, k);
    var m := Monitor(kind, s, beats[k].sample, beats[k].times);
    StateHasText(kind, cs, beats, k, hwd, f);
    MonitorHasText(kind, s, hwd, f, beats[k].sample, beats[k].times);
    ReportIsExact(m);
    UploadIsPrinted(hwd, f, m, true);
  }

  /** What a lookup finds in entries with different indices. */
  lemma {:induction false} Mentioned(entries: seq<Entry>, i: nat)
    requires forall p, q :: 0 <= p < q < |entries| ==> entries[p].at < entries[q].at
    ensures Lookup(entries, i).Some? <==> exists p :: 0 <= p < |entries| && entries[p].at == i
    ensures forall p :: 0 <= p < |entries| && entries[p].at == i ==> Lookup(entries, i) == Some(entries[p].channel)
    decreases |entries|
  {
    if entries != [] && entries[0].at != i {
      Mentioned(entries[1..], i);
      assert forall p :: 0 < p < |entries| ==> entries[p] == entries[1..][p - 1];
      assert forall p :: 0 <= p < |entries| - 1 ==> entries[1..][p] == entries[p + 1];
    }
  }

  // ----- What the receiver looks up ----------------------------------------

  lemma EnvelopeNames()
    ensures JSON == Ascii("json") && NAME == Ascii("name") && ID == Ascii("id") && TERMINAL == Ascii("terminal")
    ensures MTYPE == Ascii("mtype") && MSGE == Ascii("MSGE") && T == Ascii("t") && PARAMS == Ascii("params")
  {
  }

  lemma ItemNames()
    ensures KKS == Ascii("kks") && REF == Ascii("ref") && VTYPE == Ascii("vtype") && VAL == Ascii("val")
    ensures T == Ascii("t")
  {
  }

  lemma ParamSays(f: Formats, e: Entry)
    ensures var j, c := Param(f, e), e.channel;
            && Under(j, "kks") == String(c.kks) && Under(j, "ref") == String(c.ref)
            && Under(j, "vtype") == String(f.typeName(c.valType)) && Under(j, "val") == String(f.valText(e.at, c.val))
            && Under(j, "t") == String(c.time)
  {
    ItemNames();
    var ms := Param(f, e).members;
    UnderAt(ms, 0);
    UnderAt(ms, 1);
    UnderAt(ms, 2);
    UnderAt(ms, 3);
    UnderAt(ms, 4);
  }

  lemma DocumentSays(hwd: Info, f: Formats, entries: seq<Entry>)
    ensures var j := Under(Document(hwd, f, entries), "json");
            && Under(j, "name") == String(hwd.name) && Under(j, "id") == String(hwd.id)
            && Under(j, "terminal") == String(hwd.terminal) && Under(j, "mtype") == String(Ascii("MSGE"))
            && Under(j, "t") == String(hwd.time) && Under(j, "params") == Array(Params(f, entries))
  {
    EnvelopeNames();
    var ms := Head5(hwd) + [Member(PARAMS, Array(Params(f, entries)))];
    assert Under(Document(hwd, f, entries), "json") == Object(ms);
    UnderAt(ms, 0);
    UnderAt(ms, 1);
    UnderAt(ms, 2);
    UnderAt(ms, 3);
    UnderAt(ms, 4);
    UnderAt(ms, 5);
  }

  /** The `p`th item of the report in what is received. */
  ghost function ItemOf(received: Option<Json>, p: nat): Json {
    if received.None? then Null
    else
      var items := Under(Under(received.value, "json"), "params");
      if items.Array? && p < |items.items| then items.items[p] else Null
  }

  /** The envelope of one send, as the receiver looks it up, with an item for each channel to be reported. */
  lemma EnvelopeArrives(hwd: Info, f: Formats, cs: seq<Channel>, signed: bool)
    requires HasText(hwd, f, cs)
    ensures var r := Receive(Upload(hwd, f, cs, signed));
            && r.Some?
            && var j := Under(r.value, "json");
               && Under(j, "name") == String(hwd.name) && Under(j, "id") == String(hwd.id)
               && Under(j, "terminal") == String(hwd.terminal) && Under(j, "mtype") == String(Ascii("MSGE"))
               && Under(j, "t") == String(hwd.time)
               && Under(j, "params").Array? && |Under(j, "params").items| == |Report(cs, 0)|
  {
    hide Document, Report, Under, Receive, Upload, HasText;
    SendArrives(hwd, f, cs, signed);
    DocumentSays(hwd, f, Report(cs, 0));
  }

  /** The tag of the reports. */
  lemma UploadIsTagged(hwd: Info, f: Formats, cs: seq<Channel>, signed: bool)
    requires HasText(hwd, f, cs)
    ensures var r := P.ParseWithOpts(Upload(hwd, f, cs, signed), true);
            r.Ok? && Under(r.value, "cmdCode") == Number(1.0) && Under(r.value, "cmdMerge") == Number(65537.0)
  {
    hide HasText, Under;
    UploadIsPrinted(hwd, f, cs, signed);
    UplinkDecodes(Print(Document(hwd, f, Report(cs, 0)), 0, true), CMD_MES_PARAM, signed);
  }

  lemma ItemSays(hwd: Info, f: Formats, entries: seq<Entry>, p: nat)
    requires p < |entries|
    ensures var item, c := ItemOf(Some(Document(hwd, f, entries)), p), entries[p].channel;
            && Under(item, "kks") == String(c.kks) && Under(item, "ref") == String(c.ref)
            && Under(item, "vtype") == String(f.typeName(c.valType))
            && Under(item, "val") == String(f.valText(entries[p].at, c.val)) && Under(item, "t") == String(c.time)
  {
    DocumentSays(hwd, f, entries);
    ParamsAt(f, entries, p);
    ParamSays(f, entries[p]);
    hide Document, Param, Under;
  }

  lemma EntryIsChannel(cs: seq<Channel>, p: nat)
    requires p < |Report(cs, 0)|
    ensures var e := Report(cs, 0)[p];
            e.at < |cs| && cs[e.at].status == Uptare && e.channel == cs[e.at]
  {
    ReportEntry(cs, 0, p);
  }

  /** The `p`th channel to be reported, as the receiver looks it up: its codes, the name of its type, its
      value and its time. */
  lemma ChannelArrives(hwd: Info, f: Formats, cs: seq<Channel>, signed: bool, p: nat)
    requires HasText(hwd, f, cs) && p < |Report(cs, 0)|
    ensures var item, at := ItemOf(Receive(Upload(hwd, f, cs, signed)), p), Report(cs, 0)[p].at;
            && at < |cs| && cs[at].status == Uptare
            && Under(item, "kks") == String(cs[at].kks) && Under(item, "ref") == String(cs[at].ref)
            && Under(item, "vtype") == String(f.typeName(cs[at].valType))
            && Under(item, "val") == String(f.valText(at, cs[at].val)) && Under(item, "t") == String(cs[at].time)
  {
    hide Document, Report, Under, Receive, Upload, HasText, ItemOf, Printing, InfoText;
    EntryIsChannel(cs, p);
    SendArrives(hwd, f, cs, signed);
    ItemSays(hwd, f, Report(cs, 0), p);
  }

  /** An entry of a message is what is reported of its channel. */
  lemma EntryIsReported(kind: Kind, cs: seq<Channel>, beats: seq<Beat>, k: nat, p: nat)
    requires k < |beats| && AllWired(kind, cs)
    requires Message(kind, cs, beats, k).Some? && p < |Message(kind, cs, beats, k).value|
    ensures var e := Message(kind, cs, beats, k).value[p];
            e.at < |cs| && Reported(kind, cs, beats, k, e.at) == Some(e.channel)
  {
    hide AllWired, Report, Lookup;
    var m := Monitor(kind, State(kind, cs, beats, k), beats[k].sample, beats[k].times);
    ReportEntry(m, 0, p);
    LookupInReport(m, 0, Report(m, 0)[p].at);
  }

  /** Over every run from a zero-filled start, the receiver looks up in item `p` of heartbeat `k`: the
      codes and the type of the channel as they were configured, its sample at that heartbeat, and
      the time of the heartbeat that last changed the sample. */
  lemma SampleArrives(kind: Kind, cs: seq<Channel>, beats: seq<Beat>, k: nat, p: nat, hwd: Info, f: Formats,
                      signed: bool)
    requires k < |beats| && Start(kind, cs) && HasText(hwd, f, cs)
    requires forall j, i :: 0 <= j < |beats| ==> NulFree(beats[j].times(i))
    requires Message(kind, cs, beats, k).Some? && p < |Message(kind, cs, beats, k).value|
    ensures var m := Message(kind, cs, beats, k).value;
            && Printable(Document(hwd, f, m))
            && var received := Receive(UplinkText(Print(Document(hwd, f, m), 0, true), CMD_MES_PARAM, signed));
               var item, i := ItemOf(received, p), m[p].at;
               && i < |cs| && Under(item, "kks") == String(cs[i].kks) && Under(item, "ref") == String(cs[i].ref)
               && Under(item, "vtype") == String(f.typeName(cs[i].valType))
               && Under(item, "val") == String(f.valText(i, SampleAt(kind, cs, beats, k, i)))
               && forall j :: 0 <= j <= k && LastChange(kind, cs, beats, j, k + 1, i) ==>
                    Under(item, "t") == String(beats[j].times(i))
  {
    var m := Message(kind, cs, beats, k).value;
    MessageIsReport(kind, cs, beats, k, hwd, f);
    EntryIsReported(kind, cs, beats, k, p);
    NoSpuriousReport(kind, cs, beats, k, m[p].at);
    forall j | 0 <= j <= k && LastChange(kind, cs, beats, j, k + 1, m[p].at)
      ensures m[p].channel.time == beats[j].times(m[p].at)
    {
      ReportedTime(kind, cs, beats, j, k, m[p].at);
    }
    hide Message, Document, NeverReported, Changed, ChangedSinceReport, Start, HasText, Reported, LastChange, Under;
    hide ItemOf;
    DocumentSurvives(hwd, f, m);
    SendThenReceive(Document(hwd, f, m), true, CMD_MES_PARAM, signed);
    ItemSays(hwd, f, m, p);
  }
}
