/** `srv_websocket.cpp`: reports on their way to the sender. */
module Websocket {
  import opened Bytes
  import opened Json
  import opened Memory
  import opened Uplink
  import opened Hardware
  import opened Telemetry
  import opened Dataflow

  /** What `ws_sub_protocol_t` says to the reporting thread: the buffer of the sender, if one is there. */
  class Protocol {
    var pUser: array?<byte>

    constructor ()
      ensures pUser == null
    {
      pUser := null;
    }
  }

  ghost predicate HasText(hwd: Info, f: Formats, cs: seq<Channel>) {
    InfoText(hwd) && Printing(f) && forall i :: 0 <= i < |cs| ==> ChannelText(cs[i])
  }

  /** The text that is sent for the caches `cs`. */
  ghost function Upload(hwd: Info, f: Formats, cs: seq<Channel>, signed: bool): Text
    requires HasText(hwd, f, cs)
  {
    DocumentIsPrintable(hwd, f, cs);
    UplinkText(Print(Document(hwd, f, Report(cs, 0)), 0, true), CMD_MES_PARAM, signed)
  }

  lemma UploadIsPrinted(hwd: Info, f: Formats, cs: seq<Channel>, signed: bool)
    requires HasText(hwd, f, cs)
    ensures Printable(Document(hwd, f, Report(cs, 0)))
    ensures Upload(hwd, f, cs, signed)
            == UplinkText(Print(Document(hwd, f, Report(cs, 0)), 0, true), CMD_MES_PARAM, signed)
  {
    DocumentIsPrintable(hwd, f, cs);
  }

  /** `sprintf(p_user, "%s", dbuf)`. */
  method CopyText(to: array<byte>, from: array<byte>, ghost s: Text)
    requires Holds(from, s) && |s| < to.Length && to != from
    modifies to
    ensures Holds(to, s)
  {
    var n := StrLen(from, s);
    forall i | 0 <= i < n + 1 {
      to[i] := from[i];
    }
    assert to[..|s|] == from[..|s|];
  }

  /** `ws_data_pack_and_send`. Without a sender nothing happens. The buffers are as large as the text
      needs, which the source does not check. */
  method PackAndSend(h: Heap, hwd: Info, pData: array<Cache?>, number: nat, wsd: Protocol?, dbuf: array<byte>,
                     f: Formats, signed: bool, ghost cs: seq<Cache>)
    returns (r: int)
    requires h.Generous() && h !in h.live && Scans(pData, number, cs) && |cs| == number && HasText(hwd, f, Views(cs))
    requires wsd != null && wsd.pUser != null ==>
               && wsd.pUser != dbuf && |Upload(hwd, f, Views(cs), signed)| < dbuf.Length
               && |Upload(hwd, f, Views(cs), signed)| < wsd.pUser.Length
    modifies h`asked, h`live, cs`status, dbuf, if wsd == null || wsd.pUser == null then {} else {wsd.pUser}
    ensures r == if wsd == null || wsd.pUser == null then -1 else 0
    ensures r == -1 ==> Views(cs) == old(Views(cs)) && dbuf[..] == old(dbuf[..])
    ensures r == 0 ==> Views(cs) == Sent(old(Views(cs))) && Holds(wsd.pUser, old(Upload(hwd, f, Views(cs), signed)))
    ensures h.live == old(h.live)
  {
    if wsd == null || wsd.pUser == null {
      return -1;
    }
    hide Views, Sent, Upload, Holds, HasText, Scans;
    SendReport(h, hwd, pData, number, wsd.pUser, dbuf, f, signed, cs);
    return 0;
  }

  /** `ws_data_pack_and_send` when there is a sender. */
  method SendReport(h: Heap, hwd: Info, pData: array<Cache?>, number: nat, user: array<byte>, dbuf: array<byte>,
                    f: Formats, signed: bool, ghost cs: seq<Cache>)
    requires h.Generous() && h !in h.live && Scans(pData, number, cs) && |cs| == number && HasText(hwd, f, Views(cs))
    requires user != dbuf && |Upload(hwd, f, Views(cs), signed)| < dbuf.Length
             && |Upload(hwd, f, Views(cs), signed)| < user.Length
    modifies h`asked, h`live, cs`status, dbuf, user
    ensures Views(cs) == Sent(old(Views(cs))) && Holds(user, old(Upload(hwd, f, Views(cs), signed)))
    ensures h.live == old(h.live)
  {
    hide Report, Document, Print, Holds, UplinkText, Views, Sent, Scans, Upload, InfoText, Printing, NulFree, Printable;
    ghost var was := Views(cs);
    UploadIsPrinted(hwd, f, was, signed);
    ghost var json := Print(Document(hwd, f, Report(was, 0)), 0, true);
    NeverRefuses(h);
    ghost var n, finished;
    var str;
    str, n, finished := FormatHardwareData(h, hwd, pData, number, f, cs);
    NeverRefuses(h);
    var done := FormatUplinkData(dbuf, str, CMD_MES_PARAM, signed, json);
    CopyText(user, dbuf, UplinkText(json, CMD_MES_PARAM, signed));
    h.Free(str);
  }

  /** `ws_param_monitor`. */
  method WsParamMonitor(h: Heap, hw: Device, hwd: Info, wsd: Protocol, dbuf: array<byte>, f: Formats, signed: bool)
    requires h.Generous() && h !in h.live && hw.Valid() && HasText(hwd, f, Views(hw.caches))
    requires wsd.pUser != null ==>
               && wsd.pUser != dbuf && |Upload(hwd, f, Views(hw.caches), signed)| < dbuf.Length
               && |Upload(hwd, f, Views(hw.caches), signed)| < wsd.pUser.Length
    modifies h`asked, h`live, hw.caches`status, dbuf, if wsd.pUser == null then {} else {wsd.pUser}
    ensures hw.Valid() && h.live == old(h.live)
    ensures var cs := old(Views(hw.caches));
            if wsd.pUser != null && Owed(cs)
            then Views(hw.caches) == Sent(cs) && Holds(wsd.pUser, old(Upload(hwd, f, Views(hw.caches), signed)))
            else Views(hw.caches) == cs && (wsd.pUser != null ==> wsd.pUser[..] == old(wsd.pUser[..]))
  {
    hide Upload, Sent, Views, Holds, HasText, Scans, Owed;
    var status := LookCacheStatus(hw.pCache, hw.nChNum, hw.caches);
    if status == 0 {
      var r := PackAndSend(h, hwd, hw.pCache, hw.nChNum, wsd, dbuf, f, signed, hw.caches);
    }
  }

  // ----- One turn of the main loop -----------------------------------------

  lemma MonitorHasText(kind: Hardware.Kind, cs: seq<Channel>, hwd: Info, f: Formats, s: Sample, times: nat -> Text)
    requires AllWired(kind, cs) && HasText(hwd, f, cs) && forall i :: NulFree(times(i))
    ensures HasText(hwd, f, Monitor(kind, cs, s, times))
  {
    hide NulFree, Sensed, Wired;
    MonitorAt(kind, cs, s, times);
  }

  /** The text that is sent after the samples have been taken. */
  ghost function UploadAfter(kind: Hardware.Kind, cs: seq<Channel>, hwd: Info, f: Formats, s: Sample,
                             times: nat -> Text,
                             signed: bool): Text
    requires AllWired(kind, cs) && HasText(hwd, f, cs) && forall i :: NulFree(times(i))
  {
    MonitorHasText(kind, cs, hwd, f, s, times);
    Upload(hwd, f, Monitor(kind, cs, s, times), signed)
  }

  /** `hw_heartbeat` and then `ws_heartbeat`: the caches take the step of the pipeline, and its
      message, if there is one, is what the sender gets. */
  method Heartbeat(h: Heap, hw: Device, s: Sample, now: Text, times: nat -> Text, wsd: Protocol, dbuf: array<byte>,
                   f: Formats, signed: bool)
    requires h.Generous() && h !in h.live && hw.Valid() && AllWired(hw.kind, Views(hw.caches))
    requires HasText(Info(hw.name, hw.id, hw.terminal, now), f, Views(hw.caches)) && forall i :: NulFree(times(i))
    requires wsd.pUser != null ==>
               var hwd := Info(hw.name, hw.id, hw.terminal, now);
               var text := UploadAfter(hw.kind, Views(hw.caches), hwd, f, s, times, signed);
               wsd.pUser != dbuf && |text| < dbuf.Length && |text| < wsd.pUser.Length
    modifies h`asked, h`live, hw`time, hw.caches, dbuf, if wsd.pUser == null then {} else {wsd.pUser}
    ensures hw.Valid() && hw.time == now && h.live == old(h.live)
    ensures var r := Step(hw.kind, old(Views(hw.caches)), Beat(s, times, wsd.pUser != null));
            && Views(hw.caches) == r.0
            && (r.1.None? && wsd.pUser != null ==> wsd.pUser[..] == old(wsd.pUser[..]))
            && (r.1.Some? ==>
                  var document := Document(Info(hw.name, hw.id, hw.terminal, now), f, r.1.value);
                  Printable(document) && Holds(wsd.pUser, UplinkText(Print(document, 0, true), CMD_MES_PARAM, signed)))
  {
    hide Views, Sent, Report, Monitor, Holds, HasText, Document, Print, Printable, UplinkText, Owed, AllWired, NulFree;
    ghost var m := Monitor(hw.kind, Views(hw.caches), s, times);
    MonitorHasText(hw.kind, Views(hw.caches), Info(hw.name, hw.id, hw.terminal, now), f, s, times);
    UploadIsPrinted(Info(hw.name, hw.id, hw.terminal, now), f, m, signed);
    hw.ParamMonitor(s, now, times);
    assert Views(hw.caches) == m;
    WsParamMonitor(h, hw, Info(hw.name, hw.id, hw.terminal, hw.time), wsd, dbuf, f, signed);
  }
}
