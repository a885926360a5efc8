/** The reporting pipeline over whole runs: what is sent, and when. */
module Telemetry {
  import opened Bytes
  import opened Hardware

  // ----- One heartbeat -----------------------------------------------------

  /** A channel of a message: its index among the caches, and its contents when it was sent. */
  datatype Entry = Entry(at: nat, channel: Channel)

  datatype Option<T> = None | Some(value: T)

  /** What a turn of the main loop meets: the samples, the clock, and whether a sender is there. */
  datatype Beat = Beat(sample: Sample, times: nat -> Text, ready: bool)

  /** The channels to be reported, in the order of the caches; the first of `cs` has index `at`. */
  function Report(cs: seq<Channel>, at: nat): seq<Entry> {
    if cs == [] then []
    else (if cs[0].status == Uptare then [Entry(at, cs[0])] else []) + Report(cs[1..], at + 1)
  }

  function MarkUsed(c: Channel): Channel {
    if c.status == Uptare then c.(status := Used) else c
  }

  /** The caches after everything to be reported has been. */
  function Sent(cs: seq<Channel>): seq<Channel> {
    seq(|cs|, i requires 0 <= i < |cs| => MarkUsed(cs[i]))
  }

  /** `hw_heartbeat` and then `ws_heartbeat`. */
  function Step(kind: Kind, cs: seq<Channel>, b: Beat): (seq<Channel>, Option<seq<Entry>>)
    requires AllWired(kind, cs)
  {
    var m := Monitor(kind, cs, b.sample, b.times);
    if b.ready && Owed(m) then (Sent(m), Some(Report(m, 0))) else (m, None)
  }

  lemma StepKeepsSetup(kind: Kind, cs: seq<Channel>, b: Beat)
    requires AllWired(kind, cs)
    ensures var r := Step(kind, cs, b).0;
            |r| == |cs| && forall i :: 0 <= i < |cs| ==> SameSetup(r[i], cs[i])
  {
    MonitorAt(kind, cs, b.sample, b.times);
    hide Sensed;
  }

  // ----- Runs --------------------------------------------------------------

  /** The caches at the start: configured, and otherwise zero-filled. */
  ghost predicate Fresh(cs: seq<Channel>) {
    forall i :: 0 <= i < |cs| ==> cs[i].val == 0.0 && cs[i].status == Uptare
  }

  ghost predicate Start(kind: Kind, cs: seq<Channel>) {
    AllWired(kind, cs) && Fresh(cs)
  }

  /** The caches before heartbeat `k`. */
  ghost function State(kind: Kind, cs: seq<Channel>, beats: seq<Beat>, k: nat): (r: seq<Channel>)
    requires k <= |beats| && AllWired(kind, cs)
    ensures |r| == |cs| && (forall i :: 0 <= i < |cs| ==> SameSetup(r[i], cs[i])) && AllWired(kind, r)
  {
    if k == 0 then cs
    else
      var before := State(kind, cs, beats, k - 1);
      StepKeepsSetup(kind, before, beats[k - 1]);
      Step(kind, before, beats[k - 1]).0
  }

  /** The message of heartbeat `k`. */
  ghost function Message(kind: Kind, cs: seq<Channel>, beats: seq<Beat>, k: nat): Option<seq<Entry>>
    requires k < |beats| && AllWired(kind, cs)
  {
    Step(kind, State(kind, cs, beats, k), beats[k]).1
  }

  /** What a message says about channel `i`. */
  ghost function Lookup(entries: seq<Entry>, i: nat): Option<Channel> {
    if entries == [] then None
    else if entries[0].at == i then Some(entries[0].channel)
    else Lookup(entries[1..], i)
  }

  ghost function Reported(kind: Kind, cs: seq<Channel>, beats: seq<Beat>, k: nat, i: nat): Option<Channel>
    requires k < |beats| && AllWired(kind, cs)
  {
    var m := Message(kind, cs, beats, k);
    if m.None? then None else Lookup(m.value, i)
  }

  /** The value in the last message before heartbeat `k` that mentions channel `i`. */
  ghost function LastReported(kind: Kind, cs: seq<Channel>, beats: seq<Beat>, k: nat, i: nat): Option<real>
    requires k <= |beats| && AllWired(kind, cs)
  {
    if k == 0 then None
    else
      var r := Reported(kind, cs, beats, k - 1, i);
      if r.Some? then Some(r.value.val) else LastReported(kind, cs, beats, k - 1, i)
  }

  /** The sample of channel `i` at heartbeat `k`. */
  ghost function SampleAt(kind: Kind, cs: seq<Channel>, beats: seq<Beat>, k: nat, i: nat): real
    requires k < |beats| && i < |cs| && AllWired(kind, cs)
  {
    Sensed(kind, cs[i], beats[k].sample)
  }

  /** The sample of channel `i` differs from the one before it; before the first there is 0. */
  ghost predicate Changed(kind: Kind, cs: seq<Channel>, beats: seq<Beat>, k: nat, i: nat)
    requires k < |beats| && i < |cs| && AllWired(kind, cs)
  {
    SampleAt(kind, cs, beats, k, i) != if k == 0 then 0.0 else SampleAt(kind, cs, beats, k - 1, i)
  }

  // ----- One step ----------------------------------------------------------

  /** A report mentions exactly the channels that are to be reported, with their contents. */
  lemma {:induction false} LookupInReport(cs: seq<Channel>, at: nat, i: nat)
    requires i < |cs|
    ensures Lookup(Report(cs, at), at + i) == if cs[i].status == Uptare then Some(cs[i]) else None
    decreases |cs|
  {
    var rest := Report(cs[1..], at + 1);
    if i > 0 {
      LookupInReport(cs[1..], at + 1, i - 1);
      assert ([Entry(at, cs[0])] + rest)[1..] == rest;
    } else {
      NotBefore(cs[1..], at + 1, at);
    }
    assert [] + rest == rest;
  }

  lemma {:induction false} NotBefore(cs: seq<Channel>, at: nat, i: nat)
    requires i < at
    ensures Lookup(Report(cs, at), i) == None
    decreases |cs|
  {
    if cs != [] {
      var rest := Report(cs[1..], at + 1);
      NotBefore(cs[1..], at + 1, i);
      assert [] + rest == rest && ([Entry(at, cs[0])] + rest)[1..] == rest;
    }
  }

  lemma SentAt(cs: seq<Channel>, i: nat)
    requires i < |cs|
    ensures |Sent(cs)| == |cs| && Sent(cs)[i] == MarkUsed(cs[i])
  {
  }

  lemma SameSensed(kind: Kind, c: Channel, d: Channel, s: Sample)
    requires SameSetup(c, d) && Wired(kind, d)
    ensures Wired(kind, c) && Sensed(kind, c, s) == Sensed(kind, d, s)
  {
  }

  /** One heartbeat, seen by channel `i`. */
  lemma StepAt(kind: Kind, cs: seq<Channel>, b: Beat, i: nat)
    requires i < |cs| && AllWired(kind, cs)
    ensures var r, m := Step(kind, cs, b), Refresh(cs[i], Sensed(kind, cs[i], b.sample), b.times(i));
            && |r.0| == |cs| && r.0[i] == (if b.ready then MarkUsed(m) else m)
            && (if r.1.None? then None else Lookup(r.1.value, i))
               == if b.ready && m.status == Uptare then Some(m) else None
  {
    MonitorAt(kind, cs, b.sample, b.times);
    var m := Monitor(kind, cs, b.sample, b.times);
    LookupInReport(m, 0, i);
    SentAt(m, i);
    hide Monitor, Sensed, Refresh, Report, Lookup, Sent;
  }

  lemma StepOf(kind: Kind, cs: seq<Channel>, beats: seq<Beat>, k: nat, i: nat)
    requires k < |beats| && i < |cs| && AllWired(kind, cs)
    ensures var c := State(kind, cs, beats, k)[i];
            var m := Refresh(c, SampleAt(kind, cs, beats, k, i), beats[k].times(i));
            && State(kind, cs, beats, k + 1)[i] == (if beats[k].ready then MarkUsed(m) else m)
            && Reported(kind, cs, beats, k, i) == if beats[k].ready && m.status == Uptare then Some(m) else None
  {
    var s := State(kind, cs, beats, k);
    assert SameSetup(s[i], cs[i]);
    StepAt(kind, s, beats[k], i);
    SameSensed(kind, s[i], cs[i], beats[k].sample);
    hide Step, Sensed, Refresh, Lookup, AllWired, MarkUsed;
  }

  /** The cache of a channel holds its last sample. */
  lemma {:induction false} CacheIsLastSample(kind: Kind, cs: seq<Channel>, beats: seq<Beat>, k: nat, i: nat)
    requires k <= |beats| && i < |cs| && Start(kind, cs)
    ensures State(kind, cs, beats, k)[i].val == if k == 0 then 0.0 else SampleAt(kind, cs, beats, k - 1, i)
  {
    if k > 0 {
      StepOf(kind, cs, beats, k - 1, i);
    }
  }

  // ----- Main results ------------------------------------------------------

  /** No update is lost: a channel that is marked as used was last reported with the value that is
      in its cache. */
  lemma {:induction false} NoLostUpdate(kind: Kind, cs: seq<Channel>, beats: seq<Beat>, k: nat, i: nat)
    requires k <= |beats| && i < |cs| && Start(kind, cs)
    ensures var c := State(kind, cs, beats, k)[i];
            && c.status in {Uptare, Used}
            && (c.status == Used ==> LastReported(kind, cs, beats, k, i) == Some(c.val))
    decreases k
  {
    if k > 0 {
      NoLostUpdate(kind, cs, beats, k - 1, i);
      StepOf(kind, cs, beats, k - 1, i);
    }
  }

  /** After a heartbeat with a sender, the last reported value of every channel is its sample. */
  lemma ReadyMeansReported(kind: Kind, cs: seq<Channel>, beats: seq<Beat>, k: nat, i: nat)
    requires k < |beats| && i < |cs| && Start(kind, cs) && beats[k].ready
    ensures LastReported(kind, cs, beats, k + 1, i) == Some(SampleAt(kind, cs, beats, k, i))
    ensures State(kind, cs, beats, k + 1)[i].status == Used
  {
    NoLostUpdate(kind, cs, beats, k, i);
    NoLostUpdate(kind, cs, beats, k + 1, i);
    StepOf(kind, cs, beats, k, i);
  }

  /** Since the last report of channel `i` before heartbeat `k`, if there is one, its sample changed. */
  ghost predicate ChangedSinceReport(kind: Kind, cs: seq<Channel>, beats: seq<Beat>, k: nat, i: nat)
    requires k <= |beats| && i < |cs| && AllWired(kind, cs)
  {
    exists j :: 0 <= j < k && Changed(kind, cs, beats, j, i)
                && forall m :: j <= m < k ==> Reported(kind, cs, beats, m, i).None?
  }

  ghost predicate NeverReported(kind: Kind, cs: seq<Channel>, beats: seq<Beat>, k: nat, i: nat)
    requires k <= |beats| && AllWired(kind, cs)
  {
    forall m :: 0 <= m < k ==> Reported(kind, cs, beats, m, i).None?
  }

  /** A channel is to be reported exactly when it never was, or its sample has changed since. */
  lemma {:induction false} OwedExactly(kind: Kind, cs: seq<Channel>, beats: seq<Beat>, k: nat, i: nat)
    requires k <= |beats| && i < |cs| && Start(kind, cs)
    ensures State(kind, cs, beats, k)[i].status == Uptare
            <==> NeverReported(kind, cs, beats, k, i) || ChangedSinceReport(kind, cs, beats, k, i)
    decreases k
  {
    if k == 0 {
      hide Reported, Changed, AllWired;
    } else {
      hide *;
      OwedExactly(kind, cs, beats, k - 1, i);
      StatusStep(kind, cs, beats, k - 1, i);
      SinceStep(kind, cs, beats, k, i);
      NeverStep(kind, cs, beats, k, i);
    }
  }

  lemma NeverStep(kind: Kind, cs: seq<Channel>, beats: seq<Beat>, k: nat, i: nat)
    requires 0 < k <= |beats| && AllWired(kind, cs)
    ensures NeverReported(kind, cs, beats, k, i)
            <==> Reported(kind, cs, beats, k - 1, i).None? && NeverReported(kind, cs, beats, k - 1, i)
  {
    hide Reported, AllWired;
  }

  /** What a heartbeat does to the status of a channel. */
  lemma StatusStep(kind: Kind, cs: seq<Channel>, beats: seq<Beat>, k: nat, i: nat)
    requires k < |beats| && i < |cs| && Start(kind, cs)
    ensures var owed := State(kind, cs, beats, k)[i].status == Uptare || Changed(kind, cs, beats, k, i);
            && (Reported(kind, cs, beats, k, i).Some? <==> beats[k].ready && owed)
            && (State(kind, cs, beats, k + 1)[i].status == Uptare <==> !beats[k].ready && owed)
  {
    StepOf(kind, cs, beats, k, i);
    NoLostUpdate(kind, cs, beats, k, i);
    CacheIsLastSample(kind, cs, beats, k, i);
    hide State, Reported, AllWired, Fresh, Sensed;
  }

  lemma SinceStep(kind: Kind, cs: seq<Channel>, beats: seq<Beat>, k: nat, i: nat)
    requires 0 < k <= |beats| && i < |cs| && AllWired(kind, cs)
    ensures ChangedSinceReport(kind, cs, beats, k, i)
            <==> Reported(kind, cs, beats, k - 1, i).None?
                 && (Changed(kind, cs, beats, k - 1, i) || ChangedSinceReport(kind, cs, beats, k - 1, i))
  {
    hide Reported, Changed, AllWired;
    if Reported(kind, cs, beats, k - 1, i).None? && ChangedSinceReport(kind, cs, beats, k - 1, i) {
      var j :| 0 <= j < k - 1 && Changed(kind, cs, beats, j, i)
               && forall m :: j <= m < k - 1 ==> Reported(kind, cs, beats, m, i).None?;
      assert forall m :: j <= m < k ==> Reported(kind, cs, beats, m, i).None?;
    }
  }

  /** No report is spurious: a message carries at least one channel, and it mentions a channel exactly
      when the channel never was reported or its sample has changed since it last was. What it
      says is the current sample. */
  lemma NoSpuriousReport(kind: Kind, cs: seq<Channel>, beats: seq<Beat>, k: nat, i: nat)
    requires k < |beats| && i < |cs| && Start(kind, cs)
    ensures var m := Message(kind, cs, beats, k); m.Some? ==> m.value != []
    ensures var r := Reported(kind, cs, beats, k, i);
            && (r.Some? <==> beats[k].ready
                             && (NeverReported(kind, cs, beats, k, i) || Changed(kind, cs, beats, k, i)
                                 || ChangedSinceReport(kind, cs, beats, k, i)))
            && (r.Some? ==> r.value.val == SampleAt(kind, cs, beats, k, i) && SameSetup(r.value, cs[i]))
  {
    var s := State(kind, cs, beats, k);
    StepOf(kind, cs, beats, k, i);
    OwedExactly(kind, cs, beats, k, i);
    CacheIsLastSample(kind, cs, beats, k, i);
    NotEmpty(Monitor(kind, s, beats[k].sample, beats[k].times), 0);
    hide NeverReported, ChangedSinceReport;
  }

  lemma {:induction false} NotEmpty(cs: seq<Channel>, at: nat)
    ensures Report(cs, at) != [] <==> Owed(cs)
    decreases |cs|
  {
    if cs != [] {
      NotEmpty(cs[1..], at + 1);
      assert forall i :: 0 < i < |cs| ==> cs[i] == cs[1..][i - 1];
      assert forall i :: 0 <= i < |cs| - 1 ==> cs[1..][i] == cs[i + 1];
    }
  }

  /** Without a sender nothing is sent and the caches are only refreshed. */
  lemma NotReadyKeepsStatus(kind: Kind, cs: seq<Channel>, beats: seq<Beat>, k: nat, i: nat)
    requires k < |beats| && i < |cs| && Start(kind, cs) && !beats[k].ready
    ensures Message(kind, cs, beats, k).None?
    ensures State(kind, cs, beats, k)[i].status == Uptare ==> State(kind, cs, beats, k + 1)[i].status == Uptare
    ensures State(kind, cs, beats, k + 1)[i].status == State(kind, cs, beats, k)[i].status
            <==> State(kind, cs, beats, k)[i].status == Uptare || !Changed(kind, cs, beats, k, i)
  {
    StepOf(kind, cs, beats, k, i);
    NoLostUpdate(kind, cs, beats, k, i);
    CacheIsLastSample(kind, cs, beats, k, i);
  }

  // ----- What a report shows -----------------------------------------------

  /** The sample of a channel is the current, the voltage or the analogue input of its port, or the
      quantity of its type. */
  lemma SampleIs(kind: Kind, cs: seq<Channel>, beats: seq<Beat>, k: nat, i: nat)
    requires k < |beats| && i < |cs| && AllWired(kind, cs)
    ensures var c, s, x := cs[i], beats[k].sample, SampleAt(kind, cs, beats, k, i);
            && (kind == Cur ==> 1 <= c.io <= 32 && x == s.currentA[c.io - 1])
            && (kind == Vol ==> 1 <= c.io <= 32 && x == s.voltageV[c.io - 1])
            && (kind == Ase || kind == Pse ==> 1 <= c.io <= 32 && x == s.aiValI[c.io - 1])
            && (kind == Env ==>
                  var e := s.env;
                  x == if 2 <= c.valType <= 8
                       then [e.temperature, e.humidity, e.noise, e.pm2_5, e.pm10, e.o2, e.tvoc][c.valType - 2]
                       else -1.0)
  {
    assert Wired(kind, cs[i]);
  }

  /** Heartbeat `j` was the last one before heartbeat `k` that changed the sample of channel `i`. */
  ghost predicate LastChange(kind: Kind, cs: seq<Channel>, beats: seq<Beat>, j: nat, k: nat, i: nat)
    requires k <= |beats| && i < |cs| && AllWired(kind, cs)
  {
    j < k && Changed(kind, cs, beats, j, i) && forall m :: j < m < k ==> !Changed(kind, cs, beats, m, i)
  }

  /** The time of a channel is that of the heartbeat that last changed its sample, however many have
      passed since. */
  lemma {:induction false} TimeOfLastChange(kind: Kind, cs: seq<Channel>, beats: seq<Beat>, j: nat, k: nat, i: nat)
    requires k <= |beats| && i < |cs| && Start(kind, cs) && LastChange(kind, cs, beats, j, k, i)
    ensures State(kind, cs, beats, k)[i].time == beats[j].times(i)
    decreases k
  {
    hide State, Changed;
    StepOf(kind, cs, beats, k - 1, i);
    CacheIsLastSample(kind, cs, beats, k - 1, i);
    ChangedIs(kind, cs, beats, k - 1, i);
    if j < k - 1 {
      TimeOfLastChange(kind, cs, beats, j, k - 1, i);
    }
  }

  lemma ChangedIs(kind: Kind, cs: seq<Channel>, beats: seq<Beat>, k: nat, i: nat)
    requires k < |beats| && i < |cs| && AllWired(kind, cs)
    ensures Changed(kind, cs, beats, k, i)
            <==> SampleAt(kind, cs, beats, k, i) != if k == 0 then 0.0 else SampleAt(kind, cs, beats, k - 1, i)
  {
  }

  /** So a report shows a sample with the time when it was taken. */
  lemma ReportedTime(kind: Kind, cs: seq<Channel>, beats: seq<Beat>, j: nat, k: nat, i: nat)
    requires k < |beats| && i < |cs| && Start(kind, cs) && LastChange(kind, cs, beats, j, k + 1, i)
    requires Reported(kind, cs, beats, k, i).Some?
    ensures var r := Reported(kind, cs, beats, k, i).value;
            && r.val == SampleAt(kind, cs, beats, k, i) == SampleAt(kind, cs, beats, j, i)
            && r.time == beats[j].times(i)
  {
    TimeOfLastChange(kind, cs, beats, j, k + 1, i);
    StepOf(kind, cs, beats, k, i);
    SameSince(kind, cs, beats, j, k, i);
    hide State, Changed, Reported, SampleAt;
  }

  lemma {:induction false} SameSince(kind: Kind, cs: seq<Channel>, beats: seq<Beat>, j: nat, k: nat, i: nat)
    requires j <= k < |beats| && i < |cs| && AllWired(kind, cs)
    requires forall m :: j < m <= k ==> !Changed(kind, cs, beats, m, i)
    ensures SampleAt(kind, cs, beats, k, i) == SampleAt(kind, cs, beats, j, i)
    decreases k
  {
    hide SampleAt, AllWired;
    if j < k {
      ChangedIs(kind, cs, beats, k, i);
      SameSince(kind, cs, beats, j, k - 1, i);
    }
  }
}
