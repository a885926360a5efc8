/** The channels of the hardware and the caches with their last samples. */
module Hardware {
  import opened Bytes
  import opened Objects

  // ----- Values ------------------------------------------------------------

  /** `hw_dev_kind_e`. */
  datatype Kind = Col | Cur | Vol | Env | Ase | Pse | Tbd

  /** `hw_vkind_values`: COL, CUR, VOL, ENV, ASE, PSE and TBD. */
  const KIND_NAMES: seq<(Kind, Text)> :=
    [(Col, [67, 79, 76]), (Cur, [67, 85, 82]), (Vol, [86, 79, 76]), (Env, [69, 78, 86]),
     (Ase, [65, 83, 69]), (Pse, [80, 83, 69]), (Tbd, [84, 66, 68])]

  /** `JSON_HW_ENV_INS_NUM`. */
  const ENV_CHANNELS: nat := 7

  /** What the shared memory says about the board: the fields of `RTU_INFO` that are read. */
  datatype Board = Board(model: Text, currentChNum: nat, voltageChNum: nat, aiChNumI: nat)

  /** Those of `hw_data_status_e` that are ever assigned to a cache, and `HW_DATA_KEEP`. */
  datatype Status = Uptare | Keep | Used

  /** `hw_dev_type_e`: the numbers of the first types. */
  const TYPE_CUR := 0
  const TYPE_VOL := 1
  const TYPE_TEMP := 2

  /** The 32 ports of a kind, `AI_NUM_MAX`. */
  type Ports = s: seq<real> | |s| == 32 witness seq(32, _ => 0.0)

  /** What the shared memory holds when it is read: `SHM_DATA_RO`. */
  datatype Sample = Sample(currentA: Ports, voltageV: Ports, aiValI: Ports, env: Environment)

  datatype Environment =
    Environment(temperature: real, humidity: real, noise: real, pm2_5: real, pm10: real, o2: real, tvoc: real)

  /** The contents of a `hw_cache_t`. */
  datatype Channel = Channel(io: nat, kks: Text, ref: Text, valType: nat, val: real, time: Text, status: Status)

  /** `get_env_value_by_vtype`. */
  function EnvValue(valType: nat, e: Environment): real {
    match valType
    case 2 => e.temperature
    case 3 => e.humidity
    case 4 => e.noise
    case 5 => e.pm2_5
    case 6 => e.pm10
    case 7 => e.o2
    case 8 => e.tvoc
    case _ => -1.0
  }

  /** The channel can be sampled: its kind is known, and a numbered port is one of the 32. */
  predicate Wired(kind: Kind, c: Channel) {
    kind != Col && kind != Tbd && (kind != Env ==> 1 <= c.io <= 32)
  }

  /** What `get_gpio_val` reads for a channel. */
  function Sensed(kind: Kind, c: Channel, s: Sample): real
    requires Wired(kind, c)
  {
    match kind
    case Cur => s.currentA[c.io - 1]
    case Vol => s.voltageV[c.io - 1]
    case Env => EnvValue(c.valType, s.env)
    case Ase => s.aiValI[c.io - 1]
    case Pse => s.aiValI[c.io - 1]
    case _ => 0.0
  }

  /** One turn of the loop of `hw_param_monitor`. */
  function Refresh(c: Channel, sensed: real, now: Text): (r: Channel)
    ensures SameSetup(r, c) && r.val == sensed
  {
    if c.val == sensed then c else c.(val := sensed, time := now, status := Uptare)
  }

  ghost predicate AllWired(kind: Kind, cs: seq<Channel>) {
    forall i :: 0 <= i < |cs| ==> Wired(kind, cs[i])
  }

  /** The configured part of a channel. */
  ghost predicate SameSetup(c: Channel, d: Channel) {
    c.io == d.io && c.kks == d.kks && c.ref == d.ref && c.valType == d.valType
  }

  /** `hw_param_monitor` on the contents of the caches; `times` is the clock. */
  function Monitor(kind: Kind, cs: seq<Channel>, s: Sample, times: nat -> Text): seq<Channel>
    requires AllWired(kind, cs)
  {
    seq(|cs|, i requires 0 <= i < |cs| => Refresh(cs[i], Sensed(kind, cs[i], s), times(i)))
  }

  /** Some channel is to be reported. */
  predicate Owed(cs: seq<Channel>) {
    exists i :: 0 <= i < |cs| && cs[i].status == Uptare
  }

  // ----- The caches --------------------------------------------------------

  /** `hw_cache_t`. */
  class Cache {
    var io: nat
    var kks: Text
    var ref: Text
    var valType: nat
    var val: real
    var time: Text
    var status: Status

    /** As `calloc` leaves it. */
    constructor ()
      ensures View() == Channel(0, [], [], 0, 0.0, [], Uptare)
    {
      io, kks, ref, valType, val, time, status := 0, [], [], 0, 0.0, [], Uptare;
    }

    function View(): Channel
      reads this
    {
      Channel(io, kks, ref, valType, val, time, status)
    }
  }

  ghost predicate Apart(cs: seq<Cache>) {
    forall i, j :: 0 <= i < j < |cs| ==> cs[i] != cs[j]
  }

  ghost function Views(cs: seq<Cache>): (r: seq<Channel>)
    reads cs
    ensures |r| == |cs| && forall i :: 0 <= i < |cs| ==> r[i] == cs[i].View()
  {
    if cs == [] then [] else [cs[0].View()] + Views(cs[1..])
  }

  lemma ViewsAre(cs: seq<Cache>, vs: seq<Channel>)
    requires |vs| == |cs| && forall i :: 0 <= i < |cs| ==> vs[i] == cs[i].View()
    ensures Views(cs) == vs
  {
  }

  /** The first `number` pointers lead to the caches `cs`, up to the first null pointer. */
  ghost predicate Scans(pData: array<Cache?>, number: nat, cs: seq<Cache>)
    reads pData
  {
    && |cs| <= number <= pData.Length && Apart(cs) && (forall i :: 0 <= i < |cs| ==> pData[i] == cs[i])
    && (|cs| < number ==> pData[|cs|] == null)
  }

  /** `objects_new_2arr`: `n` zero-filled caches, and an array of pointers to them with a null
      pointer at its end. */
  method ObjectsNew2Arr(n: nat) returns (pptr: array<Cache?>, ghost cs: seq<Cache>)
    ensures fresh(pptr) && fresh(cs) && pptr.Length == n + 1 && pptr[n] == null
    ensures |cs| == n && Scans(pptr, n, cs)
    ensures forall i :: 0 <= i < n ==> cs[i].View() == Channel(0, [], [], 0, 0.0, [], Uptare)
  {
    pptr := new Cache?[n + 1](_ => null);
    cs := [];
    var i := 0;
    while i < n
      invariant i == |cs| <= n && fresh(cs) && Scans(pptr, n, cs) && forall k :: i <= k <= n ==> pptr[k] == null
      invariant forall k :: 0 <= k < i ==> cs[k].View() == Channel(0, [], [], 0, 0.0, [], Uptare)
    {
      var c := new Cache();
      pptr[i] := c;
      cs := cs + [c];
      i := i + 1;
    }
  }

  /** `hw_used_cache`. */
  method UsedCache(data: Cache) returns (r: int)
    modifies data`status
    ensures r == 0 && data.View() == old(data.View()).(status := Used)
  {
    data.status := Used;
    r := 0;
  }

  /** `hw_look_cache_status`: what the scan finds first, a channel to be reported or a null pointer. */
  method LookCacheStatus(pData: array?<Cache?>, number: nat, ghost cs: seq<Cache>) returns (r: int)
    requires pData != null ==> Scans(pData, number, cs)
    ensures pData == null ==> r == -1
    ensures pData != null ==>
              && (r == 0 <==> Owed(Views(cs)))
              && (r == -1 <==> |cs| < number && !Owed(Views(cs)))
              && (r == 1 <==> |cs| == number && !Owed(Views(cs)))
  {
    if pData == null {
      return -1;
    }
    for i := 0 to number
      invariant i <= |cs| && forall k :: 0 <= k < i ==> cs[k].status != Uptare
    {
      var pd := pData[i];
      if pd == null {
        return -1;
      }
      if pd.status == Uptare {
        assert Views(cs)[i].status == Uptare;
        return 0;
      }
    }
    return 1;
  }

  /** `get_gpio_val`: the value goes to `*val`, which stays as it is for an unknown kind. */
  method GetGpioVal(val0: real, kind: Kind, valType: nat, gpio: nat, s: Sample) returns (r: int, val: real)
    requires kind in {Cur, Vol, Ase, Pse} ==> 1 <= gpio <= 32
    ensures r == if kind == Col || kind == Tbd then -1 else 0
    ensures r == -1 ==> val == val0
    ensures kind == Cur ==> val == s.currentA[gpio - 1]
    ensures kind == Vol ==> val == s.voltageV[gpio - 1]
    ensures kind == Ase || kind == Pse ==> val == s.aiValI[gpio - 1]
    ensures kind == Env ==>
              var e := s.env;
              val == if 2 <= valType <= 8
                     then [e.temperature, e.humidity, e.noise, e.pm2_5, e.pm10, e.o2, e.tvoc][valType - 2]
                     else -1.0
    ensures forall c: Channel {:trigger Sensed(kind, c, s)} ::
              r == 0 && c.io == gpio && c.valType == valType ==> val == Sensed(kind, c, s)
  {
    r, val := 0, val0;
    match kind {
      case Cur => val := s.currentA[gpio - 1];
      case Vol => val := s.voltageV[gpio - 1];
      case Ase => val := s.aiValI[gpio - 1];
      case Pse => val := s.aiValI[gpio - 1];
      case Env => val := EnvValue(valType, s.env);
      case Col => r := -1;
      case Tbd => r := -1;
    }
  }

  // ----- The hardware ------------------------------------------------------

  /** The name of its kind that a board carries: the first three bytes of its model. */
  function KindName(model: Text): Text {
    if |model| <= 3 then model else model[..3]
  }

  /** The board has kind `k`. The names of the first six kinds are compared without regard to case;
      all other boards are of the last kind. */
  ghost predicate HasKind(model: Text, k: Kind) {
    forall i :: 0 <= i < 6 ==> (k == KIND_NAMES[i].0 <==> Fold(KindName(model)) == Fold(KIND_NAMES[i].1))
  }

  /** That is, in terms of the model. */
  lemma HasKindIs(model: Text, k: Kind)
    requires HasKind(model, k)
    ensures var name := if |model| <= 3 then model else model[..3];
            && (k == Col <==> AlikeTexts(name, Ascii("COL"))) && (k == Cur <==> AlikeTexts(name, Ascii("CUR")))
            && (k == Vol <==> AlikeTexts(name, Ascii("VOL"))) && (k == Env <==> AlikeTexts(name, Ascii("ENV")))
            && (k == Ase <==> AlikeTexts(name, Ascii("ASE"))) && (k == Pse <==> AlikeTexts(name, Ascii("PSE")))
  {
    KindNamesAre();
    HasKindAt(model, k, 0);
    HasKindAt(model, k, 1);
    HasKindAt(model, k, 2);
    HasKindAt(model, k, 3);
    HasKindAt(model, k, 4);
    HasKindAt(model, k, 5);
    hide AlikeTexts, Ascii;
  }

  lemma HasKindAt(model: Text, k: Kind, i: nat)
    requires HasKind(model, k) && i < 6
    ensures k == KIND_NAMES[i].0 <==> AlikeTexts(if |model| <= 3 then model else model[..3], KIND_NAMES[i].1)
  {
    FoldIs(KindName(model), KIND_NAMES[i].1);
    hide Fold, AlikeTexts;
  }

  lemma KindNamesAre()
    ensures KIND_NAMES[0] == (Col, Ascii("COL")) && KIND_NAMES[1] == (Cur, Ascii("CUR"))
    ensures KIND_NAMES[2] == (Vol, Ascii("VOL")) && KIND_NAMES[3] == (Env, Ascii("ENV"))
    ensures KIND_NAMES[4] == (Ase, Ascii("ASE")) && KIND_NAMES[5] == (Pse, Ascii("PSE"))
  {
    assert KIND_NAMES[0].1 == Ascii("COL");
    assert KIND_NAMES[1].1 == Ascii("CUR");
    assert KIND_NAMES[2].1 == Ascii("VOL");
    assert KIND_NAMES[3].1 == Ascii("ENV");
    assert KIND_NAMES[4].1 == Ascii("ASE");
    assert KIND_NAMES[5].1 == Ascii("PSE");
  }

  lemma KindNamesDiffer(i: nat, j: nat)
    requires i < j < 7
    ensures KIND_NAMES[i].0 != KIND_NAMES[j].0 && Fold(KIND_NAMES[i].1) != Fold(KIND_NAMES[j].1)
  {
    var a, b := KIND_NAMES[i].1, KIND_NAMES[j].1;
    assert Fold(a)[0] != Fold(b)[0] || Fold(a)[1] != Fold(b)[1] || Fold(a)[2] != Fold(b)[2];
  }

  /** `_hw_kind_init` and `get_device_kind_by_name`. */
  method KindByName(model: Text) returns (k: Kind)
    ensures HasKind(model, k)
  {
    var name := KindName(model);
    for i := 0 to |KIND_NAMES|
      invariant forall j :: 0 <= j < i ==> Fold(name) != Fold(KIND_NAMES[j].1)
    {
      if Fold(name) == Fold(KIND_NAMES[i].1) {
        forall j | i < j < 7 ensures KIND_NAMES[i].0 != KIND_NAMES[j].0 && Fold(name) != Fold(KIND_NAMES[j].1) {
          KindNamesDiffer(i, j);
        }
        forall j | 0 <= j < i ensures KIND_NAMES[i].0 != KIND_NAMES[j].0 {
          KindNamesDiffer(j, i);
        }
        return KIND_NAMES[i].0;
      }
    }
    return Tbd;
  }

  /** `hw_get_channel_sum`. */
  function ChannelSum(kind: Kind, board: Board): nat {
    match kind
    case Cur => board.currentChNum
    case Vol => board.voltageChNum
    case Env => ENV_CHANNELS
    case Ase => board.aiChNumI
    case Pse => board.aiChNumI
    case _ => 1
  }

  /** `class hardware`. */
  class Device {
    var kind: Kind
    var nChNum: nat
    var pCache: array<Cache?>
    var name: Text
    var id: Text
    var terminal: Text
    var time: Text
    ghost var caches: seq<Cache>

    ghost predicate Valid()
      reads this, pCache
    {
      nChNum == |caches| && Scans(pCache, nChNum, caches)
    }

    /** `hw_info_init`: the kind, its name, which is reported as the terminal, and the number of
        channels follow from the shared memory. */
    constructor (board: Board)
      ensures Valid() && fresh(pCache) && fresh(caches)
      ensures HasKind(board.model, kind) && nChNum == ChannelSum(kind, board)
      ensures terminal == KindName(board.model) && name == [] && id == [] && time == []
      ensures kind == Cur ==> nChNum == board.currentChNum
      ensures kind == Vol ==> nChNum == board.voltageChNum
      ensures kind == Env ==> nChNum == 7
      ensures kind == Ase || kind == Pse ==> nChNum == board.aiChNumI
      ensures kind == Col || kind == Tbd ==> nChNum == 1
      ensures Views(caches) == Initial(kind, nChNum)
    {
      var k := KindByName(board.model);
      var n := ChannelSum(k, board);
      kind, terminal, nChNum, name, id, time := k, KindName(board.model), n, [], [], [];
      var pptr, cs := ObjectsNew2Arr(n);
      pCache, caches := pptr, cs;
      new;
      hide Initial, Views;
      InitTypes(pptr, n, k, cs);
    }

    /** `hw_param_monitor`: a sample that differs from the cache goes there, and the channel is to be
        reported. */
    method ParamMonitor(s: Sample, now: Text, times: nat -> Text)
      requires Valid() && AllWired(kind, Views(caches))
      modifies `time, caches
      ensures Valid() && time == now && Views(caches) == Monitor(kind, old(Views(caches)), s, times)
    {
      time := now;
      MonitorAll(kind, pCache, nChNum, s, times, caches);
    }
  }

  /** The channels before they are configured: zero-filled, but for the type. */
  ghost function Initial(kind: Kind, n: nat): seq<Channel> {
    seq(n, i requires 0 <= i < n => Channel(0, [], [], InitialType(kind, i), 0.0, [], Uptare))
  }

  /** Type 1 stands for a voltage, 2 and up for the quantities of an environment, and 0 for a current and
      everything else. */
  lemma InitialIs(kind: Kind, n: nat, i: nat)
    requires i < n
    ensures |Initial(kind, n)| == n
    ensures Initial(kind, n)[i]
         == Channel(0, [], [], if kind == Vol then 1 else if kind == Env then 2 + i else 0, 0.0, [], Uptare)
  {
  }

  /** As initialised, channel `i` of an environment device samples the `i`th quantity, and any
      further channel nothing but -1. */
  lemma EnvironmentInOrder(n: nat, i: nat, s: Sample)
    requires i < n
    ensures var e := s.env;
            Sensed(Env, Initial(Env, n)[i], s)
            == if i < 7 then [e.temperature, e.humidity, e.noise, e.pm2_5, e.pm10, e.o2, e.tvoc][i] else -1.0
  {
  }

  /** The loop of `hw_info_init`. */
  method InitTypes(pCache: array<Cache?>, n: nat, kind: Kind, ghost cs: seq<Cache>)
    requires |cs| == n && Scans(pCache, n, cs)
    requires forall i :: 0 <= i < n ==> cs[i].View() == Channel(0, [], [], 0, 0.0, [], Uptare)
    modifies cs
    ensures Views(cs) == Initial(kind, n)
  {
    for i := 0 to n
      invariant forall k :: 0 <= k < i ==> cs[k].View() == Channel(0, [], [], InitialType(kind, k), 0.0, [], Uptare)
      invariant forall k :: i <= k < n ==> cs[k].View() == Channel(0, [], [], 0, 0.0, [], Uptare)
    {
      var pd := pCache[i];
      if kind == Cur {
        pd.valType := TYPE_CUR;
      } else if kind == Vol {
        pd.valType := TYPE_VOL;
      } else if kind == Env {
        pd.valType := TYPE_TEMP + i;
      }
    }
    ViewsAre(cs, Initial(kind, n));
  }

  /** The loop of `hw_param_monitor`. */
  method MonitorAll(kind: Kind, pCache: array<Cache?>, nChNum: nat, s: Sample, times: nat -> Text, ghost cs: seq<Cache>)
    requires nChNum == |cs| && Scans(pCache, nChNum, cs) && AllWired(kind, Views(cs))
    modifies cs
    ensures Views(cs) == Monitor(kind, old(Views(cs)), s, times)
  {
    hide Refresh, Sensed, AllWired, Wired, Monitor, Views;
    ghost var was, mon := Views(cs), Monitor(kind, Views(cs), s, times);
    MonitorAt(kind, was, s, times);
    for i := 0 to nChNum
      invariant forall k :: 0 <= k < i ==> cs[k].View() == mon[k]
      invariant forall k :: i <= k < nChNum ==> cs[k].View() == was[k]
    {
      Watch(pCache[i], kind, s, times(i));
    }
    ViewsAre(cs, mon);
  }

  lemma MonitorAt(kind: Kind, cs: seq<Channel>, s: Sample, times: nat -> Text)
    requires AllWired(kind, cs)
    ensures |Monitor(kind, cs, s, times)| == |cs|
    ensures forall i :: 0 <= i < |cs| ==>
              Wired(kind, cs[i]) && Monitor(kind, cs, s, times)[i] == Refresh(cs[i], Sensed(kind, cs[i], s), times(i))
  {
  }

  /** A value that changes is stamped with its time and to be reported, and one that stays is left alone. */
  lemma MonitorStamps(kind: Kind, cs: seq<Channel>, s: Sample, times: nat -> Text, i: nat)
    requires AllWired(kind, cs) && i < |cs|
    ensures |Monitor(kind, cs, s, times)| == |cs|
    ensures var c, r := cs[i], Monitor(kind, cs, s, times)[i];
            if r.val == c.val then r == c
            else SameSetup(r, c) && r.time == times(i) && r.status == Uptare
  {
    MonitorAt(kind, cs, s, times);
    hide Sensed, Monitor;
  }

  /** The body of the loop of `hw_param_monitor`. */
  method Watch(pd: Cache, kind: Kind, s: Sample, now: Text)
    requires Wired(kind, pd.View())
    modifies pd
    ensures pd.View() == Refresh(old(pd.View()), Sensed(kind, old(pd.View()), s), now)
  {
    var r, rdata := GetGpioVal(0.0, kind, pd.valType, pd.io, s);
    assert rdata == Sensed(kind, pd.View(), s);
    if pd.val == rdata {
      return;
    }
    pd.val := rdata;
    pd.time := now;
    pd.status := Uptare;
  }

  /** The type that `hw_info_init` gives to a channel. */
  function InitialType(kind: Kind, i: nat): nat {
    match kind
    case Vol => TYPE_VOL
    case Env => TYPE_TEMP + i
    case _ => TYPE_CUR
  }
}
