/** What the session controller emits: transport actions (plus the health-store save) and log
    entries, and the pure descriptions of what negotiation, a stats update and a value update
    emit, against which the controller's methods are proved. */
module SessionEffects {
  import opened MiProtocol
  import opened PayloadDecoder

  /** One request to the Bluetooth stack, or to the health store. */
  datatype Action =
    | Scan
    | StopScan
    | Connect(peripheral: Peripheral)
    | CancelConnection(peripheral: Peripheral)
    | DiscoverServices(peripheral: Peripheral)
    | Read(peripheral: Peripheral, characteristic: Characteristic)
    | Write(peripheral: Peripheral, characteristic: Characteristic, payload: Payload, withResponse: bool)
    | SetNotify(peripheral: Peripheral, characteristic: Characteristic, enabled: bool)
    | SaveHeartRate(bpm: byte)

  /** `log`, `specialLog` and `errorLog`. */
  datatype Channel = Normal | Special | Error

  /** The operation an error entry refers to. */
  datatype Operation =
    | DisconnectOp
    | UpdateStatsOp
    | StartMonitoringOp
    | StopMonitoringOp
    | MeasureOp
    | HighAlertOp
    | MildAlertOp
    | UnsetAlertOp

  /** What a log entry is about; its wording and emoji are not modelled. */
  datatype Topic =
    | BluetoothState(poweredOn: bool)
    | PeripheralFound(name: string)
    | ConnectedTo(name: string)
    | ConnectFailed(name: string)
    | LinkDropped(withError: bool)
    | StatsUpdate
    | MonitoringRestarted
    | MonitoringStopped
    | SingleMeasurement
    | AlertSet(mode: AlertMode)
    | Reading(reading: Decoded)
      /** "Mi Band not discovered!" */
    | NotDiscovered(op: Operation)
      /** "Invalid setup!" */
    | InvalidSetup(op: Operation)

  datatype LogEntry = LogEntry(channel: Channel, topic: Topic)

  /** What one event contributes to the log and to the action trace. */
  datatype Effects = Effects(logs: seq<LogEntry>, actions: seq<Action>)

  /** The characteristics read, in order, by the actions of a trace. */
  function ReadTargets(trace: seq<Action>): (r: seq<Characteristic>)
    ensures (forall k :: 0 <= k < |trace| ==> !trace[k].Read?) <==> r == []
  {
    if trace == [] then []
    else
      var last := trace[|trace| - 1];
      ReadTargets(trace[..|trace| - 1]) + (if last.Read? then [last.characteristic] else [])
  }

  /** The characteristics whose notifications a trace switches on, in order. */
  function NotifyTargets(trace: seq<Action>): (r: seq<Characteristic>)
    ensures (forall k :: 0 <= k < |trace| ==> !(trace[k].SetNotify? && trace[k].enabled)) <==> r == []
  {
    if trace == [] then []
    else
      var last := trace[|trace| - 1];
      NotifyTargets(trace[..|trace| - 1])
        + (if last.SetNotify? && last.enabled then [last.characteristic] else [])
  }

  lemma {:induction false} TargetsAppend(a: seq<Action>, b: seq<Action>)
    ensures ReadTargets(a + b) == ReadTargets(a) + ReadTargets(b)
    ensures NotifyTargets(a + b) == NotifyTargets(a) + NotifyTargets(b)
  {
    if b == [] {
      assert a + b == a;
    } else {
      var n := |b| - 1;
      assert (a + b)[..|a + b| - 1] == a + b[..n];
      assert (a + b)[|a + b| - 1] == b[n];
      TargetsAppend(a, b[..n]);
    }
  }

  // ---------------------------------------------------------------------------------------
  // updateStats

  /** One read of `p` per characteristic, in list order: the body of `updateStats`. */
  function ReadsOf(p: Peripheral, cs: seq<Characteristic>): (r: seq<Action>)
    ensures |r| == |cs|
    ensures forall i :: 0 <= i < |cs| ==> r[i] == Read(p, cs[i])
  {
    if cs == [] then [] else ReadsOf(p, cs[..|cs| - 1]) + [Read(p, cs[|cs| - 1])]
  }

  /** A stats update reads exactly the polled list, each element once, and nothing else. */
  lemma {:induction false} ReadsOfTargets(p: Peripheral, cs: seq<Characteristic>)
    ensures ReadTargets(ReadsOf(p, cs)) == cs
    ensures NotifyTargets(ReadsOf(p, cs)) == []
  {
    if cs != [] {
      var n := |cs| - 1;
      var r := ReadsOf(p, cs);
      assert r[..|r| - 1] == ReadsOf(p, cs[..n]);
      ReadsOfTargets(p, cs[..n]);
      assert cs[..n] + [cs[n]] == cs;
    }
  }

  // ---------------------------------------------------------------------------------------
  // didDiscoverCharacteristicsFor

  /** What negotiation does for a single characteristic with the trace: a read for a polled
      identity and then a subscription for a subscribed one. */
  function CharActions(catalog: Catalog, p: Peripheral, c: Characteristic): (r: seq<Action>)
    ensures Identify(catalog, c.uuid) == Some(DateTime) || Identify(catalog, c.uuid) == Some(Battery) ==> r == [Read(p, c)]
    ensures Identify(catalog, c.uuid) == Some(Activity) ==> r == [Read(p, c), SetNotify(p, c, true)]
    ensures Identify(catalog, c.uuid) == Some(HeartRateMeasurement) ==> r == [SetNotify(p, c, true)]
    ensures (|| Identify(catalog, c.uuid).None?
             || Identify(catalog, c.uuid) == Some(HeartRateControlPoint)
             || Identify(catalog, c.uuid) == Some(Alert)) ==> r == []
  {
    match Identify(catalog, c.uuid)
    case None => []
    case Some(id) =>
      (if id in UPDATABLE_IDS then [Read(p, c)] else [])
        + (if id in MONITORED_IDS then [SetNotify(p, c, true)] else [])
  }

  /** The trace negotiation appends for a list of characteristics, in list order. */
  function NegotiationActions(catalog: Catalog, p: Peripheral, cs: seq<Characteristic>): (r: seq<Action>)
  {
    if cs == [] then []
    else NegotiationActions(catalog, p, cs[..|cs| - 1]) + CharActions(catalog, p, cs[|cs| - 1])
  }

  /** Every action of `trace` is a read or a subscription on `p`. */
  predicate OnlyReadsAndSubscribes(p: Peripheral, trace: seq<Action>)
  {
    forall k :: 0 <= k < |trace| ==>
      (trace[k].Read? || (trace[k].SetNotify? && trace[k].enabled)) && trace[k].peripheral == p
  }

  /** Negotiation only reads and subscribes, and only on the device whose services were found;
      it never writes, unsubscribes or touches another device. */
  lemma {:induction false} NegotiationOnlyReadsAndSubscribes(
    catalog: Catalog, p: Peripheral, cs: seq<Characteristic>)
    ensures OnlyReadsAndSubscribes(p, NegotiationActions(catalog, p, cs))
  {
    if cs != [] {
      var n := |cs| - 1;
      var prefix := NegotiationActions(catalog, p, cs[..n]);
      var last := CharActions(catalog, p, cs[n]);
      NegotiationOnlyReadsAndSubscribes(catalog, p, cs[..n]);
      assert OnlyReadsAndSubscribes(p, last);
      assert NegotiationActions(catalog, p, cs) == prefix + last;
      forall k | 0 <= k < |prefix + last|
        ensures ((prefix + last)[k].Read? || ((prefix + last)[k].SetNotify? && (prefix + last)[k].enabled))
          && (prefix + last)[k].peripheral == p
      {
        if k >= |prefix| {
          assert (prefix + last)[k] == last[k - |prefix|];
        }
      }
    }
  }

  /** The characteristics negotiation appends to the polled list: the polled ones, in order. */
  function Updatables(catalog: Catalog, cs: seq<Characteristic>): (r: seq<Characteristic>)
    ensures |r| <= |cs|
    ensures forall k :: 0 <= k < |r| ==> IsUpdatable(catalog, r[k])
  {
    if cs == [] then []
    else
      var c := cs[|cs| - 1];
      Updatables(catalog, cs[..|cs| - 1]) + (if IsUpdatable(catalog, c) then [c] else [])
  }

  /** The subscribed characteristics of a list, in order. */
  function Monitored(catalog: Catalog, cs: seq<Characteristic>): (r: seq<Characteristic>)
    ensures |r| <= |cs|
    ensures forall k :: 0 <= k < |r| ==> IsMonitored(catalog, r[k])
  {
    if cs == [] then []
    else
      var c := cs[|cs| - 1];
      Monitored(catalog, cs[..|cs| - 1]) + (if IsMonitored(catalog, c) then [c] else [])
  }

  /** A cached reference after negotiation: the last characteristic of the list with identity
      `id`, or the reference held before if there is none. */
  function LastSeen(catalog: Catalog, cs: seq<Characteristic>, id: CharID, prev: Option<Characteristic>)
    : (r: Option<Characteristic>)
  {
    if cs == [] then prev
    else if Identify(catalog, cs[|cs| - 1].uuid) == Some(id) then Some(cs[|cs| - 1])
    else LastSeen(catalog, cs[..|cs| - 1], id, prev)
  }

  /** The polled list negotiation builds holds exactly the polled characteristics of the
      discovered list. */
  lemma {:induction false} UpdatablesFilter(catalog: Catalog, cs: seq<Characteristic>)
    ensures forall c :: c in Updatables(catalog, cs) <==> c in cs && IsUpdatable(catalog, c)
  {
    if cs != [] {
      var n := |cs| - 1;
      UpdatablesFilter(catalog, cs[..n]);
      assert cs == cs[..n] + [cs[n]];
    }
  }

  /** The subscribed characteristics are exactly the monitored ones of the discovered list. */
  lemma {:induction false} MonitoredFilter(catalog: Catalog, cs: seq<Characteristic>)
    ensures forall c :: c in Monitored(catalog, cs) <==> c in cs && IsMonitored(catalog, c)
  {
    if cs != [] {
      var n := |cs| - 1;
      MonitoredFilter(catalog, cs[..n]);
      assert cs == cs[..n] + [cs[n]];
    }
  }

  /** A cached reference is either the one held before negotiation or a discovered
      characteristic with the right identity. */
  lemma {:induction false} LastSeenHasIdentity(
    catalog: Catalog, cs: seq<Characteristic>, id: CharID, prev: Option<Characteristic>)
    ensures var r := LastSeen(catalog, cs, id, prev);
      r == prev || (r.Some? && r.value in cs && Identify(catalog, r.value.uuid) == Some(id))
  {
    if cs != [] {
      var n := |cs| - 1;
      LastSeenHasIdentity(catalog, cs[..n], id, prev);
      assert cs == cs[..n] + [cs[n]];
    }
  }

  /** The cached reference is the last characteristic that has the identity, and the one held
      before survives a list without any. */
  lemma {:induction false} LastSeenIsLast(
    catalog: Catalog, cs: seq<Characteristic>, id: CharID, prev: Option<Characteristic>, i: nat)
    requires i < |cs| && Identify(catalog, cs[i].uuid) == Some(id)
    requires forall j :: i < j < |cs| ==> Identify(catalog, cs[j].uuid) != Some(id)
    ensures LastSeen(catalog, cs, id, prev) == Some(cs[i])
  {
    var n := |cs| - 1;
    if i < n {
      assert Identify(catalog, cs[n].uuid) != Some(id);
      LastSeenIsLast(catalog, cs[..n], id, prev, i);
    }
  }

  lemma {:induction false} LastSeenKeepsPrevious(
    catalog: Catalog, cs: seq<Characteristic>, id: CharID, prev: Option<Characteristic>)
    requires forall j :: 0 <= j < |cs| ==> Identify(catalog, cs[j].uuid) != Some(id)
    ensures LastSeen(catalog, cs, id, prev) == prev
  {
    if cs != [] {
      var n := |cs| - 1;
      assert Identify(catalog, cs[n].uuid) != Some(id);
      LastSeenKeepsPrevious(catalog, cs[..n], id, prev);
    }
  }

  /** A single characteristic is read when it is polled and subscribed when it is monitored. */
  lemma CharTargets(catalog: Catalog, p: Peripheral, c: Characteristic)
    ensures ReadTargets(CharActions(catalog, p, c)) == if IsUpdatable(catalog, c) then [c] else []
    ensures NotifyTargets(CharActions(catalog, p, c)) == if IsMonitored(catalog, c) then [c] else []
  {
    var r := CharActions(catalog, p, c);
    if |r| == 2 {
      assert r[..1] == [Read(p, c)];
      assert [Read(p, c)][..0] == [];
    } else if |r| == 1 {
      assert r[..0] == [];
    }
  }

  /** Negotiation reads exactly the polled characteristics, once each and in list order, and
      subscribes to exactly the monitored ones, in list order. */
  lemma {:induction false} NegotiationTargets(catalog: Catalog, p: Peripheral, cs: seq<Characteristic>)
    ensures ReadTargets(NegotiationActions(catalog, p, cs)) == Updatables(catalog, cs)
    ensures NotifyTargets(NegotiationActions(catalog, p, cs)) == Monitored(catalog, cs)
  {
    if cs != [] {
      var n := |cs| - 1;
      NegotiationTargets(catalog, p, cs[..n]);
      TargetsAppend(NegotiationActions(catalog, p, cs[..n]), CharActions(catalog, p, cs[n]));
      CharTargets(catalog, p, cs[n]);
    }
  }

  /** Negotiating one more characteristic extends each result by that characteristic's share,
      whatever the trace and polled list were before negotiation began. */
  lemma NegotiationStep(
    catalog: Catalog, p: Peripheral, cs: seq<Characteristic>, i: nat,
    trace0: seq<Action>, polled0: seq<Characteristic>, id: CharID, prev: Option<Characteristic>)
    requires i < |cs|
    ensures trace0 + NegotiationActions(catalog, p, cs[..i + 1])
         == trace0 + NegotiationActions(catalog, p, cs[..i]) + CharActions(catalog, p, cs[i])
    ensures polled0 + Updatables(catalog, cs[..i + 1])
         == polled0 + Updatables(catalog, cs[..i]) + Updatables(catalog, [cs[i]])
    ensures LastSeen(catalog, cs[..i + 1], id, prev)
         == LastSeen(catalog, [cs[i]], id, LastSeen(catalog, cs[..i], id, prev))
  {
    assert cs[..i + 1][..i] == cs[..i];
    assert cs[..i + 1] == cs[..i] + [cs[i]];
    UpdatablesAppend(catalog, cs[..i], [cs[i]]);
    LastSeenAppend(catalog, cs[..i], [cs[i]], id, prev);
  }

  lemma {:induction false} NegotiationActionsAppend(
    catalog: Catalog, p: Peripheral, a: seq<Characteristic>, b: seq<Characteristic>)
    ensures NegotiationActions(catalog, p, a + b)
         == NegotiationActions(catalog, p, a) + NegotiationActions(catalog, p, b)
  {
    if b == [] {
      assert a + b == a;
    } else {
      var n := |b| - 1;
      var last := CharActions(catalog, p, b[n]);
      assert (a + b)[..|a + b| - 1] == a + b[..n];
      assert (a + b)[|a + b| - 1] == b[n];
      NegotiationActionsAppend(catalog, p, a, b[..n]);
      calc {
        NegotiationActions(catalog, p, a + b);
        NegotiationActions(catalog, p, a + b[..n]) + last;
        (NegotiationActions(catalog, p, a) + NegotiationActions(catalog, p, b[..n])) + last;
        NegotiationActions(catalog, p, a) + (NegotiationActions(catalog, p, b[..n]) + last);
        NegotiationActions(catalog, p, a) + NegotiationActions(catalog, p, b);
      }
    }
  }

  lemma {:induction false} UpdatablesAppend(catalog: Catalog, a: seq<Characteristic>, b: seq<Characteristic>)
    ensures Updatables(catalog, a + b) == Updatables(catalog, a) + Updatables(catalog, b)
  {
    if b == [] {
      assert a + b == a;
    } else {
      var n := |b| - 1;
      assert (a + b)[..|a + b| - 1] == a + b[..n];
      UpdatablesAppend(catalog, a, b[..n]);
    }
  }

  lemma {:induction false} LastSeenAppend(
    catalog: Catalog, a: seq<Characteristic>, b: seq<Characteristic>, id: CharID, prev: Option<Characteristic>)
    ensures LastSeen(catalog, a + b, id, prev) == LastSeen(catalog, b, id, LastSeen(catalog, a, id, prev))
  {
    if b == [] {
      assert a + b == a;
    } else {
      var n := |b| - 1;
      assert (a + b)[..|a + b| - 1] == a + b[..n];
      LastSeenAppend(catalog, a, b[..n], id, prev);
    }
  }

  /** A characteristic whose UUID the catalog does not know leaves negotiation as if it had not
      been discovered: same trace, same polled list, same cached references. */
  lemma {:induction false} UnrecognisedHasNoEffect(
    catalog: Catalog, p: Peripheral, before: seq<Characteristic>, c: Characteristic,
    after: seq<Characteristic>, id: CharID, prev: Option<Characteristic>)
    requires Identify(catalog, c.uuid).None?
    ensures NegotiationActions(catalog, p, before + [c] + after)
         == NegotiationActions(catalog, p, before + after)
    ensures Updatables(catalog, before + [c] + after) == Updatables(catalog, before + after)
    ensures LastSeen(catalog, before + [c] + after, id, prev) == LastSeen(catalog, before + after, id, prev)
  {
    UnrecognisedActions(catalog, p, before, c, after);
    UnrecognisedUpdatables(catalog, before, c, after);
    UnrecognisedLastSeen(catalog, before, c, after, id, prev);
  }

  lemma UnrecognisedActions(
    catalog: Catalog, p: Peripheral, before: seq<Characteristic>, c: Characteristic, after: seq<Characteristic>)
    requires Identify(catalog, c.uuid).None?
    ensures NegotiationActions(catalog, p, before + [c] + after)
         == NegotiationActions(catalog, p, before + after)
  {
    assert [c][..0] == [];
    assert NegotiationActions(catalog, p, [c])
        == NegotiationActions(catalog, p, []) + CharActions(catalog, p, c) == [];
    NegotiationActionsAppend(catalog, p, before + [c], after);
    NegotiationActionsAppend(catalog, p, before, [c]);
    NegotiationActionsAppend(catalog, p, before, after);
  }

  lemma UnrecognisedUpdatables(
    catalog: Catalog, before: seq<Characteristic>, c: Characteristic, after: seq<Characteristic>)
    requires Identify(catalog, c.uuid).None?
    ensures Updatables(catalog, before + [c] + after) == Updatables(catalog, before + after)
  {
    assert [c][..0] == [];
    assert !IsUpdatable(catalog, c);
    assert Updatables(catalog, [c]) == Updatables(catalog, []) == [];
    UpdatablesAppend(catalog, before + [c], after);
    UpdatablesAppend(catalog, before, [c]);
    UpdatablesAppend(catalog, before, after);
  }

  lemma UnrecognisedLastSeen(
    catalog: Catalog, before: seq<Characteristic>, c: Characteristic, after: seq<Characteristic>,
    id: CharID, prev: Option<Characteristic>)
    requires Identify(catalog, c.uuid).None?
    ensures LastSeen(catalog, before + [c] + after, id, prev) == LastSeen(catalog, before + after, id, prev)
  {
    assert [c][..0] == [];
    var mid := LastSeen(catalog, before, id, prev);
    assert LastSeen(catalog, [c], id, mid) == mid;
    LastSeenAppend(catalog, before + [c], after, id, prev);
    LastSeenAppend(catalog, before, [c], id, prev);
    LastSeenAppend(catalog, before, after, id, prev);
  }

  // ---------------------------------------------------------------------------------------
  // didUpdateValueFor and handleCharacteristicValueUpdate

  /** What `handleCharacteristicValueUpdate` does with a decoded value: a reading is logged; a
      heart rate is also saved to the health store when it is above zero. */
  function ReadingEffects(d: Decoded): (e: Effects)
    ensures |e.logs| <= 1
    ensures e.logs != [] <==> !d.Undecodable? && !d.NoPayload?
    ensures e.logs != [] ==> e.logs == [LogEntry(Normal, Reading(d))]
    ensures e.actions != [] <==> d.HeartRateReading? && d.bpm > 0
    ensures e.actions != [] ==> e.actions == [SaveHeartRate(d.bpm)]
  {
    match d
    case HeartRateReading(bpm) =>
      Effects([LogEntry(Normal, Reading(d))], if bpm > 0 then [SaveHeartRate(bpm)] else [])
    case Undecodable => Effects([], [])
    case NoPayload => Effects([], [])
    case _ => Effects([LogEntry(Normal, Reading(d))], [])
  }

  /** The identities whose value updates are passed on to the handler. */
  predicate IsDispatched(catalog: Catalog, c: Characteristic)
  {
    IsUpdatable(catalog, c) || IsMonitored(catalog, c)
  }

  /** A value the handler can index without trapping. */
  predicate PayloadLongEnough(catalog: Catalog, codec: Codec, c: Characteristic, value: Option<seq<byte>>)
  {
    IsDispatched(catalog, c) && value.Some? ==> Indexable(codec, Identify(catalog, c.uuid).value, value.value)
  }

  /** What a value update of characteristic `c` with `value` emits. */
  function ValueUpdateEffects(catalog: Catalog, codec: Codec, c: Characteristic, value: Option<seq<byte>>)
    : (e: Effects)
    requires PayloadLongEnough(catalog, codec, c, value)
    ensures !IsDispatched(catalog, c) || value.None? ==> e == Effects([], [])
    ensures (|| Identify(catalog, c.uuid).None?
             || Identify(catalog, c.uuid) == Some(HeartRateControlPoint)
             || Identify(catalog, c.uuid) == Some(Alert)) ==> e == Effects([], [])
    ensures forall a :: a in e.actions ==>
      && Identify(catalog, c.uuid) == Some(HeartRateMeasurement) && value.Some?
      && value.value[1] > 0 && a == SaveHeartRate(value.value[1])
    ensures Identify(catalog, c.uuid) == Some(HeartRateMeasurement) && value.Some? ==>
      && e.logs == [LogEntry(Normal, Reading(HeartRateReading(value.value[1])))]
      && (e.actions != [] <==> value.value[1] > 0)
    ensures Identify(catalog, c.uuid) == Some(DateTime) && value.Some? ==>
      var date := codec.dateFrom(value.value[0..7]);
      && e.actions == []
      && (e.logs != [] <==> date.Some?)
      && (date.Some? ==> e.logs == [LogEntry(Normal, Reading(TimeReading(date.value)))])
    ensures Identify(catalog, c.uuid) == Some(Battery) && value.Some? ==>
      var lastCharged := codec.dateFrom(value.value[11..18]);
      && e.actions == []
      && (e.logs != [] <==> lastCharged.Some?)
      && (lastCharged.Some? ==>
            e.logs == [LogEntry(Normal, Reading(BatteryReading(value.value[1], lastCharged.value)))])
    ensures Identify(catalog, c.uuid) == Some(Activity) && value.Some? ==>
      var b := value.value;
      && e.actions == []
      && (e.logs != [] <==>
            && codec.u32From(b[1..5]).Some?
            && codec.u32From(b[5..9]).Some?
            && codec.u32From(b[9..13]).Some?)
      && (e.logs != [] ==>
            e.logs == [LogEntry(Normal, Reading(ActivityReading(
              codec.u32From(b[1..5]).value, codec.u32From(b[5..9]).value, codec.u32From(b[9..13]).value)))])
  {
    if IsDispatched(catalog, c) && value.Some? then
      ReadingEffects(Decode(codec, Identify(catalog, c.uuid).value, value.value))
    else
      Effects([], [])
  }
}
