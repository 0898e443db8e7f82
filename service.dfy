/** `MiBandService`: the single-owner session controller. Its fields are the ones the Swift
    class keeps; every public action and every central-manager or peripheral callback is a
    method that updates them and appends what it asks of the Bluetooth stack to `trace` and
    what it logs to `logs`. */
module MiBandSession {
  import opened MiProtocol
  import opened PayloadDecoder
  import opened SessionEffects

  /** `updateHRtimer`: the keep-alive timer, with the peripheral and control point its event
      handler captured when it was made, and whether it is resumed or suspended. */
  datatype Timer = Timer(peripheral: Peripheral, controlPoint: Characteristic, armed: bool)

  class MiBandService {
    const catalog: Catalog
    const codec: Codec

    var miBand: Option<Peripheral>
    var discoveredPeripherals: seq<Peripheral>
    var updatableCharacteristics: seq<Characteristic>
    var hrControlPointCharacteristic: Option<Characteristic>
    var alertCharacteristic: Option<Characteristic>
    var updateHRTimer: Option<Timer>

    /** Every request made of the Bluetooth stack and the health store, oldest first. */
    var trace: seq<Action>
    /** Every entry passed to the log sinks, oldest first. */
    var logs: seq<LogEntry>

    /** What the fields always satisfy: no placeholder-named device is listed, the polled list
        holds polled characteristics only, and each cached reference has its identity. */
    ghost predicate Valid()
      reads this
    {
      && (forall p :: p in discoveredPeripherals ==> !IsPlaceholderName(p.realName))
      && (forall c :: c in updatableCharacteristics ==> IsUpdatable(catalog, c))
      && (hrControlPointCharacteristic.Some? ==>
            Identify(catalog, hrControlPointCharacteristic.value.uuid) == Some(HeartRateControlPoint))
      && (alertCharacteristic.Some? ==> Identify(catalog, alertCharacteristic.value.uuid) == Some(Alert))
      && (updateHRTimer.Some? ==> Identify(catalog, updateHRTimer.value.controlPoint.uuid) == Some(HeartRateControlPoint))
    }

    /** The operations that talk to the heart-rate control point need it and an active device. */
    predicate HeartRateReady()
      reads this
    {
      miBand.Some? && hrControlPointCharacteristic.Some?
    }

    /** The alert operations need the alert characteristic and an active device. */
    predicate AlertReady()
      reads this
    {
      miBand.Some? && alertCharacteristic.Some?
    }

    constructor (catalog: Catalog, codec: Codec)
      ensures Valid()
      ensures this.catalog == catalog && this.codec == codec
      ensures miBand.None? && discoveredPeripherals == [] && updatableCharacteristics == []
      ensures hrControlPointCharacteristic.None? && alertCharacteristic.None? && updateHRTimer.None?
      ensures trace == [] && logs == []
    {
      this.catalog := catalog;
      this.codec := codec;
      miBand := None;
      discoveredPeripherals := [];
      updatableCharacteristics := [];
      hrControlPointCharacteristic := None;
      alertCharacteristic := None;
      updateHRTimer := None;
      trace := [];
      logs := [];
    }

    /** Assigning `miBand`, with its `didSet` observer: whatever the new value, the polled list
        is emptied; the cached references are left alone. */
    method SetMiBand(peripheral: Option<Peripheral>)
      requires Valid()
      modifies this`miBand, this`updatableCharacteristics
      ensures Valid()
      ensures miBand == peripheral && updatableCharacteristics == []
      ensures hrControlPointCharacteristic == old(hrControlPointCharacteristic)
      ensures alertCharacteristic == old(alertCharacteristic)
    {
      miBand := peripheral;
      updatableCharacteristics := [];
    }

    // -------------------------------------------------------------------------------------
    // Actions

    method DiscoverPeripherals()
      requires Valid()
      modifies this`trace
      ensures Valid()
      ensures trace == old(trace) + [Scan]
    {
      trace := trace + [Scan];
    }

    /** Indexes the discovered list without a bounds check, so the index must be in range. */
    method ConnectToPeripheral(index: int)
      requires 0 <= index < |discoveredPeripherals|
      requires Valid()
      modifies this`trace
      ensures Valid()
      ensures trace == old(trace) + [Connect(discoveredPeripherals[index])]
    {
      trace := trace + [Connect(discoveredPeripherals[index])];
    }

    method Disconnect()
      requires Valid()
      modifies this`trace, this`logs
      ensures Valid()
      ensures miBand.Some? ==> trace == old(trace) + [CancelConnection(miBand.value)] && logs == old(logs)
      ensures miBand.None? ==>
        trace == old(trace) && logs == old(logs) + [LogEntry(Error, NotDiscovered(DisconnectOp))]
    {
      if miBand.None? {
        logs := logs + [LogEntry(Error, NotDiscovered(DisconnectOp))];
        return;
      }
      trace := trace + [CancelConnection(miBand.value)];
    }

    /** Reads every polled characteristic once, in list order; changes no field but the trace
        and the log. */
    method UpdateStats()
      requires Valid()
      modifies this`trace, this`logs
      ensures Valid()
      ensures miBand.Some? ==>
        && logs == old(logs) + [LogEntry(Normal, StatsUpdate)]
        && trace == old(trace) + ReadsOf(miBand.value, updatableCharacteristics)
      ensures miBand.None? ==>
        trace == old(trace) && logs == old(logs) + [LogEntry(Error, NotDiscovered(UpdateStatsOp))]
      ensures forall k :: |old(trace)| <= k < |trace| ==>
        trace[k].Read? && trace[k].peripheral == miBand.value && IsUpdatable(catalog, trace[k].characteristic)
    {
      if miBand.None? {
        logs := logs + [LogEntry(Error, NotDiscovered(UpdateStatsOp))];
        return;
      }
      var band := miBand.value;
      logs := logs + [LogEntry(Normal, StatsUpdate)];
      var i := 0;
      while i < |updatableCharacteristics|
        invariant 0 <= i <= |updatableCharacteristics|
        invariant trace == old(trace) + ReadsOf(band, updatableCharacteristics[..i])
        invariant logs == old(logs) + [LogEntry(Normal, StatsUpdate)]
      {
        assert updatableCharacteristics[..i + 1][..i] == updatableCharacteristics[..i];
        trace := trace + [Read(band, updatableCharacteristics[i])];
        i := i + 1;
      }
      assert updatableCharacteristics[..i] == updatableCharacteristics;
      forall k | |old(trace)| <= k < |trace|
        ensures trace[k].Read? && trace[k].peripheral == band && IsUpdatable(catalog, trace[k].characteristic)
      {
        assert trace[k] == Read(band, updatableCharacteristics[k - |old(trace)|]);
      }
    }

    /** Makes a fresh keep-alive timer around the current device and control point and resumes
        it; its first tick is due at once (see TimerFired). */
    method StartMonitoringHeartRate()
      requires Valid()
      modifies this`updateHRTimer, this`logs
      ensures Valid() && trace == old(trace)
      ensures old(HeartRateReady()) ==>
        && updateHRTimer == Some(Timer(miBand.value, hrControlPointCharacteristic.value, true))
        && logs == old(logs)
      ensures !old(HeartRateReady()) ==>
        && updateHRTimer == old(updateHRTimer)
        && logs == old(logs) + [LogEntry(Error, InvalidSetup(StartMonitoringOp))]
    {
      if !HeartRateReady() {
        logs := logs + [LogEntry(Error, InvalidSetup(StartMonitoringOp))];
        return;
      }
      updateHRTimer := Some(Timer(miBand.value, hrControlPointCharacteristic.value, true));
    }

    /** One tick of the keep-alive timer: while it is resumed, re-sends stop and then start
        monitoring, with response, to the device and control point it captured. */
    method TimerFired()
      requires Valid()
      modifies this`trace, this`logs
      ensures Valid()
      ensures updateHRTimer.Some? && updateHRTimer.value.armed ==>
        var t := updateHRTimer.value;
        && trace == old(trace) + [
             Write(t.peripheral, t.controlPoint, CommandBytes(StopHeartRateMonitoring), true),
             Write(t.peripheral, t.controlPoint, CommandBytes(StartHeartRateMonitoring), true)]
        && logs == old(logs) + [LogEntry(Normal, MonitoringRestarted)]
      ensures !(updateHRTimer.Some? && updateHRTimer.value.armed) ==>
        trace == old(trace) && logs == old(logs)
    {
      if updateHRTimer.Some? && updateHRTimer.value.armed {
        var t := updateHRTimer.value;
        trace := trace + [
          Write(t.peripheral, t.controlPoint, CommandBytes(StopHeartRateMonitoring), true),
          Write(t.peripheral, t.controlPoint, CommandBytes(StartHeartRateMonitoring), true)];
        logs := logs + [LogEntry(Normal, MonitoringRestarted)];
      }
    }

    /** Suspends the timer, then sends stop monitoring and stop measurement, with response.
        The timer is an implicitly unwrapped optional: once the guard passes it must exist. */
    method StopMonitoringHeartRate()
      requires Valid()
      requires HeartRateReady() ==> updateHRTimer.Some?
      modifies this`updateHRTimer, this`trace, this`logs
      ensures Valid()
      ensures old(HeartRateReady()) ==>
        var (band, point) := (miBand.value, hrControlPointCharacteristic.value);
        && updateHRTimer == Some(old(updateHRTimer.value).(armed := false))
        && trace == old(trace) + [
             Write(band, point, CommandBytes(StopHeartRateMonitoring), true),
             Write(band, point, CommandBytes(StopHeartRateMeasurement), true)]
        && logs == old(logs) + [LogEntry(Normal, MonitoringStopped)]
      ensures !old(HeartRateReady()) ==>
        && updateHRTimer == old(updateHRTimer) && trace == old(trace)
        && logs == old(logs) + [LogEntry(Error, InvalidSetup(StopMonitoringOp))]
    {
      if !HeartRateReady() {
        logs := logs + [LogEntry(Error, InvalidSetup(StopMonitoringOp))];
        return;
      }
      var band, point := miBand.value, hrControlPointCharacteristic.value;
      updateHRTimer := Some(updateHRTimer.value.(armed := false));
      trace := trace + [
        Write(band, point, CommandBytes(StopHeartRateMonitoring), true),
        Write(band, point, CommandBytes(StopHeartRateMeasurement), true)];
      logs := logs + [LogEntry(Normal, MonitoringStopped)];
    }

    /** Requests one heart-rate measurement; leaves the timer alone. */
    method MeasureHeartRate()
      requires Valid()
      modifies this`trace, this`logs
      ensures Valid()
      ensures HeartRateReady() ==>
        && trace == old(trace) + [Write(miBand.value, hrControlPointCharacteristic.value,
                                        CommandBytes(StartHeartRateMeasurement), true)]
        && logs == old(logs) + [LogEntry(Normal, SingleMeasurement)]
      ensures !HeartRateReady() ==>
        trace == old(trace) && logs == old(logs) + [LogEntry(Error, InvalidSetup(MeasureOp))]
    {
      if !HeartRateReady() {
        logs := logs + [LogEntry(Error, InvalidSetup(MeasureOp))];
        return;
      }
      trace := trace + [Write(miBand.value, hrControlPointCharacteristic.value,
                              CommandBytes(StartHeartRateMeasurement), true)];
      logs := logs + [LogEntry(Normal, SingleMeasurement)];
    }

    /** The body shared by the three alert operations: one single-byte write without response
        to the alert characteristic. */
    method WriteAlert(mode: AlertMode, op: Operation)
      requires Valid()
      modifies this`trace, this`logs
      ensures Valid()
      ensures AlertReady() ==>
        && trace == old(trace) + [Write(miBand.value, alertCharacteristic.value, AlertByte(mode), false)]
        && logs == old(logs) + [LogEntry(Normal, AlertSet(mode))]
      ensures !AlertReady() ==>
        trace == old(trace) && logs == old(logs) + [LogEntry(Error, InvalidSetup(op))]
    {
      if !AlertReady() {
        logs := logs + [LogEntry(Error, InvalidSetup(op))];
        return;
      }
      trace := trace + [Write(miBand.value, alertCharacteristic.value, AlertByte(mode), false)];
      logs := logs + [LogEntry(Normal, AlertSet(mode))];
    }

    method SetHighAlert()
      requires Valid()
      modifies this`trace, this`logs
      ensures Valid()
      ensures AlertReady() ==>
        && trace == old(trace) + [Write(miBand.value, alertCharacteristic.value, AlertByte(High), false)]
        && logs == old(logs) + [LogEntry(Normal, AlertSet(High))]
      ensures !AlertReady() ==>
        trace == old(trace) && logs == old(logs) + [LogEntry(Error, InvalidSetup(HighAlertOp))]
    {
      WriteAlert(High, HighAlertOp);
    }

    method SetMildAlert()
      requires Valid()
      modifies this`trace, this`logs
      ensures Valid()
      ensures AlertReady() ==>
        && trace == old(trace) + [Write(miBand.value, alertCharacteristic.value, AlertByte(Mild), false)]
        && logs == old(logs) + [LogEntry(Normal, AlertSet(Mild))]
      ensures !AlertReady() ==>
        trace == old(trace) && logs == old(logs) + [LogEntry(Error, InvalidSetup(MildAlertOp))]
    {
      WriteAlert(Mild, MildAlertOp);
    }

    method UnsetAlert()
      requires Valid()
      modifies this`trace, this`logs
      ensures Valid()
      ensures AlertReady() ==>
        && trace == old(trace) + [Write(miBand.value, alertCharacteristic.value, AlertByte(Off), false)]
        && logs == old(logs) + [LogEntry(Normal, AlertSet(Off))]
      ensures !AlertReady() ==>
        trace == old(trace) && logs == old(logs) + [LogEntry(Error, InvalidSetup(UnsetAlertOp))]
    {
      WriteAlert(Off, UnsetAlertOp);
    }

    // -------------------------------------------------------------------------------------
    // Central-manager callbacks

    /** `centralManagerDidUpdateState`: scans when Bluetooth is on and no device is held. */
    method BluetoothStateUpdated(poweredOn: bool)
      requires Valid()
      modifies this`trace, this`logs
      ensures Valid()
      ensures logs == old(logs) + [LogEntry(Normal, BluetoothState(poweredOn))]
      ensures trace == old(trace) + (if poweredOn && miBand.None? then [Scan] else [])
    {
      logs := logs + [LogEntry(Normal, BluetoothState(poweredOn))];
      if poweredOn && miBand.None? {
        DiscoverPeripherals();
      }
    }

    /** `didDiscover`: a device named "Unnamed…" is dropped; any other is announced on the
        special channel and appended to the discovered list. */
    method Discover(peripheral: Peripheral)
      requires Valid()
      modifies this`discoveredPeripherals, this`logs
      ensures Valid()
      ensures IsPlaceholderName(peripheral.realName) ==>
        discoveredPeripherals == old(discoveredPeripherals) && logs == old(logs)
      ensures !IsPlaceholderName(peripheral.realName) ==>
        && discoveredPeripherals == old(discoveredPeripherals) + [peripheral]
        && logs == old(logs) + [LogEntry(Special, PeripheralFound(peripheral.realName))]
    {
      if !IsPlaceholderName(peripheral.realName) {
        logs := logs + [LogEntry(Special, PeripheralFound(peripheral.realName))];
        discoveredPeripherals := discoveredPeripherals + [peripheral];
      }
    }

    /** `didConnect`: adopts the device (emptying the polled list), stops scanning and asks
        for its services. */
    method Connected(peripheral: Peripheral)
      requires Valid()
      modifies this`miBand, this`updatableCharacteristics, this`trace, this`logs
      ensures Valid()
      ensures miBand == Some(peripheral) && updatableCharacteristics == []
      ensures trace == old(trace) + [StopScan, DiscoverServices(peripheral)]
      ensures logs == old(logs) + [LogEntry(Normal, ConnectedTo(peripheral.realName))]
    {
      logs := logs + [LogEntry(Normal, ConnectedTo(peripheral.realName))];
      SetMiBand(Some(peripheral));
      trace := trace + [StopScan, DiscoverServices(peripheral)];
    }

    /** `didFailToConnect`: only logs. */
    method FailedToConnect(peripheral: Peripheral)
      requires Valid()
      modifies this`logs
      ensures Valid()
      ensures logs == old(logs) + [LogEntry(Error, ConnectFailed(peripheral.realName))]
    {
      logs := logs + [LogEntry(Error, ConnectFailed(peripheral.realName))];
    }

    /** `didDisconnectPeripheral`: without an error the active device is dropped (and the polled
        list with it); with an error nothing but the log changes. The cached control-point and
        alert references survive either way, as does the timer. */
    method Disconnected(peripheral: Peripheral, hasError: bool)
      requires Valid()
      modifies this`miBand, this`updatableCharacteristics, this`logs
      ensures Valid()
      ensures logs == old(logs) + [LogEntry(Normal, LinkDropped(hasError))]
      ensures !hasError ==> miBand.None? && updatableCharacteristics == []
      ensures hasError ==> miBand == old(miBand) && updatableCharacteristics == old(updatableCharacteristics)
      ensures hrControlPointCharacteristic == old(hrControlPointCharacteristic)
      ensures alertCharacteristic == old(alertCharacteristic)
    {
      logs := logs + [LogEntry(Normal, LinkDropped(hasError))];
      if !hasError {
        SetMiBand(None);
      }
    }

    // -------------------------------------------------------------------------------------
    // Peripheral callbacks

    /** `didDiscoverCharacteristicsFor`: walks the characteristics in order; a polled one is
        read and appended to the polled list, a monitored one is subscribed, and the control
        point and the alert characteristic are remembered. Unknown UUIDs are skipped. */
    method CharacteristicsDiscovered(peripheral: Peripheral, characteristics: seq<Characteristic>)
      requires Valid()
      modifies this`trace, this`updatableCharacteristics, this`hrControlPointCharacteristic,
               this`alertCharacteristic
      ensures Valid()
      ensures trace == old(trace) + NegotiationActions(catalog, peripheral, characteristics)
      ensures updatableCharacteristics == old(updatableCharacteristics) + Updatables(catalog, characteristics)
      ensures hrControlPointCharacteristic
           == LastSeen(catalog, characteristics, HeartRateControlPoint, old(hrControlPointCharacteristic))
      ensures alertCharacteristic == LastSeen(catalog, characteristics, Alert, old(alertCharacteristic))
    {
      ghost var trace0, polled0 := trace, updatableCharacteristics;
      ghost var point0, alert0 := hrControlPointCharacteristic, alertCharacteristic;
      assert characteristics[..0] == [];
      assert trace0 + [] == trace0 && polled0 + [] == polled0;
      var i := 0;
      while i < |characteristics|
        invariant 0 <= i <= |characteristics|
        invariant trace == trace0 + NegotiationActions(catalog, peripheral, characteristics[..i])
        invariant updatableCharacteristics == polled0 + Updatables(catalog, characteristics[..i])
        invariant hrControlPointCharacteristic
               == LastSeen(catalog, characteristics[..i], HeartRateControlPoint, point0)
        invariant alertCharacteristic == LastSeen(catalog, characteristics[..i], Alert, alert0)
      {
        NegotiationStep(catalog, peripheral, characteristics, i, trace0, polled0, HeartRateControlPoint, point0);
        NegotiationStep(catalog, peripheral, characteristics, i, trace0, polled0, Alert, alert0);
        NegotiateCharacteristic(peripheral, characteristics[i]);
        i := i + 1;
      }
      assert characteristics[..i] == characteristics;
      UpdatablesFilter(catalog, characteristics);
      LastSeenHasIdentity(catalog, characteristics, HeartRateControlPoint, point0);
      LastSeenHasIdentity(catalog, characteristics, Alert, alert0);
    }

    /** The body of the per-characteristic closure of `didDiscoverCharacteristicsFor`. */
    method NegotiateCharacteristic(peripheral: Peripheral, c: Characteristic)
      modifies this`trace, this`updatableCharacteristics, this`hrControlPointCharacteristic,
               this`alertCharacteristic
      ensures trace == old(trace) + CharActions(catalog, peripheral, c)
      ensures updatableCharacteristics == old(updatableCharacteristics) + Updatables(catalog, [c])
      ensures hrControlPointCharacteristic
           == LastSeen(catalog, [c], HeartRateControlPoint, old(hrControlPointCharacteristic))
      ensures alertCharacteristic == LastSeen(catalog, [c], Alert, old(alertCharacteristic))
    {
      assert [c][..0] == [];
      match Identify(catalog, c.uuid) {
        case None =>
        case Some(id) =>
          if id in UPDATABLE_IDS {
            trace := trace + [Read(peripheral, c)];
            updatableCharacteristics := updatableCharacteristics + [c];
          }
          if id in MONITORED_IDS {
            trace := trace + [SetNotify(peripheral, c, true)];
          }
          if id == HeartRateControlPoint {
            hrControlPointCharacteristic := Some(c);
          } else if id == Alert {
            alertCharacteristic := Some(c);
          }
      }
    }

    /** `didUpdateValueFor`: a value of a polled or monitored characteristic that is present is
        decoded and its reading logged (and a positive heart rate saved); every other update is
        dropped. */
    method ValueUpdated(characteristic: Characteristic, value: Option<seq<byte>>)
      requires PayloadLongEnough(catalog, codec, characteristic, value)
      requires Valid()
      modifies this`trace, this`logs
      ensures Valid()
      ensures var e := ValueUpdateEffects(catalog, codec, characteristic, value);
        trace == old(trace) + e.actions && logs == old(logs) + e.logs
    {
      if !IsDispatched(catalog, characteristic) || value.None? {
        return;
      }
      var reading := Decode(codec, Identify(catalog, characteristic.uuid).value, value.value);
      var e := ReadingEffects(reading);
      logs := logs + e.logs;
      trace := trace + e.actions;
    }
  }
}
