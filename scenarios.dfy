/** Event sequences run against a fresh session, showing what the controller's contracts
    add up to for its callers. */
module SessionScenarios {
  import opened MiProtocol
  import opened PayloadDecoder
  import opened SessionEffects
  import opened MiBandSession

  /** Connect, find the control point, start monitoring, let the timer tick, stop, and let it
      tick again: exactly one keep-alive pair goes out, then the two stop commands, and the
      tick after stopping sends nothing. */
  method KeepAliveScenario(catalog: Catalog, codec: Codec, band: Peripheral, point: Characteristic)
    returns (trace: seq<Action>)
    requires Identify(catalog, point.uuid) == Some(HeartRateControlPoint)
    ensures trace == [
      StopScan, DiscoverServices(band),
      Write(band, point, CommandBytes(StopHeartRateMonitoring), true),
      Write(band, point, CommandBytes(StartHeartRateMonitoring), true),
      Write(band, point, CommandBytes(StopHeartRateMonitoring), true),
      Write(band, point, CommandBytes(StopHeartRateMeasurement), true)]
  {
    var session := new MiBandService(catalog, codec);
    session.Connected(band);
    assert NegotiationActions(catalog, band, [point])
        == NegotiationActions(catalog, band, []) + CharActions(catalog, band, point) == [];
    assert LastSeen(catalog, [point], HeartRateControlPoint, None) == Some(point);
    session.CharacteristicsDiscovered(band, [point]);
    assert session.trace == [StopScan, DiscoverServices(band)];
    session.StartMonitoringHeartRate();
    assert session.updateHRTimer == Some(Timer(band, point, true));
    session.TimerFired();
    assert session.trace == [StopScan, DiscoverServices(band),
      Write(band, point, CommandBytes(StopHeartRateMonitoring), true),
      Write(band, point, CommandBytes(StartHeartRateMonitoring), true)];
    session.StopMonitoringHeartRate();
    assert !session.updateHRTimer.value.armed;
    session.TimerFired();
    trace := session.trace;
  }

  /** After a clean disconnect the device is gone, so a stats update fails with an error entry
      and no read; the control point is still cached, but starting monitoring fails as well
      because no device is held. */
  method CleanDisconnectScenario(catalog: Catalog, codec: Codec, band: Peripheral, point: Characteristic)
    returns (lastLogs: seq<LogEntry>, requests: seq<Action>, cachedPoint: Option<Characteristic>)
    requires Identify(catalog, point.uuid) == Some(HeartRateControlPoint)
    ensures lastLogs == [
      LogEntry(Normal, LinkDropped(false)),
      LogEntry(Error, NotDiscovered(UpdateStatsOp)),
      LogEntry(Error, InvalidSetup(StartMonitoringOp))]
    ensures requests == []
    ensures cachedPoint == Some(point)
  {
    var session := new MiBandService(catalog, codec);
    session.Connected(band);
    assert LastSeen(catalog, [point], HeartRateControlPoint, None) == Some(point);
    session.CharacteristicsDiscovered(band, [point]);
    var before := |session.logs|;
    var traceBefore := session.trace;
    session.Disconnected(band, false);
    session.UpdateStats();
    session.StartMonitoringHeartRate();
    lastLogs := session.logs[before..];
    requests := session.trace[|traceBefore|..];
    cachedPoint := session.hrControlPointCharacteristic;
  }

  /** A link lost with an error keeps the device: the next stats update requests every polled
      characteristic that negotiation found, in the order found. */
  method DroppedLinkScenario(
    catalog: Catalog, codec: Codec, band: Peripheral, characteristics: seq<Characteristic>)
    returns (requests: seq<Action>)
    ensures ReadTargets(requests) == Updatables(catalog, characteristics)
    ensures forall i :: 0 <= i < |requests| ==> requests[i].Read? && requests[i].peripheral == band
  {
    var session := new MiBandService(catalog, codec);
    session.Connected(band);
    session.CharacteristicsDiscovered(band, characteristics);
    assert session.updatableCharacteristics == Updatables(catalog, characteristics);
    session.Disconnected(band, true);
    var traceBefore := session.trace;
    session.UpdateStats();
    requests := session.trace[|traceBefore|..];
    ReadsAfter(traceBefore, band, catalog, characteristics, requests);
  }

  /** What a stats update over the negotiated polled list appends to a trace, read back from the
      end of the trace. */
  lemma ReadsAfter(
    before: seq<Action>, band: Peripheral, catalog: Catalog, characteristics: seq<Characteristic>,
    requests: seq<Action>)
    requires requests == (before + ReadsOf(band, Updatables(catalog, characteristics)))[|before|..]
    ensures ReadTargets(requests) == Updatables(catalog, characteristics)
    ensures forall i :: 0 <= i < |requests| ==> requests[i].Read? && requests[i].peripheral == band
  {
    var polled := Updatables(catalog, characteristics);
    assert requests == ReadsOf(band, polled);
    ReadsOfTargets(band, polled);
  }
}
