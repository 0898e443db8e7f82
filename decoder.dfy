/** `handleCharacteristicValueUpdate`: picks fixed byte slices of a characteristic's value and
    turns them into a reading. The byte-level converters it calls are parameters. */
module PayloadDecoder {
  import opened MiProtocol

  /** Foundation's `DateComponents`, as far as the log shows it. */
  datatype DateComponents = DateComponents(
    year: int, month: int, day: int, hour: int, minute: int, second: int, weekday: int)

  /** The two converters the handler relies on and whose source is not part of this model:
      `DateComponents.from(bytes:)` and `UInt32.from(bytes:)`, both of which may fail. */
  datatype Codec = Codec(
    dateFrom: seq<byte> -> Option<DateComponents>,
    u32From: seq<byte> -> Option<uint32>)

  /** What one value update decodes to. */
  datatype Decoded =
    | TimeReading(date: DateComponents)
    | HeartRateReading(bpm: byte)
    | ActivityReading(steps: uint32, meters: uint32, calories: uint32)
    | BatteryReading(percentage: byte, lastCharged: DateComponents)
      /** A converter returned nil and the handler returned early. */
    | Undecodable
      /** An identity the handler's `default:` branch ignores. */
    | NoPayload

  /** The shortest value the handler can index without trapping: the last byte it touches
      before it can return, plus one. For activity that is the end of the steps counter; the
      meters and calories counters are sliced only once the counters before them convert
      (see Indexable). */
  function MinLength(id: CharID): (n: nat)
    ensures id == HeartRateControlPoint || id == Alert <==> n == 0
  {
    match id
    case DateTime => 7
    case Activity => 5
    case Battery => 18
    case HeartRateMeasurement => 2
    case HeartRateControlPoint => 0
    case Alert => 0
  }

  /** The activity handler is a `guard let` chain: it slices bytes 1-4, then 5-8 only if the
      steps converted, then 9-12 only if the meters converted. A value is safe when every slice
      that is actually taken is in range. */
  predicate ActivityLongEnough(codec: Codec, bytes: seq<byte>)
  {
    && |bytes| >= MinLength(Activity)
    && (codec.u32From(bytes[1..5]).Some? ==>
          && |bytes| >= 9
          && (codec.u32From(bytes[5..9]).Some? ==> |bytes| >= 13))
  }

  /** A value the handler processes without trapping. */
  predicate Indexable(codec: Codec, id: CharID, bytes: seq<byte>)
  {
    |bytes| >= MinLength(id) && (id == Activity ==> ActivityLongEnough(codec, bytes))
  }

  /** The date-time characteristic carries its timestamp in bytes 0 to 6. */
  function TimeStamp(bytes: seq<byte>): (t: seq<byte>)
    requires |bytes| >= MinLength(DateTime)
    ensures |t| == 7 && forall k :: 0 <= k < 7 ==> t[k] == bytes[k]
  {
    bytes[0..7]
  }

  /** The battery characteristic carries its last-charge timestamp in bytes 11 to 17. */
  function LastChargeStamp(bytes: seq<byte>): (t: seq<byte>)
    requires |bytes| >= MinLength(Battery)
    ensures |t| == 7 && forall k :: 0 <= k < 7 ==> t[k] == bytes[11 + k]
  {
    bytes[11..18]
  }

  /** All three activity counters (steps, meters, calories) convert. */
  predicate ActivityCountersPresent(codec: Codec, bytes: seq<byte>)
    requires ActivityLongEnough(codec, bytes)
  {
    && codec.u32From(bytes[1..5]).Some?
    && codec.u32From(bytes[5..9]).Some?
    && codec.u32From(bytes[9..13]).Some?
  }

  /** The value of a characteristic, decoded according to its identity. A value the handler
      would index out of range makes the Swift code trap, hence the precondition. */
  function Decode(codec: Codec, id: CharID, bytes: seq<byte>): (d: Decoded)
    requires Indexable(codec, id, bytes)
    ensures d.TimeReading? <==> id == DateTime && codec.dateFrom(TimeStamp(bytes)).Some?
    ensures d.TimeReading? ==> codec.dateFrom(TimeStamp(bytes)) == Some(d.date)
    ensures d.HeartRateReading? <==> id == HeartRateMeasurement
    ensures d.HeartRateReading? ==> d.bpm == bytes[1]
    ensures d.ActivityReading? <==> id == Activity && ActivityCountersPresent(codec, bytes)
    ensures d.ActivityReading? ==>
      && codec.u32From(bytes[1..5]) == Some(d.steps)
      && codec.u32From(bytes[5..9]) == Some(d.meters)
      && codec.u32From(bytes[9..13]) == Some(d.calories)
    ensures d.BatteryReading? <==> id == Battery && codec.dateFrom(LastChargeStamp(bytes)).Some?
    ensures d.BatteryReading? ==>
      d.percentage == bytes[1] && codec.dateFrom(LastChargeStamp(bytes)) == Some(d.lastCharged)
    ensures d.NoPayload? <==> id == HeartRateControlPoint || id == Alert
  {
    match id
    case DateTime =>
      var date := codec.dateFrom(TimeStamp(bytes));
      if date.Some? then TimeReading(date.value) else Undecodable
    case HeartRateMeasurement =>
      HeartRateReading(bytes[1])
    case Activity =>
      var steps := codec.u32From(bytes[1..5]);
      if steps.None? then Undecodable
      else
        var meters := codec.u32From(bytes[5..9]);
        if meters.None? then Undecodable
        else
          var calories := codec.u32From(bytes[9..13]);
          if calories.None? then Undecodable
          else ActivityReading(steps.value, meters.value, calories.value)
    case Battery =>
      var lastCharged := codec.dateFrom(LastChargeStamp(bytes));
      if lastCharged.Some? then BatteryReading(bytes[1], lastCharged.value) else Undecodable
    case HeartRateControlPoint =>
      NoPayload
    case Alert =>
      NoPayload
  }

  /** The battery's last-charge timestamp uses the same seven-byte layout as the date-time
      characteristic, only at offset 11: equal stamps give equal dates, whichever characteristic
      they arrive on. */
  lemma LastChargeMatchesDateTime(codec: Codec, time: seq<byte>, battery: seq<byte>)
    requires |time| >= MinLength(DateTime) && |battery| >= MinLength(Battery)
    requires forall k :: 0 <= k < 7 ==> time[k] == battery[11 + k]
    ensures Decode(codec, DateTime, time).TimeReading? <==> Decode(codec, Battery, battery).BatteryReading?
    ensures Decode(codec, DateTime, time).TimeReading? ==>
      Decode(codec, DateTime, time).date == Decode(codec, Battery, battery).lastCharged
  {
    assert TimeStamp(time) == LastChargeStamp(battery);
  }

  /** Byte 0 of an activity value is a flag byte that the decoder never looks at, and so is
      everything after byte 12. */
  lemma ActivityIgnoresFlagsAndTail(codec: Codec, a: seq<byte>, b: seq<byte>)
    requires |a| >= 13 && |b| >= 13
    requires forall k :: 1 <= k < 13 ==> a[k] == b[k]
    ensures Decode(codec, Activity, a) == Decode(codec, Activity, b)
  {
    assert a[1..5] == b[1..5];
    assert a[5..9] == b[5..9];
    assert a[9..13] == b[9..13];
  }

  /** When the steps counter does not convert, the handler returns before it slices the meters:
      any value of five bytes or more is handled, and decodes to nothing. */
  lemma ActivityStopsAtSteps(codec: Codec, bytes: seq<byte>)
    requires |bytes| >= 5 && codec.u32From(bytes[1..5]).None?
    ensures Indexable(codec, Activity, bytes)
    ensures Decode(codec, Activity, bytes) == Undecodable
  {
  }

  /** When the meters counter does not convert, the handler returns before it slices the
      calories: any value of nine bytes or more is handled, and decodes to nothing. */
  lemma ActivityStopsAtMeters(codec: Codec, bytes: seq<byte>)
    requires |bytes| >= 9 && codec.u32From(bytes[5..9]).None?
    ensures Indexable(codec, Activity, bytes)
    ensures Decode(codec, Activity, bytes) == Undecodable
  {
  }

  // ---------------------------------------------------------------------------------------
  // Each length bound is the shortest one: a value of exactly that length is decoded, and its
  // last byte changes the result.

  /** Distinct seven-byte stamps give distinct dates (as far as they give one at all). */
  ghost predicate DateFromInjective(codec: Codec)
  {
    forall x: seq<byte>, y: seq<byte> :: codec.dateFrom(x).Some? && codec.dateFrom(x) == codec.dateFrom(y) ==> x == y
  }

  /** Distinct four-byte slices give distinct counters (as far as they give one at all). */
  ghost predicate U32FromInjective(codec: Codec)
  {
    forall x: seq<byte>, y: seq<byte> :: codec.u32From(x).Some? && codec.u32From(x) == codec.u32From(y) ==> x == y
  }

  lemma DateTimeLengthTight(codec: Codec, a: seq<byte>, b: seq<byte>)
    requires |a| == |b| == 7
    requires forall k :: 0 <= k < 6 ==> a[k] == b[k]
    requires a[6] != b[6]
    requires DateFromInjective(codec) && codec.dateFrom(a).Some?
    ensures Indexable(codec, DateTime, a) && Indexable(codec, DateTime, b)
    ensures Decode(codec, DateTime, a) != Decode(codec, DateTime, b)
  {
    assert TimeStamp(a) == a && TimeStamp(b) == b;
    assert a != b by { assert a[6] != b[6]; }
  }

  lemma HeartRateLengthTight(codec: Codec, a: seq<byte>, b: seq<byte>)
    requires |a| == |b| == 2
    requires a[1] != b[1]
    ensures Indexable(codec, HeartRateMeasurement, a) && Indexable(codec, HeartRateMeasurement, b)
    ensures Decode(codec, HeartRateMeasurement, a) != Decode(codec, HeartRateMeasurement, b)
  {
  }

  lemma BatteryLengthTight(codec: Codec, a: seq<byte>, b: seq<byte>)
    requires |a| == |b| == 18
    requires forall k :: 0 <= k < 17 ==> a[k] == b[k]
    requires a[17] != b[17]
    requires DateFromInjective(codec) && codec.dateFrom(a[11..18]).Some?
    ensures Indexable(codec, Battery, a) && Indexable(codec, Battery, b)
    ensures Decode(codec, Battery, a) != Decode(codec, Battery, b)
  {
    assert LastChargeStamp(a) != LastChargeStamp(b) by {
      assert LastChargeStamp(a)[6] != LastChargeStamp(b)[6];
    }
  }

  /** The calories slice ends at byte 12: a thirteen-byte value with all three counters is
      decoded, and its byte 12 changes the result. */
  lemma ActivityLengthTight(codec: Codec, a: seq<byte>, b: seq<byte>)
    requires |a| == |b| == 13
    requires forall k :: 0 <= k < 12 ==> a[k] == b[k]
    requires a[12] != b[12]
    requires U32FromInjective(codec)
    requires codec.u32From(a[1..5]).Some? && codec.u32From(a[5..9]).Some? && codec.u32From(a[9..13]).Some?
    ensures Indexable(codec, Activity, a) && Indexable(codec, Activity, b)
    ensures Decode(codec, Activity, a) != Decode(codec, Activity, b)
  {
    assert a[1..5] == b[1..5];
    assert a[5..9] == b[5..9];
    assert a[9..13] != b[9..13] by { assert a[9..13][3] != b[9..13][3]; }
  }
}
