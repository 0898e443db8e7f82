/** The fixed protocol surface of the Mi Band: characteristic identities, which of them are
    polled and which are subscribed, the command repertoire and the peripheral/characteristic
    handles supplied by the Bluetooth stack. */
module MiProtocol {

  datatype Option<+T> = None | Some(value: T)

  /** Swift `UInt8`. */
  newtype byte = x: int | 0 <= x < 0x100

  /** Swift `UInt32`. */
  newtype uint32 = x: int | 0 <= x < 0x1_0000_0000

  /** The cases of `MiCharacteristicID` that the session controller names. */
  datatype CharID =
    | DateTime
    | Activity
    | Battery
    | HeartRateMeasurement
    | HeartRateControlPoint
    | Alert

  /** The raw values of `MiCharacteristicID`: the UUID string of each case. The strings
      themselves are outside this model, so the session is parameterised by the table. */
  type Catalog = map<string, CharID>

  /** `MiCharacteristicID(rawValue:)`: the identity with this UUID, or nil for a UUID the
      catalog does not know. */
  function Identify(catalog: Catalog, uuid: string): (id: Option<CharID>)
    ensures id.Some? <==> uuid in catalog
    ensures id.Some? ==> catalog[uuid] == id.value
  {
    if uuid in catalog then Some(catalog[uuid]) else None
  }

  /** Characteristics read once on negotiation and again by every stats update. */
  const UPDATABLE_IDS: seq<CharID> := [DateTime, Activity, Battery]

  /** Characteristics whose notifications are switched on during negotiation. */
  const MONITORED_IDS: seq<CharID> := [HeartRateMeasurement, Activity]

  /** A `CBPeripheral`: an identity handed out by the Bluetooth stack and its `realName`. */
  datatype Peripheral = Peripheral(handle: nat, realName: string)

  /** A `CBCharacteristic`: an identity and the UUID string it advertises. */
  datatype Characteristic = Characteristic(handle: nat, uuid: string)

  /** The `MiCommand` byte sequences written to the heart-rate control point. */
  datatype Command =
    | StartHeartRateMonitoring
    | StopHeartRateMonitoring
    | StartHeartRateMeasurement
    | StopHeartRateMeasurement

  /** The `AlertMode` constants, each written as a one-byte payload. */
  datatype AlertMode = Off | Mild | High

  /** What a write carries: a command sequence, or the single byte of an alert mode. */
  datatype Payload = CommandBytes(command: Command) | AlertByte(mode: AlertMode)

  /** A characteristic whose identity is one of the polled ones. */
  predicate IsUpdatable(catalog: Catalog, c: Characteristic)
  {
    Identify(catalog, c.uuid).Some? && Identify(catalog, c.uuid).value in UPDATABLE_IDS
  }

  /** A characteristic whose identity is one of the subscribed ones. */
  predicate IsMonitored(catalog: Catalog, c: Characteristic)
  {
    Identify(catalog, c.uuid).Some? && Identify(catalog, c.uuid).value in MONITORED_IDS
  }

  /** `realName.starts(with: "Unnamed")`: the placeholder name of an unidentified device. Swift
      compares extended grapheme clusters; this is a prefix test on code points. */
  predicate IsPlaceholderName(name: string)
  {
    "Unnamed" <= name
  }

  /** The polled and the subscribed sets, spelled out per identity: only date-time, activity
      and battery are polled, only heart-rate measurement and activity are subscribed. */
  lemma CatalogMembership(id: CharID)
    ensures id in UPDATABLE_IDS <==> id == DateTime || id == Activity || id == Battery
    ensures id in MONITORED_IDS <==> id == HeartRateMeasurement || id == Activity
    ensures (id in UPDATABLE_IDS || id in MONITORED_IDS) <==> id != HeartRateControlPoint && id != Alert
  {
  }
}
