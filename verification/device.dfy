/**
 * The vacuum entity's state and the snapshot decoder `update_entity_values`,
 * which copies a raw data-point snapshot into the entity's fields.
 *
 * The model's capability bits and the command-code table (which data point
 * carries the battery level, the status, ...) are parameters: they come from
 * the model definitions, which are not part of this model.
 */
module Device {
  import opened Wrappers
  import opened Values
  import Decimal
  import Protocol
  import Text

  /** The capability bits that gate optional attributes. */
  datatype Feature = CleaningArea | CleaningTime | AutoReturn | DoNotDisturb | BoostIq | Consumables

  /** The commands whose data-point key the command-code table gives. */
  datatype DataPoint = Battery | Status | ErrorCode | Mode | FanSpeed | Locate | Gated(feature: Feature)

  /** The table has a key for every command the entity looks up with `[]`. */
  ghost predicate CompleteCodes(codes: map<DataPoint, string>) {
    forall d: DataPoint :: d in codes
  }

  /** What a supported model provides: its capability bits, its command codes and its raw fan-speed labels. */
  datatype DeviceSpec = DeviceSpec(features: set<Feature>, codes: map<DataPoint, string>, fanSpeeds: seq<string>)

  datatype Config = Config(features: set<Feature>, codes: map<DataPoint, string>, fanSpeedMap: map<string, string>)

  const UnsupportedModel: string := "UNSUPPORTED_MODEL"
  const IpAddressMissing: string := "IP_ADDRESS"
  const ConnectionFailed: string := "CONNECTION_FAILED"

  /**
   * The entity. `config` is None for a model the integration does not
   * support; an `ipAddress` of "" stands for a missing address as well as an
   * empty one. The optional attributes keep whatever raw value the device sent.
   */
  datatype Entity = Entity(
    config: Option<Config>,
    ipAddress: string,
    tuyaStatus: Option<Snapshot>,
    batteryLevel: Option<int>,
    tuyaState: Option<string>,
    errorCode: Option<string>,
    mode: Value,
    fanSpeed: Option<string>,
    cleaningArea: Value,
    cleaningTime: Value,
    autoReturn: Value,
    doNotDisturb: Value,
    boostIq: Value,
    consumables: Value,
    updateFailures: nat,
    available: bool)

  /**
   * The friendly-name table of `__init__`: each raw label under its
   * `friendly_text`, a later label replacing an earlier one with the same
   * friendly name.
   */
  function FanSpeedMap(speeds: seq<string>): (m: map<string, string>)
    ensures forall name :: name in m ==> m[name] in speeds && Text.FriendlyText(m[name]) == name
    ensures forall i :: 0 <= i < |speeds| ==> Text.FriendlyText(speeds[i]) in m
  {
    if |speeds| == 0 then map[]
    else
      var front := speeds[..|speeds| - 1];
      var last := speeds[|speeds| - 1];
      assert speeds == front + [last];
      FanSpeedMap(front)[Text.FriendlyText(last) := last]
  }

  /** A raw label is stored under its friendly name unless a later label has the same friendly name. */
  lemma {:induction false} FanSpeedMapLastWins(speeds: seq<string>, i: nat)
    requires i < |speeds|
    requires forall j :: i < j < |speeds| ==> Text.FriendlyText(speeds[j]) != Text.FriendlyText(speeds[i])
    ensures FanSpeedMap(speeds)[Text.FriendlyText(speeds[i])] == speeds[i]
  {
    var front := speeds[..|speeds| - 1];
    if i < |speeds| - 1 {
      assert forall j :: i < j < |front| ==> front[j] == speeds[j];
      FanSpeedMapLastWins(front, i);
      assert front[i] == speeds[i];
    }
  }

  /** Each raw label is stored under its own friendly name, as `__init__` builds the table. */
  predicate FriendlyNames(m: map<string, string>) {
    forall name :: name in m ==> Text.FriendlyText(m[name]) == name
  }

  /** `__init__`: a fresh entity, with no reading yet and counted as available. */
  function NewEntity(ipAddress: string, device: Option<DeviceSpec>): (e: Entity)
    ensures e.config.Some? <==> device.Some?
    ensures e.config.None? <==> e.errorCode == Some(UnsupportedModel)
    ensures device.Some? ==>
              && e.config.value.features == device.value.features
              && e.config.value.codes == device.value.codes
              && e.config.value.fanSpeedMap == FanSpeedMap(device.value.fanSpeeds)
              && e.errorCode.None?
    ensures e.ipAddress == ipAddress
    ensures e.updateFailures == 0 && e.available
    ensures e.tuyaState.None? && e.tuyaStatus.None? && e.batteryLevel.None? && e.fanSpeed.None?
    ensures e.mode == Null && forall f :: GatedField(e, f) == Null
    ensures e.config.Some? ==> FriendlyNames(e.config.value.fanSpeedMap)
  {
    var config := if device.Some? then Some(Config(device.value.features, device.value.codes, FanSpeedMap(device.value.fanSpeeds)))
                  else None;
    Entity(config, ipAddress, None, None, None, if device.Some? then None else Some(UnsupportedModel),
           Null, None, Null, Null, Null, Null, Null, Null, 0, true)
  }

  /** The attribute a capability bit other than consumables gates. */
  function GatedField(e: Entity, f: Feature): Value {
    match f
    case CleaningArea => e.cleaningArea
    case CleaningTime => e.cleaningTime
    case AutoReturn => e.autoReturn
    case DoNotDisturb => e.doNotDisturb
    case BoostIq => e.boostIq
    case Consumables => e.consumables
  }

  // ---- the pieces of update_entity_values ----

  /**
   * The battery level: `int(raw)` unless raw is None, with TypeError and
   * ValueError read as None. `int` of a bool is 0 or 1; of a str, an
   * optional sign and decimal digits.
   */
  function DecodeBattery(v: Value): (r: Option<int>)
    ensures r.Some? <==> v.Bool? || v.Int? || (v.Str? && Decimal.IsIntLiteral(v.s))
    ensures v.Int? ==> r == Some(v.i)
    ensures v.Bool? ==> r == Some(if v.b then 1 else 0)
  {
    match v
    case Null => None
    case Bool(b) => Some(if b then 1 else 0)
    case Int(i) => Some(i)
    case Str(s) => Decimal.ParseInt(s)
    case Arr(_) => None
    case Obj(_) => None
  }

  /** The fan-speed value `friendly_text` is given: the raw value, or "" when the key is absent. */
  function FanSpeedRaw(c: Config, snap: Snapshot): Value
    requires CompleteCodes(c.codes)
  {
    var key := c.codes[FanSpeed];
    if key in snap then snap[key] else Str("")
  }

  /** `consumables["consumable"]["duration"]`, None when either index fails. */
  function Duration(d: Value): Option<Value> {
    match Index(d, "consumable")
    case None => None
    case Some(inner) => Index(inner, "duration")
  }

  /**
   * The consumables step, given the raw value: None when it raises (the
   * opaque `literal` decoder fails, or an `in` or `[]` on the decoded value
   * raises TypeError), Some(None) when the attribute is left alone, and
   * Some(Some(x)) when it becomes x.
   */
  function ConsumablesStep(raw: Value, literal: Value -> Option<Value>): (r: Option<Option<Value>>)
    ensures r.Some? && r.value.Some? ==> Truthy(raw) && literal(raw).Some? && Duration(literal(raw).value) == r.value
    ensures Truthy(raw) && literal(raw).Some? && Duration(literal(raw).value).Some? ==> r == Some(Duration(literal(raw).value))
    // A falsy raw value, an absent data point included, is skipped without a raise.
    ensures !Truthy(raw) ==> r == Some(None)
    // A truthy value the decoder rejects raises.
    ensures Truthy(raw) && literal(raw).None? ==> r.None?
    // A decoded None, bool or int raises on `in`.
    ensures var d := literal(raw);
            Truthy(raw) && d.Some? && (d.value.Null? || d.value.Bool? || d.value.Int?) ==> r.None?
    // A decoded dict without `consumable`, or whose `consumable` is a dict without `duration`, leaves the attribute alone.
    ensures var d := literal(raw);
            Truthy(raw) && d.Some? && d.value.Obj? ==>
              var inner := Member(d.value.members, "consumable");
              && (inner.None? ==> r == Some(None))
              && (inner.Some? && inner.value.Obj? && Member(inner.value.members, "duration").None? ==> r == Some(None))
    // A dict whose `consumable` entry is absent or a dict never raises.
    ensures var d := literal(raw);
            Truthy(raw) && d.Some? && d.value.Obj? ==>
              var inner := Member(d.value.members, "consumable");
              (inner.None? || inner.value.Obj?) ==> r.Some?
  {
    if !Truthy(raw) then Some(None)
    else
      match literal(raw)
      case None => None
      case Some(d) =>
        match Contains(d, "consumable")
        case None => None
        case Some(hasConsumable) =>
          if !hasConsumable then Some(None)
          else
            match Index(d, "consumable")
            case None => None
            case Some(inner) =>
              match Contains(inner, "duration")
              case None => None
              case Some(hasDuration) =>
                if !hasDuration then Some(None)
                else
                  match Index(inner, "duration")
                  case None => None
                  case Some(x) => Some(Some(x))
  }

  /**
   * When the decode raises: the status or error value is a list or dict,
   * the fan-speed key holds something other than a str, or the consumables
   * step raises for a model with that capability.
   */
  predicate DecodeRaises(c: Config, snap: Snapshot, literal: Value -> Option<Value>)
    requires CompleteCodes(c.codes)
  {
    || !Hashable(Get(snap, c.codes[Status]))
    || !Hashable(Get(snap, c.codes[ErrorCode]))
    || !FanSpeedRaw(c, snap).Str?
    || (Consumables in c.features && ConsumablesStep(Get(snap, c.codes[Gated(Consumables)]), literal).None?)
  }

  /**
   * A falsy consumables value, an absent data point included, never makes the
   * decode raise: only the status, error and fan-speed values can.
   */
  lemma FalsyConsumablesNeverRaise(c: Config, snap: Snapshot, literal: Value -> Option<Value>)
    requires CompleteCodes(c.codes)
    requires !Truthy(Get(snap, c.codes[Gated(Consumables)]))
    ensures DecodeRaises(c, snap, literal) <==>
              || !Hashable(Get(snap, c.codes[Status]))
              || !Hashable(Get(snap, c.codes[ErrorCode]))
              || !FanSpeedRaw(c, snap).Str?
  {
  }

  datatype Decoded = Decoded(entity: Entity, raised: bool)

  /** One capability-gated assignment: the raw value when the bit is set, else the previous value. */
  function Gate(c: Config, snap: Snapshot, f: Feature, previous: Value): Value
    requires CompleteCodes(c.codes)
  {
    if f in c.features then Get(snap, c.codes[Gated(f)]) else previous
  }

  /** The capability-gated assignments of the five plain attributes, which cannot raise. */
  function ApplyGates(e: Entity, c: Config, snap: Snapshot): (r: Entity)
    requires CompleteCodes(c.codes)
    ensures forall f :: f != Consumables && f !in c.features ==> GatedField(r, f) == GatedField(e, f)
    ensures forall f :: f != Consumables && f in c.features ==> GatedField(r, f) == Get(snap, c.codes[Gated(f)])
    ensures r.consumables == e.consumables
  {
    e.(cleaningArea := Gate(c, snap, CleaningArea, e.cleaningArea),
       cleaningTime := Gate(c, snap, CleaningTime, e.cleaningTime),
       autoReturn := Gate(c, snap, AutoReturn, e.autoReturn),
       doNotDisturb := Gate(c, snap, DoNotDisturb, e.doNotDisturb),
       boostIq := Gate(c, snap, BoostIq, e.boostIq))
  }

  /**
   * `update_entity_values`. The method assigns the fields one after another,
   * so an exception leaves the fields assigned before it changed and the
   * rest as they were: `raised` says an exception escaped, and `entity` is
   * the state at that point.
   */
  function UpdateEntityValues(e: Entity, snap: Snapshot, literal: Value -> Option<Value>): (d: Decoded)
    requires e.config.Some? && CompleteCodes(e.config.value.codes)
    ensures d.entity.config == e.config && d.entity.ipAddress == e.ipAddress
    ensures d.entity.updateFailures == e.updateFailures && d.entity.available == e.available
    ensures d.entity.tuyaStatus == Some(snap)
    ensures d.entity.batteryLevel == DecodeBattery(Get(snap, e.config.value.codes[Battery]))
    ensures d.raised <==> DecodeRaises(e.config.value, snap, literal)
    ensures d.entity.errorCode != e.errorCode && d.entity.errorCode.Some? ==> d.entity.errorCode.value in Protocol.ErrorMapping.Values
    ensures !d.raised ==>
              && d.entity.tuyaState == Protocol.StatusLabel(Get(snap, e.config.value.codes[Status]))
              && d.entity.errorCode == Protocol.ErrorLabel(Get(snap, e.config.value.codes[ErrorCode]))
              && d.entity.mode == Get(snap, e.config.value.codes[Mode])
              && d.entity.fanSpeed == Some(Text.FriendlyText(FanSpeedRaw(e.config.value, snap).s))
    ensures forall f :: f !in e.config.value.features ==> GatedField(d.entity, f) == GatedField(e, f)
    ensures !d.raised ==>
              forall f :: f != Consumables && f in e.config.value.features ==>
                GatedField(d.entity, f) == Get(snap, e.config.value.codes[Gated(f)])
    ensures d.entity.consumables != e.consumables ==>
              var raw := Get(snap, e.config.value.codes[Gated(Consumables)]);
              && Consumables in e.config.value.features && Truthy(raw)
              && literal(raw).Some? && Duration(literal(raw).value) == Some(d.entity.consumables)
    ensures !d.raised && Consumables in e.config.value.features ==>
              var step := ConsumablesStep(Get(snap, e.config.value.codes[Gated(Consumables)]), literal);
              && (step == Some(None) ==> d.entity.consumables == e.consumables)
              && (step.Some? && step.value.Some? ==> d.entity.consumables == step.value.value)
  {
    var c := e.config.value;
    var e1 := e.(tuyaStatus := Some(snap), batteryLevel := DecodeBattery(Get(snap, c.codes[Battery])));
    var status := Get(snap, c.codes[Status]);
    if !Hashable(status) then
      SameGatedFields(e, e1);
      Decoded(e1, true)
    else
      var e2 := e1.(tuyaState := Protocol.StatusLabel(status));
      var error := Get(snap, c.codes[ErrorCode]);
      if !Hashable(error) then
        SameGatedFields(e, e2);
        Decoded(e2, true)
      else
        var e3 := e2.(errorCode := Protocol.ErrorLabel(error), mode := Get(snap, c.codes[Mode]));
        SameGatedFields(e, e3);
        DecodeRest(e3, c, snap, literal)
  }

  lemma SameGatedFields(e: Entity, e': Entity)
    requires e'.cleaningArea == e.cleaningArea && e'.cleaningTime == e.cleaningTime && e'.autoReturn == e.autoReturn
    requires e'.doNotDisturb == e.doNotDisturb && e'.boostIq == e.boostIq && e'.consumables == e.consumables
    ensures forall f :: GatedField(e', f) == GatedField(e, f)
  {
  }

  /**
   * The rest of the decode, once the status, error and mode are assigned:
   * the fan speed, the capability-gated attributes and the consumables.
   */
  function DecodeRest(e: Entity, c: Config, snap: Snapshot, literal: Value -> Option<Value>): (d: Decoded)
    requires CompleteCodes(c.codes)
    ensures d.entity.config == e.config && d.entity.ipAddress == e.ipAddress
    ensures d.entity.updateFailures == e.updateFailures && d.entity.available == e.available
    ensures d.entity.tuyaStatus == e.tuyaStatus && d.entity.batteryLevel == e.batteryLevel
    ensures d.entity.tuyaState == e.tuyaState && d.entity.errorCode == e.errorCode && d.entity.mode == e.mode
    ensures d.raised <==> !FanSpeedRaw(c, snap).Str?
                          || (Consumables in c.features && ConsumablesStep(Get(snap, c.codes[Gated(Consumables)]), literal).None?)
    ensures !d.raised ==> d.entity.fanSpeed == Some(Text.FriendlyText(FanSpeedRaw(c, snap).s))
    ensures forall f :: f !in c.features ==> GatedField(d.entity, f) == GatedField(e, f)
    ensures !d.raised ==>
              forall f :: f != Consumables && f in c.features ==> GatedField(d.entity, f) == Get(snap, c.codes[Gated(f)])
    ensures d.entity.consumables != e.consumables ==>
              var raw := Get(snap, c.codes[Gated(Consumables)]);
              && Consumables in c.features && Truthy(raw)
              && literal(raw).Some? && Duration(literal(raw).value) == Some(d.entity.consumables)
    ensures !d.raised && Consumables in c.features ==>
              var step := ConsumablesStep(Get(snap, c.codes[Gated(Consumables)]), literal);
              && (step == Some(None) ==> d.entity.consumables == e.consumables)
              && (step.Some? && step.value.Some? ==> d.entity.consumables == step.value.value)
  {
    var fan := FanSpeedRaw(c, snap);
    if !fan.Str? then Decoded(e, true)
    else
      var e1 := ApplyGates(e.(fanSpeed := Some(Text.FriendlyText(fan.s))), c, snap);
      if Consumables !in c.features then Decoded(e1, false)
      else
        match ConsumablesStep(Get(snap, c.codes[Gated(Consumables)]), literal)
        case None => Decoded(e1, true)
        case Some(None) => Decoded(e1, false)
        case Some(Some(x)) => Decoded(e1.(consumables := x), false)
  }

  // ---- properties of the decoder ----

  /** A decimal string decodes to its value: `int("85")` is 85. */
  lemma DecodeBatteryOfDecimal(level: int)
    ensures DecodeBattery(Str(Decimal.FormatInt(level))) == Some(level)
  {
    Decimal.ParseIntOfFormatInt(level);
  }

  /** An absent key and a value that is not a number decode to no level, without raising. */
  lemma DecodeBatteryRejects()
    ensures DecodeBattery(Null) == None
    ensures DecodeBattery(Str("abc")) == None
    ensures DecodeBattery(Str("")) == None
  {
    assert !Decimal.IsDigit('a');
    assert "abc"[0..] == "abc";
  }

  /**
   * Apart from the capability-gated attributes, what a decode writes depends
   * only on the configuration and the snapshot, not on the previous state.
   */
  lemma UpdateEntityValuesForgetsPrevious(e: Entity, e': Entity, snap: Snapshot, literal: Value -> Option<Value>)
    requires e.config.Some? && CompleteCodes(e.config.value.codes)
    requires e'.config == e.config
    ensures var d, d' := UpdateEntityValues(e, snap, literal), UpdateEntityValues(e', snap, literal);
            && d.raised == d'.raised
            && d.entity.batteryLevel == d'.entity.batteryLevel
            && (!d.raised ==> d.entity.tuyaState == d'.entity.tuyaState && d.entity.errorCode == d'.entity.errorCode
                              && d.entity.mode == d'.entity.mode && d.entity.fanSpeed == d'.entity.fanSpeed)
  {
  }

  /**
   * The decode is not atomic: when the status value is a list, the battery
   * level is already replaced but the status label keeps its old value.
   */
  lemma StatusListLeavesPartialUpdate(e: Entity, snap: Snapshot, literal: Value -> Option<Value>)
    requires e.config.Some? && CompleteCodes(e.config.value.codes)
    requires Get(snap, e.config.value.codes[Status]).Arr?
    ensures var d := UpdateEntityValues(e, snap, literal);
            && d.raised
            && d.entity.batteryLevel == DecodeBattery(Get(snap, e.config.value.codes[Battery]))
            && d.entity.tuyaState == e.tuyaState && d.entity.errorCode == e.errorCode
            && d.entity.fanSpeed == e.fanSpeed
  {
  }

  /** A decode never records the unsupported-model code, so it keeps a supported entity recognisable as supported. */
  lemma UpdateEntityValuesKeepsSupported(e: Entity, snap: Snapshot, literal: Value -> Option<Value>)
    requires e.config.Some? && CompleteCodes(e.config.value.codes)
    requires e.errorCode != Some(UnsupportedModel)
    ensures UpdateEntityValues(e, snap, literal).entity.errorCode != Some(UnsupportedModel)
  {
    ErrorLabelsExcluded();
  }

  /** No error label is empty or the unsupported-model code. */
  lemma ErrorLabelsExcluded()
    ensures UnsupportedModel !in Protocol.ErrorMapping.Values
    ensures "" !in Protocol.ErrorMapping.Values
  {
    forall l | l in Protocol.ErrorMapping.Values
      ensures l != UnsupportedModel && l != ""
    {
      var k :| k in Protocol.ErrorMapping && Protocol.ErrorMapping[k] == l;
    }
  }

  /**
   * The error codes the entity ever holds: None, the three codes the entity
   * sets itself, and the labels of the error table.
   */
  predicate StoredErrorCode(code: Option<string>) {
    || code.None?
    || code.value == UnsupportedModel || code.value == IpAddressMissing || code.value == ConnectionFailed
    || code.value in Protocol.ErrorMapping.Values
  }

  lemma NewEntityStoresKnownCode(ipAddress: string, device: Option<DeviceSpec>)
    ensures StoredErrorCode(NewEntity(ipAddress, device).errorCode)
  {
  }

  /** A decode keeps the error code among the stored codes. */
  lemma UpdateEntityValuesStoresKnownCode(e: Entity, snap: Snapshot, literal: Value -> Option<Value>)
    requires e.config.Some? && CompleteCodes(e.config.value.codes)
    requires StoredErrorCode(e.errorCode)
    ensures StoredErrorCode(UpdateEntityValues(e, snap, literal).entity.errorCode)
  {
  }
}
