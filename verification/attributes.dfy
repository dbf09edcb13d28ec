/**
 * `extra_state_attributes`: the device-specific attributes the entity
 * exposes, each present only under its condition.
 */
module Attributes {
  import opened Wrappers
  import opened Values
  import opened Device
  import Protocol

  const ErrorKey: string := "error"
  const ModeKey: string := "mode"

  /** The attribute name of each capability-gated field. */
  function AttributeName(f: Feature): string {
    match f
    case CleaningArea => "cleaning_area"
    case CleaningTime => "cleaning_time"
    case AutoReturn => "auto_return"
    case DoNotDisturb => "do_not_disturb"
    case BoostIq => "boost_iq"
    case Consumables => "consumables"
  }

  /** The condition of the error attribute: a code that is not None and not one of `0` and `"no_error"`. */
  predicate ReportsError(errorCode: Option<string>) {
    errorCode.Some? && errorCode.value != "no_error"
  }

  /** True when the attribute of `f` is shown: its bit is set and its value is truthy. */
  predicate Shown(e: Entity, c: Config, f: Feature) {
    f in c.features && Truthy(GatedField(e, f))
  }

  lemma AttributeNamesDistinct()
    ensures forall f, g :: AttributeName(f) == AttributeName(g) ==> f == g
    ensures forall f :: AttributeName(f) != ErrorKey && AttributeName(f) != ModeKey
  {
  }

  /** The capability-gated attributes, in the order the source adds them. */
  const GatedOrder: seq<Feature> := [CleaningArea, CleaningTime, AutoReturn, DoNotDisturb, BoostIq, Consumables]

  /** Adds the attributes of `fs`, one after another, each when it is shown. */
  function AddGated(data: map<string, Value>, e: Entity, c: Config, fs: seq<Feature>): (r: map<string, Value>)
    requires forall f :: AttributeName(f) !in data
    ensures forall k :: k in data ==> k in r && r[k] == data[k]
    ensures forall k :: k in r ==> k in data || exists f :: f in fs && k == AttributeName(f)
    ensures forall f :: f in fs ==> (AttributeName(f) in r <==> Shown(e, c, f))
    ensures forall f :: f in fs && Shown(e, c, f) ==> r[AttributeName(f)] == GatedField(e, f)
    ensures forall f :: f !in fs ==> AttributeName(f) !in r
  {
    AttributeNamesDistinct();
    if |fs| == 0 then data
    else
      var front := fs[..|fs| - 1];
      var f := fs[|fs| - 1];
      assert fs == front + [f];
      var r := AddGated(data, e, c, front);
      if Shown(e, c, f) then r[AttributeName(f) := GatedField(e, f)] else r
  }

  /**
   * The attribute dict. `message` stands for the error-message table, which
   * is not part of this model. None stands for the TypeError an unsupported
   * model raises, whose capability mask is None.
   */
  function ExtraStateAttributes(e: Entity, message: string -> string): (r: Option<map<string, Value>>)
    ensures r.None? <==> e.config.None?
    ensures r.Some? ==> (ErrorKey in r.value <==> ReportsError(e.errorCode))
    ensures r.Some? && ReportsError(e.errorCode) ==> r.value[ErrorKey] == Str(message(e.errorCode.value))
    ensures r.Some? ==> forall f :: (AttributeName(f) in r.value <==> Shown(e, e.config.value, f))
    ensures r.Some? ==> forall f :: AttributeName(f) in r.value ==> r.value[AttributeName(f)] == GatedField(e, f)
    ensures r.Some? ==> (ModeKey in r.value <==> Truthy(e.mode))
    ensures r.Some? && Truthy(e.mode) ==> r.value[ModeKey] == e.mode
    ensures r.Some? ==> forall k :: k in r.value ==>
                          k == ErrorKey || k == ModeKey || exists f :: k == AttributeName(f)
  {
    match e.config
    case None => None
    case Some(c) =>
      AttributeNamesDistinct();
      var data := AddGated(ErrorEntry(e.errorCode, message), e, c, GatedOrder);
      assert forall f :: f in GatedOrder;
      Some(WithMode(data, e.mode))
  }

  /** The dict the attributes start from: the error entry alone, when the code reports one. */
  function ErrorEntry(errorCode: Option<string>, message: string -> string): (r: map<string, Value>)
    ensures ErrorKey in r <==> ReportsError(errorCode)
    ensures ReportsError(errorCode) ==> r[ErrorKey] == Str(message(errorCode.value))
    ensures forall k :: k in r ==> k == ErrorKey
  {
    if ReportsError(errorCode) then map[ErrorKey := Str(message(errorCode.value))] else map[]
  }

  /** Adds the mode entry last, when the mode is truthy; every other entry is kept. */
  function WithMode(data: map<string, Value>, mode: Value): (r: map<string, Value>)
    ensures ModeKey in r <==> ModeKey in data || Truthy(mode)
    ensures Truthy(mode) ==> r[ModeKey] == mode
    ensures forall k :: k != ModeKey ==> (k in r <==> k in data)
    ensures forall k :: k != ModeKey && k in data ==> r[k] == data[k]
  {
    if Truthy(mode) then data[ModeKey := mode] else data
  }

  /**
   * The error attribute and the error activity use different conditions:
   * they agree on every code except the empty string, which the attribute
   * reports and the activity does not count as a fault.
   */
  lemma ErrorConditionsDiffer(errorCode: Option<string>)
    ensures errorCode != Some("") ==> (ReportsError(errorCode) <==> Protocol.IsFault(errorCode))
    ensures ReportsError(Some("")) && !Protocol.IsFault(Some(""))
  {
  }

  /**
   * The empty code is never stored, so on every code the entity can hold the
   * attribute's error condition and the activity's fault condition agree.
   * Once a status has been read, the error attribute is shown exactly when
   * the activity is ERROR; with no status read the activity is IDLE, whether
   * or not the attribute is shown.
   */
  lemma ErrorConditionsAgreeOnStoredCodes(tuyaState: Option<string>, errorCode: Option<string>)
    requires StoredErrorCode(errorCode)
    ensures ReportsError(errorCode) <==> Protocol.IsFault(errorCode)
    ensures tuyaState.Some? ==> (ReportsError(errorCode) <==> Protocol.ActivityOf(tuyaState, errorCode) == Protocol.Error)
    ensures tuyaState.None? ==> Protocol.ActivityOf(tuyaState, errorCode) == Protocol.Idle
  {
    ErrorLabelsExcluded();
  }

  /**
   * Before any status read, the warm-up's IP_ADDRESS and the poll's
   * CONNECTION_FAILED are stored codes the error attribute shows while the
   * activity is IDLE.
   */
  lemma ErrorShownWhileIdle()
    ensures StoredErrorCode(Some(IpAddressMissing)) && StoredErrorCode(Some(ConnectionFailed))
    ensures ReportsError(Some(IpAddressMissing)) && Protocol.ActivityOf(None, Some(IpAddressMissing)) == Protocol.Idle
    ensures ReportsError(Some(ConnectionFailed)) && Protocol.ActivityOf(None, Some(ConnectionFailed)) == Protocol.Idle
  {
  }
}
