/**
 * The L60's wire vocabulary: the base64 status blobs the device reports, the
 * status names and labels they stand for, the error blobs, and the
 * precedence that turns a status label and an error label into the activity
 * the vacuum entity shows.
 */
module Protocol {
  import opened Wrappers
  import opened Values

  /** Status blob on the wire to status name. */
  const TuyaStatusMapping: map<string, string> := map[
    "BgoAEAUyAA==" := "AUTO",
    "BgoAEAVSAA==" := "POSITION",
    "CAoAEAUyAggB" := "PAUSE",
    "CAoCCAEQBTIA" := "ROOM",
    "CAoCCAEQBVIA" := "ROOM_POSITION",
    "CgoCCAEQBTICCAE=" := "ROOM_PAUSE",
    "CAoCCAIQBTIA" := "SPOT",
    "CAoCCAIQBVIA" := "SPOT_POSITION",
    "CgoCCAIQBTICCAE=" := "SPOT_PAUSE",
    "BAoAEAY=" := "START_MANUAL",
    "BBAHQgA=" := "GOING_TO_CHARGE",
    "BBADGgA=" := "CHARGING",
    "BhADGgIIAQ==" := "COMPLETED",
    "AA==" := "STANDBY",
    "AhAB" := "SLEEPING"
  ]

  /** Status name to the label kept in `tuya_state`. */
  const StatusMapping: map<string, string> := map[
    "AUTO" := "Auto cleaning",
    "POSITION" := "Positioning",
    "PAUSE" := "Cleaning paused",
    "ROOM" := "Cleaning room",
    "ROOM_POSITION" := "Positioning room",
    "ROOM_PAUSE" := "Cleaning room paused",
    "SPOT" := "Spot cleaning",
    "SPOT_POSITION" := "Positioning spot",
    "SPOT_PAUSE" := "Cleaning spot paused",
    "START_MANUAL" := "Manual mode",
    "GOING_TO_CHARGE" := "Recharge",
    "CHARGING" := "Charging",
    "COMPLETED" := "Completed",
    "STANDBY" := "Standby",
    "SLEEPING" := "Sleeping"
  ]

  /** Error blob on the wire to error label. */
  const ErrorMapping: map<string, string> := map[
    "DAiI6suO9dXszgFSAA==" := "no_error",
    "FAjwudWorOPszgEaAqURUgQSAqUR" := "Sidebrush stuck",
    "FAj+nMu7zuPszgEaAtg2UgQSAtg2" := "Robot stuck",
    "DAjtzbfps+XszgFSAA==" := "no_error",
    "DAiom9rd6eTszgFSAA==" := "no_error",
    "DAia8JTV5OPszgFSAA==" := "no_error",
    "DAj489bWsePszgFSAA==" := "no_error"
  ]

  const NoError: string := "no_error"

  /** `d.get(v, None)` on a dict with str keys: only a str equal to a key is found. */
  function TableGet(table: map<string, string>, v: Value): Option<string>
    requires Hashable(v)
  {
    if v.Str? && v.s in table then Some(table[v.s]) else None
  }

  /**
   * The two-stage status decode: the wire value to a status name, then the
   * name to its label. The caller has ruled out the unhashable values, for
   * which the first lookup raises TypeError.
   */
  function StatusLabel(v: Value): (r: Option<string>)
    requires Hashable(v)
    ensures r.Some? <==> v.Str? && v.s in TuyaStatusMapping
    ensures r.Some? ==> r.value in StatusMapping.Values
  {
    var name := TableGet(TuyaStatusMapping, v);
    if name.Some? then TableGet(StatusMapping, Str(name.value)) else None
  }

  /** The error decode: the wire value to its label, None for an unknown value. */
  function ErrorLabel(v: Value): (r: Option<string>)
    requires Hashable(v)
    ensures r.Some? <==> v.Str? && v.s in ErrorMapping
    ensures r.Some? ==> r.value in ErrorMapping.Values
  {
    TableGet(ErrorMapping, v)
  }

  // ---- activity ----

  datatype Activity = Cleaning | Docked | Error | Idle | Paused | Returning

  /**
   * The error condition of `activity`: an error code that is truthy, not one
   * of `0` and `"no_error"`, and not None. Codes are strings, so `0` never
   * matches.
   */
  predicate IsFault(errorCode: Option<string>) {
    errorCode.Some? && errorCode.value != "" && errorCode.value != NoError
  }

  const DockedLabels: set<string> := {"Charging", "Completed"}
  const IdleLabels: set<string> := {"Sleeping", "Standby"}
  const ReturningLabel: string := "Recharge"
  const PausedLabel: string := "Cleaning paused"

  /** `activity`: the first rule that applies, in source order. */
  function ActivityOf(tuyaState: Option<string>, errorCode: Option<string>): (a: Activity)
    ensures a == Error <==> tuyaState.Some? && IsFault(errorCode)
    ensures a == Idle <==> tuyaState.None? || (!IsFault(errorCode) && tuyaState.value in IdleLabels)
    ensures a == Docked <==> tuyaState.Some? && !IsFault(errorCode) && tuyaState.value in DockedLabels
    ensures a == Returning <==> tuyaState.Some? && !IsFault(errorCode) && tuyaState.value == ReturningLabel
    ensures a == Paused <==> tuyaState.Some? && !IsFault(errorCode) && tuyaState.value == PausedLabel
    ensures a == Cleaning <==>
              tuyaState.Some? && !IsFault(errorCode)
              && tuyaState.value !in DockedLabels + IdleLabels + {ReturningLabel, PausedLabel}
  {
    if tuyaState.None? then Idle
    else if IsFault(errorCode) then Error
    else if tuyaState.value in DockedLabels then Docked
    else if tuyaState.value == ReturningLabel then Returning
    else if tuyaState.value in IdleLabels then Idle
    else if tuyaState.value == PausedLabel then Paused
    else Cleaning
  }

  // ---- the tables, read together ----

  /** Every status blob resolves through both tables to a label; the lookup is total on the blobs. */
  lemma StatusTablesCompose()
    ensures forall blob :: blob in TuyaStatusMapping ==> TuyaStatusMapping[blob] in StatusMapping
    ensures forall blob :: blob in TuyaStatusMapping ==> StatusLabel(Str(blob)).Some?
  {
  }

  /**
   * What each status name shows when no fault is reported, written out name
   * by name. It agrees with `ActivityOf` applied to the name's label.
   */
  const ActivityOfName: map<string, Activity> := map[
    "AUTO" := Cleaning,
    "POSITION" := Cleaning,
    "PAUSE" := Paused,
    "ROOM" := Cleaning,
    "ROOM_POSITION" := Cleaning,
    "ROOM_PAUSE" := Cleaning,
    "SPOT" := Cleaning,
    "SPOT_POSITION" := Cleaning,
    "SPOT_PAUSE" := Cleaning,
    "START_MANUAL" := Cleaning,
    "GOING_TO_CHARGE" := Returning,
    "CHARGING" := Docked,
    "COMPLETED" := Docked,
    "STANDBY" := Idle,
    "SLEEPING" := Idle
  ]

  /** With no fault, each status name's label shows the activity listed for the name. */
  lemma ActivityOfEveryName(name: string, errorCode: Option<string>)
    requires name in StatusMapping
    requires !IsFault(errorCode)
    ensures name in ActivityOfName
    ensures ActivityOf(Some(StatusMapping[name]), errorCode) == ActivityOfName[name]
  {
  }

  /** With no fault, each status blob shows the activity listed for its status name. */
  lemma ActivityOfEveryBlob(blob: string, errorCode: Option<string>)
    requires blob in TuyaStatusMapping
    requires !IsFault(errorCode)
    ensures TuyaStatusMapping[blob] in ActivityOfName
    ensures ActivityOf(StatusLabel(Str(blob)), errorCode) == ActivityOfName[TuyaStatusMapping[blob]]
  {
    StatusTablesCompose();
    ActivityOfEveryName(TuyaStatusMapping[blob], errorCode);
  }

  /** A value that is not one of the status blobs decodes to no status, and the entity shows idle. */
  lemma UnknownStatusIsIdle(v: Value, errorCode: Option<string>)
    requires Hashable(v)
    requires !(v.Str? && v.s in TuyaStatusMapping)
    ensures StatusLabel(v) == None
    ensures ActivityOf(StatusLabel(v), errorCode) == Idle
  {
  }

  /** The error blobs labelled `no_error` never make the entity show an error. */
  lemma NoErrorBlobsAreNotFaults(v: Value)
    requires Hashable(v)
    requires ErrorLabel(v) == Some(NoError)
    ensures forall s :: ActivityOf(s, ErrorLabel(v)) != Error
  {
  }

  /** Of the three pause labels only `Cleaning paused` shows as paused; the room and spot pauses show as cleaning. */
  lemma RoomAndSpotPausesShowCleaning(errorCode: Option<string>)
    requires !IsFault(errorCode)
    ensures ActivityOf(Some("Cleaning paused"), errorCode) == Paused
    ensures ActivityOf(Some("Cleaning room paused"), errorCode) == Cleaning
    ensures ActivityOf(Some("Cleaning spot paused"), errorCode) == Cleaning
  {
  }
}
