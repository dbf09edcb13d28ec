/**
 * The entity's commands as plans: the data-point writes each command makes,
 * in order, and the refreshes it schedules. A write is one `async_set` of a
 * one-entry dict; a refresh is one scheduled forced update.
 */
module Commands {
  import opened Wrappers
  import opened Values
  import Device
  import Json
  import Base64

  datatype Step = Write(key: string, value: Value) | Refresh

  datatype Intent =
    | Locate
    | ReturnToBase
    | Start
    | Pause
    | Stop
    | CleanSpot
    | SetFanSpeed(name: string)
    | SendCommand(command: string, params: Value)

  /** The MODE values of the fixed commands. */
  const StartValue: string := "BBoCCAE="
  const PauseValue: string := "AggN"
  const ReturnValue: string := "AggG"
  const SpotValue: string := "Spot"

  /** The keys and values `async_send_command` writes to directly. */
  const CleanTypeKey: string := "5"
  const AutoCleanKey: string := "152"
  const AutoReturnKey: string := "135"
  const QuietHoursKey: string := "139"
  const DoNotDisturbKey: string := "107"
  const BoostIqKey: string := "118"
  const RoomCleanKey: string := "124"
  const QuietHoursOff: string := "MEQ4MDAwMDAw"
  const QuietHoursOn: string := "MTAwMDAwMDAw"

  /** The request `roomClean` serialises, with its keys in insertion order. */
  function RoomCleanRequest(roomIds: Value, count: Value, timestamp: int): Value {
    Obj([("method", Str("selectRoomsClean")),
         ("data", Obj([("roomIds", roomIds), ("cleanTimes", count)])),
         ("timestamp", Int(timestamp))])
  }

  /** `s.encode("utf8")` for text that is ASCII: one byte per character. */
  function AsciiBytes(s: string): (b: seq<Base64.byte>)
    requires Json.IsPrintableAscii(s)
    ensures |b| == |s|
    ensures forall i :: 0 <= i < |b| ==> b[i] == s[i] as int
  {
    seq(|s|, i requires 0 <= i < |s| => s[i] as int as Base64.byte)
  }

  /** The text whose characters have the codes `b`, the inverse of `AsciiBytes`. */
  function AsciiText(b: seq<Base64.byte>): (s: string)
    ensures |s| == |b|
  {
    seq(|b|, i requires 0 <= i < |b| => b[i] as char)
  }

  lemma AsciiTextOfBytes(s: string)
    requires Json.IsPrintableAscii(s)
    ensures AsciiText(AsciiBytes(s)) == s
  {
    var t := AsciiText(AsciiBytes(s));
    forall i | 0 <= i < |s|
      ensures t[i] == s[i]
    {
    }
  }

  /** The base64 text `roomClean` writes for a request. */
  function RoomCleanPayload(roomIds: Value, count: Value, timestamp: int): string {
    var text := Json.Serialize(RoomCleanRequest(roomIds, count, timestamp));
    Json.SerializeIsPrintable(RoomCleanRequest(roomIds, count, timestamp));
    Base64.Encode(AsciiBytes(text))
  }

  /** The writes of `async_send_command` before its refresh; None when `params.get` raises. */
  function SendCommandWrites(e: Device.Entity, command: string, params: Value, timestamp: int): (r: Option<seq<Step>>)
    ensures r.Some? ==> |r.value| > 0 && forall i :: 0 <= i < |r.value| ==> r.value[i].Write?
    ensures r.None? <==>
              && command !in {"edgeClean", "smallRoomClean", "autoClean", "autoReturn", "doNotDisturb", "boostIQ"}
              && Truthy(params) && !params.Obj?
  {
    if command == "edgeClean" then Some([Write(CleanTypeKey, Str("Edge"))])
    else if command == "smallRoomClean" then Some([Write(CleanTypeKey, Str("SmallRoom"))])
    else if command == "autoClean" then Some([Write(AutoCleanKey, Str(StartValue))])
    else if command == "autoReturn" then Some([Write(AutoReturnKey, Bool(!Truthy(e.autoReturn)))])
    else if command == "doNotDisturb" then
      if Truthy(e.doNotDisturb) then Some([Write(QuietHoursKey, Str(QuietHoursOff)), Write(DoNotDisturbKey, Bool(false))])
      else Some([Write(QuietHoursKey, Str(QuietHoursOn)), Write(DoNotDisturbKey, Bool(true))])
    else if command == "boostIQ" then Some([Write(BoostIqKey, Bool(!Truthy(e.boostIq)))])
    else if command == "roomClean" then
      match (ParamsGet(params, "roomIds", Arr([Int(1)])), ParamsGet(params, "count", Int(1)))
      case (Some(roomIds), Some(count)) => Some([Write(RoomCleanKey, Str(RoomCleanPayload(roomIds, count, timestamp)))])
      case _ => None
    else
      match ParamsGet(params, "value", Str(""))
      case Some(v) => Some([Write(command, v)])
      case None => None
  }

  /** The locate toggle's condition: a snapshot has been read and its locate value is truthy. */
  predicate Locating(e: Device.Entity, code: string) {
    e.tuyaStatus.Some? && |e.tuyaStatus.value| > 0 && Truthy(Get(e.tuyaStatus.value, code))
  }

  /**
   * The plan of a command: its writes and refreshes in order. None stands for
   * an exception before any write: an unsupported model has no command codes
   * and no device, `fan_speed_map[name]` raises KeyError for an unknown name,
   * and `params.get` raises AttributeError on a truthy non-dict.
   * `timestamp` is the clock reading `roomClean` sends, in milliseconds.
   */
  function Plan(e: Device.Entity, intent: Intent, timestamp: int): (r: Option<seq<Step>>)
    requires e.config.Some? ==> Device.CompleteCodes(e.config.value.codes)
    ensures e.config.None? ==> r.None?
    ensures e.config.Some? ==>
              (r.None? <==> || (intent.SetFanSpeed? && intent.name !in e.config.value.fanSpeedMap)
                            || (intent.SendCommand? && SendCommandWrites(e, intent.command, intent.params, timestamp).None?))
  {
    match e.config
    case None => None
    case Some(c) =>
      var mode := c.codes[Device.Mode];
      match intent
      case Locate =>
        var code := c.codes[Device.Locate];
        Some([Write(code, Bool(!Locating(e, code))), Refresh])
      case ReturnToBase => Some([Write(mode, Str(ReturnValue)), Refresh])
      case Start => Some([Write(mode, Str(StartValue)), Refresh])
      case Pause => Some([Write(mode, Str(PauseValue)), Refresh])
      case Stop => Some([Write(mode, Str(ReturnValue)), Refresh, Refresh])
      case CleanSpot => Some([Write(mode, Str(SpotValue)), Refresh])
      case SetFanSpeed(name) =>
        if name in c.fanSpeedMap then Some([Write(c.codes[Device.FanSpeed], Str(c.fanSpeedMap[name])), Refresh])
        else None
      case SendCommand(command, params) =>
        match SendCommandWrites(e, command, params, timestamp)
        case None => None
        case Some(writes) => Some(writes + [Refresh])
  }

  // ---- running a plan against a device that may fail ----

  function Writes(steps: seq<Step>): (ws: seq<Step>)
    ensures |ws| <= |steps|
    ensures forall i :: 0 <= i < |ws| ==> ws[i].Write?
  {
    if |steps| == 0 then []
    else if steps[0].Write? then [steps[0]] + Writes(steps[1..])
    else Writes(steps[1..])
  }

  function Refreshes(steps: seq<Step>): nat {
    if |steps| == 0 then 0
    else (if steps[0].Refresh? then 1 else 0) + Refreshes(steps[1..])
  }

  /** All writes come before all refreshes. */
  predicate WritesFirst(steps: seq<Step>) {
    forall i, j :: 0 <= i < j < |steps| && steps[i].Refresh? ==> steps[j].Refresh?
  }

  /**
   * The steps that happen when the device accepts the first `accepted`
   * writes and the next one raises: the command stops there, so nothing
   * after the failing write happens.
   */
  function Run(steps: seq<Step>, accepted: nat): (done: seq<Step>)
    ensures done <= steps
  {
    if |steps| == 0 then []
    else if steps[0].Write? && accepted == 0 then []
    else [steps[0]] + Run(steps[1..], if steps[0].Write? then accepted - 1 else accepted)
  }

  lemma {:induction false} RunAll(steps: seq<Step>, accepted: nat)
    requires accepted >= |Writes(steps)|
    ensures Run(steps, accepted) == steps
  {
    if |steps| > 0 {
      RunAll(steps[1..], if steps[0].Write? then accepted - 1 else accepted);
    }
  }

  /** A write that fails stops the command before any of its refreshes. */
  lemma {:induction false} FailedWriteSchedulesNothing(steps: seq<Step>, accepted: nat)
    requires WritesFirst(steps)
    requires accepted < |Writes(steps)|
    ensures Refreshes(Run(steps, accepted)) == 0
    ensures |Writes(Run(steps, accepted))| == accepted
  {
    if steps[0].Refresh? {
      assert forall j :: 0 < j < |steps| ==> steps[j].Refresh?;
      RefreshesHaveNoWrites(steps);
      assert false;
    } else if accepted > 0 {
      assert WritesFirst(steps[1..]) by {
        forall i, j | 0 <= i < j < |steps| - 1 && steps[1..][i].Refresh?
          ensures steps[1..][j].Refresh?
        {
          assert steps[i + 1].Refresh?;
        }
      }
      FailedWriteSchedulesNothing(steps[1..], accepted - 1);
    }
  }

  lemma {:induction false} RefreshesHaveNoWrites(steps: seq<Step>)
    requires forall j :: 0 <= j < |steps| ==> steps[j].Refresh?
    ensures Writes(steps) == []
  {
    if |steps| > 0 {
      RefreshesHaveNoWrites(steps[1..]);
    }
  }

  // ---- what the plans promise ----

  /** Every command of a supported model writes first and then schedules exactly one refresh; stop schedules two. */
  lemma PlanShape(e: Device.Entity, intent: Intent, timestamp: int)
    requires e.config.Some? && Device.CompleteCodes(e.config.value.codes)
    requires Plan(e, intent, timestamp).Some?
    ensures var p := Plan(e, intent, timestamp).value;
            && WritesFirst(p) && |Writes(p)| > 0
            && Refreshes(p) == (if intent.Stop? then 2 else 1)
            && p[|p| - 1] == Refresh
  {
    var ws := PlanWrites(e, intent, timestamp);
    WritesThenRefreshes(ws, if intent.Stop? then 2 else 1);
  }

  /** A supported model's plan is a non-empty run of writes followed by its refreshes. */
  lemma PlanWrites(e: Device.Entity, intent: Intent, timestamp: int) returns (ws: seq<Step>)
    requires e.config.Some? && Device.CompleteCodes(e.config.value.codes)
    requires Plan(e, intent, timestamp).Some?
    ensures |ws| > 0 && forall i :: 0 <= i < |ws| ==> ws[i].Write?
    ensures Plan(e, intent, timestamp).value == ws + Refreshing(if intent.Stop? then 2 else 1)
  {
    var p := Plan(e, intent, timestamp).value;
    if intent.SendCommand? {
      ws := SendCommandWrites(e, intent.command, intent.params, timestamp).value;
    } else {
      ws := p[..1];
      assert p == ws + p[1..];
    }
  }

  /** `n` refreshes in a row. */
  function Refreshing(n: nat): (r: seq<Step>)
    ensures |r| == n && forall i :: 0 <= i < n ==> r[i] == Refresh
  {
    if n == 0 then [] else [Refresh] + Refreshing(n - 1)
  }

  lemma {:induction false} WritesThenRefreshes(ws: seq<Step>, n: nat)
    requires forall i :: 0 <= i < |ws| ==> ws[i].Write?
    ensures WritesFirst(ws + Refreshing(n))
    ensures Writes(ws + Refreshing(n)) == ws
    ensures Refreshes(ws + Refreshing(n)) == n
    decreases |ws|
  {
    if |ws| == 0 {
      assert ws + Refreshing(n) == Refreshing(n);
      RefreshingCount(n);
    } else {
      WritesThenRefreshes(ws[1..], n);
      assert (ws + Refreshing(n))[1..] == ws[1..] + Refreshing(n);
      assert [ws[0]] + ws[1..] == ws;
    }
  }

  lemma {:induction false} RefreshingCount(n: nat)
    ensures Writes(Refreshing(n)) == [] && Refreshes(Refreshing(n)) == n
  {
    if n > 0 {
      RefreshingCount(n - 1);
    }
  }

  /** `async_stop` makes the same writes as `async_return_to_base`. */
  lemma StopWritesAsReturn(e: Device.Entity, timestamp: int)
    requires e.config.Some? && Device.CompleteCodes(e.config.value.codes)
    ensures Writes(Plan(e, Stop, timestamp).value) == Writes(Plan(e, ReturnToBase, timestamp).value)
            == [Write(e.config.value.codes[Device.Mode], Str(ReturnValue))]
  {
  }

  /**
   * The fixed writes: start, pause and spot write their MODE value; edge,
   * small-room and auto cleaning write a fixed value to a fixed key. Each is
   * followed by one refresh.
   */
  lemma FixedCommandWrites(e: Device.Entity, params: Value, timestamp: int)
    requires e.config.Some? && Device.CompleteCodes(e.config.value.codes)
    ensures var mode := e.config.value.codes[Device.Mode];
            && Plan(e, Start, timestamp) == Some([Write(mode, Str("BBoCCAE=")), Refresh])
            && Plan(e, Pause, timestamp) == Some([Write(mode, Str("AggN")), Refresh])
            && Plan(e, CleanSpot, timestamp) == Some([Write(mode, Str("Spot")), Refresh])
            && Plan(e, SendCommand("edgeClean", params), timestamp) == Some([Write("5", Str("Edge")), Refresh])
            && Plan(e, SendCommand("smallRoomClean", params), timestamp) == Some([Write("5", Str("SmallRoom")), Refresh])
            && Plan(e, SendCommand("autoClean", params), timestamp) == Some([Write("152", Str("BBoCCAE=")), Refresh])
  {
    assert SendCommandWrites(e, "edgeClean", params, timestamp) == Some([Write(CleanTypeKey, Str("Edge"))]);
    assert [Write(CleanTypeKey, Str("Edge"))] + [Refresh] == [Write(CleanTypeKey, Str("Edge")), Refresh];
    assert SendCommandWrites(e, "smallRoomClean", params, timestamp) == Some([Write(CleanTypeKey, Str("SmallRoom"))]);
    assert [Write(CleanTypeKey, Str("SmallRoom"))] + [Refresh] == [Write(CleanTypeKey, Str("SmallRoom")), Refresh];
    assert SendCommandWrites(e, "autoClean", params, timestamp) == Some([Write(AutoCleanKey, Str(StartValue))]);
    assert [Write(AutoCleanKey, Str(StartValue))] + [Refresh] == [Write(AutoCleanKey, Str(StartValue)), Refresh];
  }

  /** A command whose only write fails schedules no refresh, whatever the command. */
  lemma FailingCommandSchedulesNothing(e: Device.Entity, intent: Intent, timestamp: int)
    requires e.config.Some? && Device.CompleteCodes(e.config.value.codes)
    requires Plan(e, intent, timestamp).Some?
    ensures Refreshes(Run(Plan(e, intent, timestamp).value, 0)) == 0
  {
    PlanShape(e, intent, timestamp);
    FailedWriteSchedulesNothing(Plan(e, intent, timestamp).value, 0);
  }

  /** The two-write sequence of `doNotDisturb`: quiet hours first, then the flag, the flag inverting the current value's truthiness. */
  lemma DoNotDisturbWrites(e: Device.Entity, params: Value, timestamp: int)
    ensures var w := SendCommandWrites(e, "doNotDisturb", params, timestamp);
            && w.Some? && |w.value| == 2
            && w.value[0].key == QuietHoursKey && w.value[1].key == DoNotDisturbKey
            && w.value[0].value == Str(if Truthy(e.doNotDisturb) then QuietHoursOff else QuietHoursOn)
            && w.value[1].value == Bool(!Truthy(e.doNotDisturb))
  {
  }

  /** An unrecognised command name is written as a key, with the `value` parameter or "" as its value. */
  lemma PassThroughWrites(e: Device.Entity, command: string, params: Value, timestamp: int)
    requires command !in {"edgeClean", "smallRoomClean", "autoClean", "autoReturn", "doNotDisturb", "boostIQ", "roomClean"}
    requires params.Obj? || !Truthy(params)
    ensures SendCommandWrites(e, command, params, timestamp)
            == Some([Write(command, ParamsGet(params, "value", Str("")).value)])
    ensures params.Obj? && Member(params.members, "value").Some? ==>
              SendCommandWrites(e, command, params, timestamp) == Some([Write(command, Member(params.members, "value").value)])
    ensures !Truthy(params) ==> SendCommandWrites(e, command, params, timestamp) == Some([Write(command, Str(""))])
  {
  }

  // ---- the device echoes a write and the entity reads it back ----

  /** The snapshot after the device stores the value of a write. */
  function Echo(snap: Snapshot, w: Step): (r: Snapshot)
    requires w.Write?
    ensures Get(r, w.key) == w.value
  {
    snap[w.key := w.value]
  }

  /**
   * The `autoReturn` and `boostIQ` toggles, read back: each makes one write
   * of the opposite of the attribute's truthiness. The write always goes to
   * the fixed data point 135 or 118, while the decode reads the model's own
   * AUTO_RETURN or BOOST_IQ code; for a model whose code is that fixed data
   * point, once the device stores the write the attribute's truthiness is
   * the opposite of what it was. For any other model nothing reads it back.
   */
  lemma ToggleReadBack(e: Device.Entity, command: string, f: Device.Feature, snap: Snapshot, literal: Value -> Option<Value>, timestamp: int)
    requires e.config.Some? && Device.CompleteCodes(e.config.value.codes)
    requires (command == "autoReturn" && f == Device.AutoReturn) || (command == "boostIQ" && f == Device.BoostIq)
    requires f in e.config.value.features
    requires e.config.value.codes[Device.Gated(f)] == (if f == Device.AutoReturn then AutoReturnKey else BoostIqKey)
    ensures var w := Write(e.config.value.codes[Device.Gated(f)], Bool(!Truthy(Device.GatedField(e, f))));
            && SendCommandWrites(e, command, Null, timestamp) == Some([w])
            && var d := Device.UpdateEntityValues(e, Echo(snap, w), literal);
               !d.raised ==> (Truthy(Device.GatedField(d.entity, f)) <==> !Truthy(Device.GatedField(e, f)))
  {
    ToggleWrite(e, command, f, timestamp);
  }

  /** The single write of a toggle carries the opposite of the attribute's truthiness. */
  lemma ToggleWrite(e: Device.Entity, command: string, f: Device.Feature, timestamp: int)
    requires (command == "autoReturn" && f == Device.AutoReturn) || (command == "boostIQ" && f == Device.BoostIq)
    ensures SendCommandWrites(e, command, Null, timestamp)
            == Some([Write(if f == Device.AutoReturn then AutoReturnKey else BoostIqKey, Bool(!Truthy(Device.GatedField(e, f))))])
  {
  }

  /**
   * `locate` writes the opposite of the locate value it last read; once the
   * device stores the write and the entity reads it back, whatever the rest
   * of the decode does, the toggle's condition has flipped.
   */
  lemma LocateReadBack(e: Device.Entity, snap: Snapshot, literal: Value -> Option<Value>, timestamp: int)
    requires e.config.Some? && Device.CompleteCodes(e.config.value.codes)
    ensures var code := e.config.value.codes[Device.Locate];
            var w := Write(code, Bool(!Locating(e, code)));
            && Plan(e, Locate, timestamp) == Some([w, Refresh])
            && var d := Device.UpdateEntityValues(e, Echo(snap, w), literal);
               Locating(d.entity, code) <==> !Locating(e, code)
  {
    var code := e.config.value.codes[Device.Locate];
    var w := Write(code, Bool(!Locating(e, code)));
    assert code in Echo(snap, w);
  }

  /**
   * `set_fan_speed` writes the raw label stored under the chosen friendly
   * name, and once the device stores it the entity shows that name again.
   */
  lemma FanSpeedReadBack(e: Device.Entity, name: string, snap: Snapshot, literal: Value -> Option<Value>, timestamp: int)
    requires e.config.Some? && Device.CompleteCodes(e.config.value.codes)
    requires Device.FriendlyNames(e.config.value.fanSpeedMap)
    requires name in e.config.value.fanSpeedMap
    ensures var w := Write(e.config.value.codes[Device.FanSpeed], Str(e.config.value.fanSpeedMap[name]));
            && Plan(e, SetFanSpeed(name), timestamp) == Some([w, Refresh])
            && var d := Device.UpdateEntityValues(e, Echo(snap, w), literal);
               !d.raised ==> d.entity.fanSpeed == Some(name)
  {
    var c := e.config.value;
    var w := Write(c.codes[Device.FanSpeed], Str(c.fanSpeedMap[name]));
    FanSpeedPlan(e, name, timestamp);
    assert Device.FanSpeedRaw(c, Echo(snap, w)) == Str(c.fanSpeedMap[name]);
  }

  lemma FanSpeedPlan(e: Device.Entity, name: string, timestamp: int)
    requires e.config.Some? && Device.CompleteCodes(e.config.value.codes)
    requires name in e.config.value.fanSpeedMap
    ensures Plan(e, SetFanSpeed(name), timestamp)
            == Some([Write(e.config.value.codes[Device.FanSpeed], Str(e.config.value.fanSpeedMap[name])), Refresh])
  {
  }

  /** `set_fan_speed` with a name the table does not hold raises before it writes. */
  lemma UnknownFanSpeedRaises(e: Device.Entity, name: string, timestamp: int)
    requires e.config.Some? && Device.CompleteCodes(e.config.value.codes)
    requires name !in e.config.value.fanSpeedMap
    ensures Plan(e, SetFanSpeed(name), timestamp).None?
  {
  }

  // ---- roomClean ----

  /** `roomClean` makes one write, to key "124", whose value is the base64 text of the compact JSON request. */
  lemma RoomCleanWrites(e: Device.Entity, params: Value, timestamp: int)
    requires params.Obj? || !Truthy(params)
    ensures var roomIds := ParamsGet(params, "roomIds", Arr([Int(1)])).value;
            var count := ParamsGet(params, "count", Int(1)).value;
            SendCommandWrites(e, "roomClean", params, timestamp)
            == Some([Write(RoomCleanKey, Str(RoomCleanPayload(roomIds, count, timestamp)))])
  {
  }

  /** Without parameters the request cleans room 1 once. */
  lemma RoomCleanDefaults(e: Device.Entity, timestamp: int)
    ensures SendCommandWrites(e, "roomClean", Null, timestamp)
            == Some([Write(RoomCleanKey, Str(RoomCleanPayload(Arr([Int(1)]), Int(1), timestamp)))])
  {
  }

  /** Decoding the written value: base64, then the ASCII text, then JSON, gives the request back. */
  lemma RoomCleanPayloadDecodes(roomIds: Value, count: Value, timestamp: int)
    ensures var bytes := Base64.Decode(RoomCleanPayload(roomIds, count, timestamp));
            && bytes.Some?
            && Json.Parse(AsciiText(bytes.value)) == Some(RoomCleanRequest(roomIds, count, timestamp))
  {
    var request := RoomCleanRequest(roomIds, count, timestamp);
    var text := Json.Serialize(request);
    Json.SerializeIsPrintable(request);
    Base64.DecodeEncode(AsciiBytes(text));
    AsciiTextOfBytes(text);
    Json.ParseOfSerialize(request);
  }

  /** The members of an object other than those with key `key`. */
  function RemoveKey(ms: seq<(string, Value)>, key: string): (r: seq<(string, Value)>)
    ensures forall i :: 0 <= i < |r| ==> r[i].0 != key && r[i] in ms
  {
    if |ms| == 0 then []
    else if ms[0].0 == key then RemoveKey(ms[1..], key)
    else [ms[0]] + RemoveKey(ms[1..], key)
  }

  /** A request with its `timestamp` member removed. */
  function WithoutTimestamp(v: Value): Value {
    if v.Obj? then Obj(RemoveKey(v.members, "timestamp")) else v
  }

  /**
   * Read back from the device, a `roomClean` request carries the clock
   * reading as its `timestamp` and otherwise depends only on the rooms and
   * the count.
   */
  lemma RoomCleanDependsOnlyOnRoomsAndCount(roomIds: Value, count: Value, t1: int, t2: int)
    ensures var b1, b2 := Base64.Decode(RoomCleanPayload(roomIds, count, t1)), Base64.Decode(RoomCleanPayload(roomIds, count, t2));
            && b1.Some? && b2.Some?
            && var p1, p2 := Json.Parse(AsciiText(b1.value)), Json.Parse(AsciiText(b2.value));
               && p1.Some? && p2.Some? && p1.value.Obj? && p2.value.Obj?
               && Member(p1.value.members, "timestamp") == Some(Int(t1))
               && WithoutTimestamp(p1.value) == WithoutTimestamp(p2.value)
  {
    RoomCleanPayloadDecodes(roomIds, count, t1);
    RoomCleanPayloadDecodes(roomIds, count, t2);
    RequestWithoutTimestamp(roomIds, count, t1);
    RequestWithoutTimestamp(roomIds, count, t2);
  }

  lemma RequestWithoutTimestamp(roomIds: Value, count: Value, t: int)
    ensures var r := RoomCleanRequest(roomIds, count, t);
            && Member(r.members, "timestamp") == Some(Int(t))
            && WithoutTimestamp(r) == Obj([("method", Str("selectRoomsClean")), ("data", Obj([("roomIds", roomIds), ("cleanTimes", count)]))])
  {
    var ms := RoomCleanRequest(roomIds, count, t).members;
    assert ms[2..] == [("timestamp", Int(t))];
    assert RemoveKey(ms[2..], "timestamp") == [];
    assert ms[1..][1..] == ms[2..];
    assert RemoveKey(ms[1..], "timestamp") == [ms[1]];
    assert RemoveKey(ms, "timestamp") == [ms[0], ms[1]];
  }
}
