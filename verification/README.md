# RoboVac entity state translation, modelled in Dafny

This project models the state-translation core of the Eufy RoboVac
`vacuum` entity for Home Assistant (`RoboVacEntity` in
`custom_components/robovac/vacuum.py`) and proves properties of it. The core
has six parts:

- **Snapshot decoder.** `update_entity_values` copies a raw Tuya data-point
  snapshot into the entity's fields:
  - the battery level, parsed as an integer;
  - the status label, through two lookup tables;
  - the error label, through one table;
  - the mode, copied as it is;
  - the fan speed, prettified;
  - five optional attributes, each gated by a capability bit and copied as
    it is;
  - the consumables, gated the same way and decoded from a base64 blob.
- **Activity.** The `activity` property derives the vacuum activity from the
  status label and the error code, by ordered precedence.
- **Attributes.** The `extra_state_attributes` dictionary.
- **Commands.** Each command becomes a plan: the data-point writes it makes,
  in order, followed by the forced refreshes it schedules. `roomClean` writes
  a compact JSON request (RFC 8259) encoded as base64 (section 4 of RFC 4648).
- **Health machine.** The scheduled poll, the warm-up polls and the push
  path share a failure counter and an availability flag, with the threshold
  `UPDATE_RETRIES = 3`.
- **`friendly_text`.** The transform that turns a raw fan-speed label into
  the name the user sees.

Modules:

| file | module | what it holds |
|---|---|---|
| `wrappers.dfy` | `Wrappers` | `Option` |
| `values.dfy` | `Values` | Python values, truthiness, hashability, `dict.get`, `in`, `[]` |
| `decimal.dfy` | `Decimal` | decimal integer formatting and `int()` on strings |
| `base64.dfy` | `Base64` | base64 encoding and its decoder |
| `json.dfy` | `Json` | compact `json.dumps` with ASCII escaping, and a parser for its output |
| `text.dfy` | `Text` | `str.split()`, `str.upper()` on the first character, `friendly_text` |
| `protocol.dfy` | `Protocol` | the three wire tables and the activity precedence |
| `device.dfy` | `Device` | the entity record, `__init__`, `update_entity_values` |
| `attributes.dfy` | `Attributes` | `extra_state_attributes` |
| `commands.dfy` | `Commands` | command plans, running a plan against a failing device, the `roomClean` payload |
| `health.dfy` | `Health` | `async_update_vacuum`, `async_update`, warm-up, push |

The model follows the code, not the intended design. Where the two differ:

- Unknown status and error values decode to None, not to an "unknown" label.
- The battery level is not range-checked.
- Command-code lookups use `[]`. The code looks up a gated code only when
  its bit is set, and LOCATE only in `async_locate`. The model instead asks
  the command-code table to have every key (`Device.CompleteCodes`). This is
  a simplification: it leaves out devices whose table lacks codes they
  never look up.
- The consumables decode is not guarded, so a bad blob makes the decode
  raise. The fields assigned before the raise keep their new values.
- A poll of an unsupported model, or of an entity with no IP address,
  returns normally. `async_update` counts it as a success and marks the
  entity available, although the warm-up marked it unavailable
  (`Health.UnsupportedPollMarksAvailable`).
- Two different conditions decide whether an error is shown.
  - The `error` attribute is shown for every code other than None and
    `"no_error"`.
  - The ERROR activity also excludes the empty code.
  - They differ only on `""` (`Attributes.ErrorConditionsDiffer`).
  - The entity never stores `""`. It holds only None, the codes it sets
    itself, or a label of the error table, and no label is empty
    (`Device.StoredErrorCode`). So on every reachable state the two
    conditions agree (`Attributes.ErrorConditionsAgreeOnStoredCodes`).
  - The activity is also IDLE whenever no status has been read, so an
    IP_ADDRESS or CONNECTION_FAILED code shows `error` while the activity
    is IDLE (`Attributes.ErrorShownWhileIdle`).

Python exceptions are modelled as data:
- `Decoded.raised` marks a decode that raised part way through.
- `None` stands for a command plan that raises before its first write.
- `Commands.Run` models a write the device rejects, which stops the command.

## Model

| member | source | states |
|---|---|---|
| Values.Member | custom_components/robovac/vacuum.py:527-528 | the value `dict.get` finds for a key is the one bound by the last member with that key; it is None exactly when no member has the key |
| Values.ParamsGet | custom_components/robovac/vacuum.py:501 | `(params or {}).get(key, default)` raises (None) exactly for a truthy non-dict; a falsy params gives the default; a dict gives the value of the key's last binding, or the default when the key is absent |
| Decimal.ParseInt | custom_components/robovac/vacuum.py:384 | `int()` of a string succeeds exactly on an optional sign followed by at least one decimal digit, and a leading `-` gives a non-positive value |
| Decimal.ParseIntOfFormatInt | custom_components/robovac/vacuum.py:384 | parsing the decimal text of any integer gives that integer back |
| Base64.Encode | custom_components/robovac/vacuum.py:536 | the encoding of n bytes, padding included, has 4·⌈n/3⌉ characters |
| Base64.DecodeEncode | custom_components/robovac/vacuum.py:536 | decoding the base64 text of any byte string gives the bytes back |
| Json.SerializeIsPrintable | custom_components/robovac/vacuum.py:535-536 | the compact text is printable ASCII, so `encode("utf8")` is one byte per character |
| Json.ParseOfSerialize | custom_components/robovac/vacuum.py:535 | parsing the serialized text of any value gives that value back |
| Text.ReplaceUnderscores | custom_components/robovac/vacuum.py:550 | same length, no `_` left, every other character unchanged, and every `_` becomes a space |
| Text.SplitCollapses | custom_components/robovac/vacuum.py:550 | `split()` gives the maximal runs of non-whitespace: joined with single spaces they equal the input with leading and trailing whitespace dropped and each inner whitespace run replaced by one space, as an independent character-by-character definition computes it (each word is non-empty and has no whitespace) |
| Text.Capitalize | custom_components/robovac/vacuum.py:550 | `word[0].upper() + word[1:]` keeps the length and the tail, and upper-cases only the first character |
| Text.FriendlyTextShape | custom_components/robovac/vacuum.py:549-550 | the friendly text has no `_`, and no leading, trailing or doubled spaces |
| Text.WordsOfFriendlyText | custom_components/robovac/vacuum.py:549-550 | the words of the friendly text are the capitalised words of the input, one for one |
| Text.FriendlyTextOfEmpty | custom_components/robovac/vacuum.py:549-550 | the empty string maps to "" |
| Text.FriendlyTextIdempotent | custom_components/robovac/vacuum.py:549-550 | applying `friendly_text` twice gives the same as once |
| Protocol.StatusLabel | custom_components/robovac/vacuum.py:389-394 | the two-stage lookup finds a label exactly when the value is one of the status blobs, and the label is a value of the label table |
| Protocol.ErrorLabel | custom_components/robovac/vacuum.py:397-399 | the error lookup finds a label exactly when the value is one of the error blobs |
| Protocol.ActivityOf | custom_components/robovac/vacuum.py:259-283 | the six activities as six if-and-only-if conditions: no label gives IDLE; otherwise a fault gives ERROR; otherwise docked, returning, idle, paused, or cleaning for any other label |
| Protocol.StatusTablesCompose | custom_components/robovac/vacuum.py:79-113 | every one of the 15 status blobs resolves through both tables to a label |
| Protocol.ActivityOfEveryName | custom_components/robovac/vacuum.py:259-283 | with no fault, the label of each of the 15 status names shows the activity an independent table lists for that name |
| Protocol.ActivityOfEveryBlob | custom_components/robovac/vacuum.py:259-283 | with no fault, each status blob shows the activity listed for its status name |
| Protocol.UnknownStatusIsIdle | custom_components/robovac/vacuum.py:389-394 | a value that is not a status blob, or an absent key, gives no label and the IDLE activity |
| Protocol.NoErrorBlobsAreNotFaults | custom_components/robovac/vacuum.py:115-123 | an error blob labelled `no_error` never gives the ERROR activity, whatever the status |
| Protocol.RoomAndSpotPausesShowCleaning | custom_components/robovac/vacuum.py:279-283 | only `Cleaning paused` shows PAUSED; the room and spot pauses show CLEANING |
| Device.FanSpeedMap | custom_components/robovac/vacuum.py:191-195 | every raw label's friendly name is a key, and each key holds a raw label whose friendly name is that key |
| Device.FanSpeedMapLastWins | custom_components/robovac/vacuum.py:193-194 | a raw label is stored under its friendly name unless a later label has the same friendly name |
| Device.NewEntity | custom_components/robovac/vacuum.py:156-211 | a new entity is supported exactly when the model has a definition, and unsupported exactly when its error code says so; a supported one copies the capability bits and command codes, builds the fan-speed table from the model's speeds and has no error code; the address is kept; it has no failures, is available, and has no reading, battery level, fan speed, mode or attribute yet |
| Device.DecodeBattery | custom_components/robovac/vacuum.py:381-386 | `int(raw)` succeeds exactly for a bool, an int or an integer literal, with None for everything else and no raise |
| Device.DecodeBatteryOfDecimal | custom_components/robovac/vacuum.py:384 | the decimal text of a level decodes to that level |
| Device.DecodeBatteryRejects | custom_components/robovac/vacuum.py:381-386 | an absent key, "abc" and "" decode to no level |
| Device.ConsumablesStep | custom_components/robovac/vacuum.py:440-446 | consumables change only when the raw value is truthy and the decoded object has `consumable.duration`, and then take that value; a falsy value is skipped without a raise; a truthy value the decoder rejects, or a decoded None, bool or int, raises; a decoded dict whose `consumable` is absent, or is a dict without `duration`, leaves the attribute alone without a raise |
| Device.FalsyConsumablesNeverRaise | custom_components/robovac/vacuum.py:440-442 | with a falsy or absent consumables value, the decode raises only on the status, error or fan-speed values |
| Device.ApplyGates | custom_components/robovac/vacuum.py:410-439 | each of the five plain attributes takes the snapshot's value when its bit is set and keeps its previous value otherwise |
| Device.UpdateEntityValues | custom_components/robovac/vacuum.py:377-447 | the snapshot and battery are always written; the decode raises exactly under `DecodeRaises`; without a raise, status, error, mode and fan speed are overwritten from the snapshot; ungated attributes never change; consumables change only through a decoded duration, and without a raise a decoded duration is assigned and a skipped step leaves them alone; a changed error code is one of the error table's labels; health is untouched |
| Device.DecodeRest | custom_components/robovac/vacuum.py:405-446 | the tail of the decode raises exactly for a non-str fan-speed value or a raising consumables step; without a raise the fan speed is the friendly text, a decoded consumables duration is assigned and a skipped consumables step keeps the old value; the earlier fields are untouched |
| Device.UpdateEntityValuesForgetsPrevious | custom_components/robovac/vacuum.py:381-407 | the overwritten fields, and whether the decode raises, do not depend on the previous state |
| Device.StatusListLeavesPartialUpdate | custom_components/robovac/vacuum.py:381-394 | a list status value raises after the battery is written but before the status, error and fan speed are |
| Device.UpdateEntityValuesKeepsSupported | custom_components/robovac/vacuum.py:397-399 | a decode never records the unsupported-model code |
| Attributes.AttributeNamesDistinct | custom_components/robovac/vacuum.py:56-63 | the attribute names are pairwise distinct |
| Attributes.AddGated | custom_components/robovac/vacuum.py:293-309 | a gated attribute is present exactly when its bit is set and its value is truthy, and holds that value; other keys are untouched |
| Attributes.ErrorEntry | custom_components/robovac/vacuum.py:290-291 | the dict starts with the `error` entry, holding the code's message, exactly when the code is reported |
| Attributes.WithMode | custom_components/robovac/vacuum.py:311-312 | `mode` is added, holding the mode, when the mode is truthy; every other entry is kept |
| Attributes.ExtraStateAttributes | custom_components/robovac/vacuum.py:286-314 | raises exactly for an unsupported model; `error` present iff the code is not None and not `no_error`, holding its message; each gated attribute present iff shown; `mode` present iff truthy; no other keys |
| Attributes.ErrorConditionsDiffer | custom_components/robovac/vacuum.py:290 | the attribute's error condition and the activity's agree on every code except "", which only the attribute reports |
| Attributes.ErrorConditionsAgreeOnStoredCodes | custom_components/robovac/vacuum.py:266-291 | on every code the entity can hold, the attribute's error condition and the activity's fault condition agree; once a status has been read, `error` is shown exactly when the activity is ERROR, and with no status read the activity is IDLE whether or not `error` is shown |
| Attributes.ErrorShownWhileIdle | custom_components/robovac/vacuum.py:262-263 | the stored IP_ADDRESS and CONNECTION_FAILED codes show the `error` attribute while the activity, with no status read, is IDLE |
| Device.NewEntityStoresKnownCode | custom_components/robovac/vacuum.py:181-183 | a new entity's code is None or UNSUPPORTED_MODEL, both stored codes |
| Device.UpdateEntityValuesStoresKnownCode | custom_components/robovac/vacuum.py:396-399 | a decode stores only a label of the error table or None, so the code stays a stored code |
| Commands.AsciiTextOfBytes | custom_components/robovac/vacuum.py:536 | reading back the bytes of printable ASCII text gives the text |
| Commands.SendCommandWrites | custom_components/robovac/vacuum.py:493-540 | a command that does not raise makes at least one write and nothing else before its refresh; it raises exactly when the command reads `params.get` (roomClean or an unrecognised name) and params is a truthy non-dict |
| Commands.Plan | custom_components/robovac/vacuum.py:450-542 | an unsupported model has no plan for any command; for a supported one, a command raises before writing exactly for an unknown fan-speed name or a raising `async_send_command` |
| Commands.FixedCommandWrites | custom_components/robovac/vacuum.py:466-508 | start, pause and spot write `BBoCCAE=`, `AggN` and `Spot` to MODE; edgeClean and smallRoomClean write `Edge` and `SmallRoom` to `5`; autoClean writes `BBoCCAE=` to `152`; each then schedules one refresh |
| Commands.Run | custom_components/robovac/vacuum.py:538-542 | what happens when a write fails is a prefix of the plan |
| Commands.RunAll | custom_components/robovac/vacuum.py:538-542 | when every write is accepted the whole plan happens |
| Commands.FailedWriteSchedulesNothing | custom_components/robovac/vacuum.py:538-542 | a failing write stops the command before any refresh, after exactly the accepted writes |
| Commands.PlanShape | custom_components/robovac/vacuum.py:450-542 | every plan makes its writes first, has at least one write, ends with a refresh, and schedules one refresh (two for stop) |
| Commands.StopWritesAsReturn | custom_components/robovac/vacuum.py:475-477 | stop makes the same single MODE write `AggG` as return-to-base |
| Commands.FailingCommandSchedulesNothing | custom_components/robovac/vacuum.py:458 | a command whose first write fails schedules no refresh |
| Commands.DoNotDisturbWrites | custom_components/robovac/vacuum.py:514-520 | doNotDisturb makes exactly two writes, `139` then `107`, with the quiet-hours value and the inverted flag chosen by the current value's truthiness |
| Commands.PassThroughWrites | custom_components/robovac/vacuum.py:539-540 | an unrecognised name is written as a key with the `value` parameter, or "" when there is none |
| Commands.ToggleReadBack | custom_components/robovac/vacuum.py:509-525 | autoReturn and boostIQ each make one write of the negated truthiness to the fixed data point 135 or 118; for a model whose AUTO_RETURN or BOOST_IQ code is that data point, after the device stores the write and the entity decodes it, the attribute's truthiness is inverted (for any other model the decode never reads the write back) |
| Commands.LocateReadBack | custom_components/robovac/vacuum.py:450-458 | locate writes the negation of its condition, and after the device stores it and the entity decodes it the condition is inverted |
| Commands.FanSpeedPlan | custom_components/robovac/vacuum.py:485-491 | set_fan_speed with a known name writes the raw label stored under it to the fan-speed code, then schedules one refresh |
| Commands.FanSpeedReadBack | custom_components/robovac/vacuum.py:485-491 | set_fan_speed writes the raw label stored under the chosen name, and once decoded the entity shows that name again |
| Commands.UnknownFanSpeedRaises | custom_components/robovac/vacuum.py:489 | a name missing from the fan-speed table raises before any write |
| Commands.RoomCleanWrites | custom_components/robovac/vacuum.py:526-538 | roomClean makes one write, to `124`, of the base64 payload of the rooms and count taken from the parameters |
| Commands.RoomCleanDefaults | custom_components/robovac/vacuum.py:527-528 | without parameters the rooms are `[1]` and the count is 1 |
| Commands.RoomCleanPayloadDecodes | custom_components/robovac/vacuum.py:529-536 | decoding the payload as base64, ASCII and then JSON gives the request `{"method":"selectRoomsClean","data":{"roomIds":R,"cleanTimes":C},"timestamp":T}` |
| Commands.RoomCleanDependsOnlyOnRoomsAndCount | custom_components/robovac/vacuum.py:529-534 | the decoded request carries the clock reading as its timestamp and, without it, depends only on the rooms and the count |
| Health.UpdateVacuum | custom_components/robovac/vacuum.py:359-367 | an unsupported model does nothing; a missing address records `IP_ADDRESS`; otherwise a failed fetch raises TuyaException and leaves the entity as it was, and a fetched snapshot is decoded into the entity by `update_entity_values`, which raises exactly under `DecodeRaises`; health is untouched |
| Health.Poll | custom_components/robovac/vacuum.py:342-357 | the poll ends as `async_update_vacuum` ends, and unless that raises TuyaException its entity is that of `async_update_vacuum` with only the count and availability replaced; a return resets the count and marks available; a TuyaException adds exactly one failure, and only at the threshold records `CONNECTION_FAILED` and marks unavailable; a decode exception leaves health alone |
| Health.Push | custom_components/robovac/vacuum.py:373-375 | a push stores the pushed data points, raises exactly under `DecodeRaises`, and changes neither the failure count nor availability |
| Health.PushDecodesLikeFetch | custom_components/robovac/vacuum.py:366-375 | with an address set, a push yields the same entity as a poll that fetched the same data points, and raises exactly when that poll's decode raises |
| Health.PollStoresKnownCode | custom_components/robovac/vacuum.py:342-367 | a poll keeps the error code among the stored codes |
| Health.PushStoresKnownCode | custom_components/robovac/vacuum.py:373-375 | a push keeps the error code among the stored codes |
| Health.WarmUpStoresKnownCode | custom_components/robovac/vacuum.py:317-340 | the warm-up keeps the error code among the stored codes |
| Health.WarmUpFrom | custom_components/robovac/vacuum.py:330-340 | the warm-up loop keeps the entity supported and ends in a state satisfying the health invariant |
| Health.RunWarmUp | custom_components/robovac/vacuum.py:317-340 | at most five attempts; an available result has no failures, and its trace is k attempt/1.5 s sleep pairs, k < 5, followed by attempt k alone; otherwise every failed attempt is followed by a 1.5 s sleep |
| Health.NewEntityInvariants | custom_components/robovac/vacuum.py:168-189 | a new entity is consistently supported or not and satisfies the health invariant |
| Health.PollKeepsInvariants | custom_components/robovac/vacuum.py:342-357 | a poll keeps the entity's support status and the health invariant (at the threshold it is unavailable) |
| Health.PushKeepsInvariants | custom_components/robovac/vacuum.py:373-375 | a push keeps both invariants |
| Health.WarmUpKeepsInvariants | custom_components/robovac/vacuum.py:317-340 | the warm-up keeps both invariants |
| Health.UnavailableUntilSuccess | custom_components/robovac/vacuum.py:342-357 | an unavailable entity becomes available again only through a poll that returns |
| Health.UnsupportedPollMarksAvailable | custom_components/robovac/vacuum.py:359-361 | an unsupported model is unavailable after the warm-up, but the next poll marks it available |
| Health.ConsecutiveFailures | custom_components/robovac/vacuum.py:348-357 | n consecutive transport failures add exactly n failures; the entity stays available below the threshold, is unavailable from it on, and carries `CONNECTION_FAILED` |
| Health.WarmUpSkipped | custom_components/robovac/vacuum.py:319-328 | an unsupported model or a missing address makes no attempt and ends unavailable, the latter with `IP_ADDRESS` |
| Health.WarmUpAllFail | custom_components/robovac/vacuum.py:330-340 | when every remaining attempt fails, by a TuyaException from the fetch or by any exception from the decode (both caught by `except Exception`), each attempt is followed by a sleep and the entity ends unavailable with its failure count, config and address unchanged; when every fetch raises, nothing else changes |
| Health.WarmUpFirstSuccess | custom_components/robovac/vacuum.py:330-340 | when attempt k < 5 is the first that neither fails to fetch nor raises in the decode, the trace is attempts 0 to k-1 each followed by a 1.5 s sleep, then attempt k, and the entity ends available with no failures |

## Left out

- Home Assistant plumbing is framework glue and is not modelled. This covers `async_setup_entry`, `DeviceInfo`, `async_write_ha_state`, the property getters and `async_will_remove_from_hass`.
- The transport is a parameter, because it lives outside this file. `async_get`, `async_set`, `async_disable`, `_dps` and `TuyaException` become a fetch that yields a snapshot or fails, and a write the device accepts or rejects.
- `asyncio.create_task` and `asyncio.sleep` are recorded as refresh steps and sleep events. Concurrency and time are not modelled, so neither is the race between the scheduled poll and a forced refresh.
- `time.time()` is the `timestamp` parameter. The rounding of the float clock to milliseconds is not modelled.
- `ast.literal_eval` of the base64-decoded consumables blob is an opaque partial decoder (the `literal` parameter). A Python-literal parser is out of scope.
- `getErrorMessage` is the opaque `message` parameter, because `errors.py` is not part of this model.
- The `RoboVacEntityFeature` bit values, the `RobovacCommand` codes and the per-model fan speeds are parameters, because `vacuums/base.py` and `robovac.py` are not part of this model. A bit test `mask & BIT` is membership in a feature set.
- The model code, name, access token and MAC only reach the transport and the device registry, so they are left out. A missing IP address (None) and an empty one are both `""`.
- Decimal.ParseInt: does not model `int()`'s acceptance of surrounding whitespace, `_` digit separators and non-ASCII digits, nor the limit of 4300 digits that Python 3.11 and later put on int/str conversion (a longer digit string raises ValueError there and parses here).
- Device.DecodeBattery: has no float case, because the model's values carry no floats, so `int(85.5)` is not covered; and a digit string of more than 4300 digits decodes to a level here where Python 3.11 and later raise ValueError and store None, because the conversion limit is not modelled.
- Text.Capitalize: upper-cases ASCII letters only. Python's full Unicode case mapping, including characters whose upper case is longer, is not modelled.
- Text.IsSpace: covers the Unicode whitespace characters `str.split()` uses, which are listed explicitly.
- Values.Hashable: treats Null, Bool, Int and Str as hashable and lists and dicts as not; tuples and other types do not occur in the model.
- Json.Serialize: its own contract says only that the text is non-empty and does not start with a separator; what the text means is stated by `Json.ParseOfSerialize`. It covers null, booleans, integers, strings, lists and string-keyed dicts; floats and the `ensure_ascii=False` path are left out. An integer of more than 4300 digits is serialised here, where `json.dumps` under Python 3.11 and later raises ValueError, so `Commands.RoomCleanWrites` writes for a count that large where the source raises before its write.
- Device.Entity: `tuyaStatus` holds a copy of the snapshot. The code stores a reference to the transport's live `_dps` dict, which `async_locate` reads later, so the model does not see writes the transport makes to it between a decode and a locate.
- Values.Value: an `Obj` may repeat a key, which a Python dict cannot. Lookups read the last binding, as a dict built from the pairs would, but `Json.Serialize` writes every pair, so the JSON round trip is stated for the sequence of pairs. Every object the model itself builds has distinct keys.
- Logging, `MODE_MAPPING` and `EMPTY_MAPPING` are not modelled, since the code never reads the two tables.
- `custom_components/robovac/sensor.py` only reads the cached battery level; it is not modelled.
