/**
 * The refresh paths and the entity's health: the scheduled poll
 * `async_update`, the warm-up polls when the entity is added, and the push
 * path the device connection calls. A failure counter and an availability
 * flag make a small state machine with threshold `UPDATE_RETRIES`.
 *
 * The transport is a parameter: a fetch either yields the device's data
 * points or raises TuyaException. Sleeping and scheduling are recorded as
 * trace events, not as time.
 */
module Health {
  import opened Wrappers
  import opened Values
  import opened Device

  const UpdateRetries: nat := 3
  const WarmUpAttempts: nat := 5
  const WarmUpSleepMs: nat := 1500

  /** What one `async_get` does: the data points it read, or a TuyaException. */
  datatype Fetch = Fetched(snapshot: Snapshot) | TransportError

  /** How `async_update_vacuum` ends: it returns, or raises TuyaException, or raises from the decode. */
  datatype Ending = Returned | TuyaError | DecodeError

  datatype Outcome = Outcome(entity: Entity, ending: Ending)

  /**
   * The class invariant `__init__` sets up: a model is unsupported exactly
   * when its error code says so, and a supported model's command-code
   * table has every key the entity looks up.
   */
  ghost predicate Supported(e: Entity) {
    && (e.config.None? <==> e.errorCode == Some(UnsupportedModel))
    && (e.config.Some? ==> CompleteCodes(e.config.value.codes))
  }

  /** A failure count at the threshold always goes with an unavailable entity. */
  predicate HealthInvariant(e: Entity) {
    e.updateFailures >= UpdateRetries ==> !e.available
  }

  /**
   * `async_update_vacuum`: nothing for an unsupported model, the IP_ADDRESS
   * code when the address is missing, otherwise a fetch and a decode.
   */
  function UpdateVacuum(e: Entity, fetch: Fetch, literal: Value -> Option<Value>): (s: Outcome)
    requires Supported(e)
    ensures s.entity.updateFailures == e.updateFailures && s.entity.available == e.available
    ensures s.entity.config == e.config && s.entity.ipAddress == e.ipAddress
    ensures e.config.None? ==> s == Outcome(e, Returned)
    ensures e.config.Some? && e.ipAddress == "" ==> s == Outcome(e.(errorCode := Some(IpAddressMissing)), Returned)
    ensures s.ending == TuyaError <==> e.config.Some? && e.ipAddress != "" && fetch.TransportError?
    ensures s.ending == DecodeError <==>
              e.config.Some? && e.ipAddress != "" && fetch.Fetched?
              && DecodeRaises(e.config.value, fetch.snapshot, literal)
    ensures e.config.Some? && e.ipAddress != "" ==>
              (fetch.TransportError? ==> s.entity == e)
              && (fetch.Fetched? ==> s.entity.tuyaStatus == Some(fetch.snapshot)
                                     && s.entity == UpdateEntityValues(e, fetch.snapshot, literal).entity)
  {
    if e.errorCode == Some(UnsupportedModel) then Outcome(e, Returned)
    else if e.ipAddress == "" then Outcome(e.(errorCode := Some(IpAddressMissing)), Returned)
    else
      match fetch
      case TransportError => Outcome(e, TuyaError)
      case Fetched(snap) =>
        var d := UpdateEntityValues(e, snap, literal);
        Outcome(d.entity, if d.raised then DecodeError else Returned)
  }

  /**
   * `async_update`. A run that returns, including the early returns for an
   * unsupported model or a missing address, resets the counter and marks
   * the entity available; a TuyaException counts one failure and, at the
   * threshold, records CONNECTION_FAILED and marks it unavailable; an
   * exception from the decode escapes (`raised`) and leaves both alone.
   */
  function Poll(e: Entity, fetch: Fetch, literal: Value -> Option<Value>): (s: Outcome)
    requires Supported(e)
    ensures s.ending == Returned ==> s.entity.updateFailures == 0 && s.entity.available
    ensures s.ending == TuyaError ==>
              && s.entity.updateFailures == e.updateFailures + 1
              && s.entity.available == (e.available && e.updateFailures + 1 < UpdateRetries)
              && s.entity.errorCode == (if e.updateFailures + 1 >= UpdateRetries then Some(ConnectionFailed) else e.errorCode)
              && s.entity == e.(updateFailures := s.entity.updateFailures, available := s.entity.available,
                                errorCode := s.entity.errorCode)
    ensures s.ending == DecodeError ==> s.entity.updateFailures == e.updateFailures && s.entity.available == e.available
    ensures s.ending == TuyaError <==> e.config.Some? && e.ipAddress != "" && fetch.TransportError?
    ensures s.entity.config == e.config && s.entity.ipAddress == e.ipAddress
    ensures s.ending == UpdateVacuum(e, fetch, literal).ending
    ensures s.ending != TuyaError ==>
              s.entity == UpdateVacuum(e, fetch, literal).entity.(updateFailures := s.entity.updateFailures,
                                                                   available := s.entity.available)
  {
    var u := UpdateVacuum(e, fetch, literal);
    match u.ending
    case Returned => Outcome(u.entity.(updateFailures := 0, available := true), Returned)
    case TuyaError =>
      var failures := u.entity.updateFailures + 1;
      if failures >= UpdateRetries then
        Outcome(u.entity.(updateFailures := failures, errorCode := Some(ConnectionFailed), available := false), TuyaError)
      else Outcome(u.entity.(updateFailures := failures), TuyaError)
    case DecodeError => u
  }

  /** `pushed_update_handler`: a decode of the data points the connection pushed. */
  function Push(e: Entity, snap: Snapshot, literal: Value -> Option<Value>): (d: Decoded)
    requires Supported(e) && e.config.Some?
    ensures d.entity.updateFailures == e.updateFailures && d.entity.available == e.available
    ensures d.entity.tuyaStatus == Some(snap)
    ensures d.raised <==> DecodeRaises(e.config.value, snap, literal)
  {
    UpdateEntityValues(e, snap, literal)
  }

  /**
   * A push decodes the pushed data points exactly as a poll decodes the data
   * points it fetched: the same entity, and a raise in the same cases.
   */
  lemma PushDecodesLikeFetch(e: Entity, snap: Snapshot, literal: Value -> Option<Value>)
    requires Supported(e) && e.config.Some? && e.ipAddress != ""
    ensures Push(e, snap, literal).entity == UpdateVacuum(e, Fetched(snap), literal).entity
    ensures Push(e, snap, literal).raised <==> UpdateVacuum(e, Fetched(snap), literal).ending == DecodeError
  {
  }

  // ---- warm-up ----

  datatype Event = Attempt(index: nat) | Sleep(ms: nat)

  /**
   * The warm-up loop from attempt `attempt` on: a forced update per attempt,
   * stopping at the first one that returns; any exception is caught and
   * followed by a sleep. After the last attempt the entity is unavailable.
   */
  function WarmUpFrom(e: Entity, fetch: nat -> Fetch, literal: Value -> Option<Value>, attempt: nat): (r: (Entity, seq<Event>))
    requires Supported(e) && e.config.Some? && e.ipAddress != ""
    ensures Supported(r.0) && HealthInvariant(r.0)
    decreases WarmUpAttempts - attempt
  {
    if attempt >= WarmUpAttempts then (e.(available := false), [])
    else
      var u := UpdateVacuum(e, fetch(attempt), literal);
      UpdateVacuumKeepsSupported(e, fetch(attempt), literal);
      if u.ending == Returned then (u.entity.(updateFailures := 0, available := true), [Attempt(attempt)])
      else
        var rest := WarmUpFrom(u.entity, fetch, literal, attempt + 1);
        (rest.0, [Attempt(attempt), Sleep(WarmUpSleepMs)] + rest.1)
  }

  /** `async_added_to_hass`. */
  function WarmUp(e: Entity, fetch: nat -> Fetch, literal: Value -> Option<Value>): (r: (Entity, seq<Event>))
    requires Supported(e)
  {
    if e.errorCode == Some(UnsupportedModel) then (e.(available := false), [])
    else if e.ipAddress == "" then (e.(errorCode := Some(IpAddressMissing), available := false), [])
    else WarmUpFrom(e, fetch, literal, 0)
  }

  /** The warm-up loop as the source runs it: `for attempt in range(5)` with an early return. */
  method RunWarmUp(e: Entity, fetch: nat -> Fetch, literal: Value -> Option<Value>) returns (r: Entity, trace: seq<Event>)
    requires Supported(e)
    ensures (r, trace) == WarmUp(e, fetch, literal)
    ensures |trace| <= 2 * WarmUpAttempts
    ensures r.available ==>
              && r.updateFailures == 0 && |trace| % 2 == 1 && |trace| / 2 < WarmUpAttempts
              && AttemptsFrom(trace[..|trace| - 1], 0, |trace| / 2) && trace[|trace| - 1] == Attempt(|trace| / 2)
    ensures !r.available ==> forall i :: 0 <= i < |trace| / 2 ==> trace[2 * i] == Attempt(i) && trace[2 * i + 1] == Sleep(WarmUpSleepMs)
  {
    if e.errorCode == Some(UnsupportedModel) {
      return e.(available := false), [];
    }
    if e.ipAddress == "" {
      return e.(errorCode := Some(IpAddressMissing), available := false), [];
    }
    var cur := e;
    trace := [];
    var attempt := 0;
    ghost var result := WarmUpFrom(e, fetch, literal, 0);
    assert [] + result.1 == result.1;
    while attempt < WarmUpAttempts
      invariant 0 <= attempt <= WarmUpAttempts
      invariant Supported(cur) && cur.config.Some? && cur.ipAddress != ""
      invariant AttemptsFrom(trace, 0, attempt)
      invariant result == (WarmUpFrom(cur, fetch, literal, attempt).0, trace + WarmUpFrom(cur, fetch, literal, attempt).1)
    {
      var u := UpdateVacuum(cur, fetch(attempt), literal);
      WarmUpStep(cur, fetch, literal, attempt);
      if u.ending == Returned {
        r := u.entity.(updateFailures := 0, available := true);
        StopAfterAttempt(trace, attempt);
        trace := trace + [Attempt(attempt)];
        return;
      }
      ghost var rest := WarmUpFrom(u.entity, fetch, literal, attempt + 1);
      Reassociate(trace, [Attempt(attempt), Sleep(WarmUpSleepMs)], rest.1);
      AppendAttempt(trace, attempt);
      trace := trace + [Attempt(attempt), Sleep(WarmUpSleepMs)];
      cur := u.entity;
      attempt := attempt + 1;
    }
    r := cur.(available := false);
    assert trace + [] == trace;
  }

  /** One attempt of the warm-up loop, unfolded. */
  lemma WarmUpStep(e: Entity, fetch: nat -> Fetch, literal: Value -> Option<Value>, attempt: nat)
    requires Supported(e) && e.config.Some? && e.ipAddress != ""
    requires attempt < WarmUpAttempts
    ensures var u := UpdateVacuum(e, fetch(attempt), literal);
            && Supported(u.entity) && u.entity.config.Some? && u.entity.ipAddress != ""
            && (u.ending == Returned ==>
                  WarmUpFrom(e, fetch, literal, attempt) == (u.entity.(updateFailures := 0, available := true), [Attempt(attempt)]))
            && (u.ending != Returned ==>
                  var rest := WarmUpFrom(u.entity, fetch, literal, attempt + 1);
                  WarmUpFrom(e, fetch, literal, attempt) == (rest.0, [Attempt(attempt), Sleep(WarmUpSleepMs)] + rest.1))
  {
    UpdateVacuumKeepsSupported(e, fetch(attempt), literal);
  }

  /** `t` is `n` rounds of an attempt followed by a sleep, numbered from `start`. */
  predicate AttemptsFrom(t: seq<Event>, start: nat, n: nat) {
    && |t| == 2 * n
    && forall i :: 0 <= i < n ==> t[2 * i] == Attempt(start + i) && t[2 * i + 1] == Sleep(WarmUpSleepMs)
  }

  /** The trace of a warm-up that stops at attempt `n`. */
  lemma StopAfterAttempt(t: seq<Event>, n: nat)
    requires AttemptsFrom(t, 0, n) && n < WarmUpAttempts
    ensures var t' := t + [Attempt(n)];
            && |t'| % 2 == 1 && |t'| / 2 == n && |t'| <= 2 * WarmUpAttempts
            && t'[..|t'| - 1] == t && t'[|t'| - 1] == Attempt(n)
  {
    assert (t + [Attempt(n)])[..|t|] == t;
  }

  lemma AppendAttempt(t: seq<Event>, n: nat)
    requires AttemptsFrom(t, 0, n)
    ensures AttemptsFrom(t + [Attempt(n), Sleep(WarmUpSleepMs)], 0, n + 1)
  {
    var t' := t + [Attempt(n), Sleep(WarmUpSleepMs)];
    forall i | 0 <= i < n + 1
      ensures t'[2 * i] == Attempt(i) && t'[2 * i + 1] == Sleep(WarmUpSleepMs)
    {
      if i < n {
        assert t'[2 * i] == t[2 * i] && t'[2 * i + 1] == t[2 * i + 1];
      }
    }
  }

  lemma PrependAttempt(t: seq<Event>, start: nat, n: nat)
    requires AttemptsFrom(t, start + 1, n)
    ensures AttemptsFrom([Attempt(start), Sleep(WarmUpSleepMs)] + t, start, n + 1)
  {
    var t' := [Attempt(start), Sleep(WarmUpSleepMs)] + t;
    forall i | 0 < i < n + 1
      ensures t'[2 * i] == Attempt(start + i) && t'[2 * i + 1] == Sleep(WarmUpSleepMs)
    {
      assert t'[2 * i] == t[2 * (i - 1)];
      assert t'[2 * i + 1] == t[2 * (i - 1) + 1];
    }
  }

  lemma UpdateVacuumKeepsSupported(e: Entity, fetch: Fetch, literal: Value -> Option<Value>)
    requires Supported(e)
    ensures Supported(UpdateVacuum(e, fetch, literal).entity)
  {
    if e.config.Some? && e.ipAddress != "" && fetch.Fetched? {
      UpdateEntityValuesKeepsSupported(e, fetch.snapshot, literal);
    }
  }

  // ---- the health machine ----

  /** A new entity satisfies both invariants. */
  lemma NewEntityInvariants(ipAddress: string, device: Option<DeviceSpec>)
    requires device.Some? ==> CompleteCodes(device.value.codes)
    ensures Supported(NewEntity(ipAddress, device)) && HealthInvariant(NewEntity(ipAddress, device))
  {
  }

  /** Every poll keeps both invariants. */
  lemma PollKeepsInvariants(e: Entity, fetch: Fetch, literal: Value -> Option<Value>)
    requires Supported(e) && HealthInvariant(e)
    ensures Supported(Poll(e, fetch, literal).entity) && HealthInvariant(Poll(e, fetch, literal).entity)
  {
    UpdateVacuumKeepsSupported(e, fetch, literal);
  }

  /** A push keeps both invariants. */
  lemma PushKeepsInvariants(e: Entity, snap: Snapshot, literal: Value -> Option<Value>)
    requires Supported(e) && HealthInvariant(e) && e.config.Some?
    ensures Supported(Push(e, snap, literal).entity) && HealthInvariant(Push(e, snap, literal).entity)
  {
    UpdateEntityValuesKeepsSupported(e, snap, literal);
  }

  /** The warm-up keeps both invariants. */
  lemma WarmUpKeepsInvariants(e: Entity, fetch: nat -> Fetch, literal: Value -> Option<Value>)
    requires Supported(e)
    ensures Supported(WarmUp(e, fetch, literal).0) && HealthInvariant(WarmUp(e, fetch, literal).0)
  {
  }

  /** Only a poll that returns makes an unavailable entity available again. */
  lemma UnavailableUntilSuccess(e: Entity, fetch: Fetch, literal: Value -> Option<Value>)
    requires Supported(e) && !e.available
    ensures Poll(e, fetch, literal).entity.available ==> Poll(e, fetch, literal).ending == Returned
  {
  }

  /**
   * A poll of an unsupported model returns early, so it counts as a
   * success: the entity the warm-up left unavailable becomes available.
   */
  lemma UnsupportedPollMarksAvailable(e: Entity, fetch: Fetch, literal: Value -> Option<Value>)
    requires Supported(e) && e.config.None?
    ensures !WarmUp(e, (_: nat) => fetch, literal).0.available
    ensures Poll(WarmUp(e, (_: nat) => fetch, literal).0, fetch, literal).entity.available
  {
  }

  /** The scheduled polls, one per fetch, with the decode exceptions they let escape ignored. */
  function PollAll(e: Entity, fetches: seq<Fetch>, literal: Value -> Option<Value>): (r: Entity)
    requires Supported(e)
    ensures Supported(r)
    decreases |fetches|
  {
    if |fetches| == 0 then e
    else
      PollKeepsInvariantsSupported(e, fetches[0], literal);
      PollAll(Poll(e, fetches[0], literal).entity, fetches[1..], literal)
  }

  lemma PollKeepsInvariantsSupported(e: Entity, fetch: Fetch, literal: Value -> Option<Value>)
    requires Supported(e)
    ensures Supported(Poll(e, fetch, literal).entity)
  {
    UpdateVacuumKeepsSupported(e, fetch, literal);
  }

  /**
   * Consecutive transport failures of a supported entity with an address
   * each count one failure; the entity stays available until the count
   * reaches the threshold, and from then on it is unavailable.
   */
  lemma {:induction false} ConsecutiveFailures(e: Entity, fetches: seq<Fetch>, literal: Value -> Option<Value>)
    requires Supported(e) && HealthInvariant(e) && e.config.Some? && e.ipAddress != ""
    requires forall i :: 0 <= i < |fetches| ==> fetches[i].TransportError?
    ensures PollAll(e, fetches, literal).updateFailures == e.updateFailures + |fetches|
    ensures PollAll(e, fetches, literal).available == (e.available && e.updateFailures + |fetches| < UpdateRetries)
    ensures |fetches| > 0 && e.updateFailures + |fetches| >= UpdateRetries ==> PollAll(e, fetches, literal).errorCode == Some(ConnectionFailed)
    decreases |fetches|
  {
    if |fetches| > 0 {
      var p := Poll(e, fetches[0], literal).entity;
      PollKeepsInvariantsSupported(e, fetches[0], literal);
      ConsecutiveFailures(p, fetches[1..], literal);
    }
  }

  /** The warm-up makes no attempt for an unsupported model or a missing address, and leaves the entity unavailable. */
  lemma WarmUpSkipped(e: Entity, fetch: nat -> Fetch, literal: Value -> Option<Value>)
    requires Supported(e)
    requires e.config.None? || e.ipAddress == ""
    ensures WarmUp(e, fetch, literal).1 == []
    ensures !WarmUp(e, fetch, literal).0.available
    ensures e.config.Some? ==> WarmUp(e, fetch, literal).0.errorCode == Some(IpAddressMissing)
  {
  }

  /**
   * When every remaining attempt fails, whether the fetch raises or the
   * decode of what it read raises, the warm-up makes each attempt, sleeps
   * after each, and ends unavailable without raising and without counting
   * failures. When every fetch raises, nothing else changes.
   */
  lemma {:induction false} WarmUpAllFail(e: Entity, c: Config, fetch: nat -> Fetch, literal: Value -> Option<Value>, attempt: nat)
    requires Supported(e) && e.config == Some(c) && e.ipAddress != ""
    requires attempt <= WarmUpAttempts
    requires forall i :: attempt <= i < WarmUpAttempts ==> Fails(c, fetch(i), literal)
    ensures var r := WarmUpFrom(e, fetch, literal, attempt);
            && !r.0.available && r.0.updateFailures == e.updateFailures
            && r.0.config == e.config && r.0.ipAddress == e.ipAddress
            && AttemptsFrom(r.1, attempt, WarmUpAttempts - attempt)
    ensures (forall i :: attempt <= i < WarmUpAttempts ==> fetch(i).TransportError?) ==>
              WarmUpFrom(e, fetch, literal, attempt).0 == e.(available := false)
    decreases WarmUpAttempts - attempt
  {
    if attempt < WarmUpAttempts {
      var u := FailedAttempt(e, c, fetch, literal, attempt);
      WarmUpAllFail(u, c, fetch, literal, attempt + 1);
      PrependAttempt(WarmUpFrom(u, fetch, literal, attempt + 1).1, attempt, WarmUpAttempts - attempt - 1);
    }
  }

  // ---- the stored error code ----

  lemma UpdateVacuumStoresKnownCode(e: Entity, fetch: Fetch, literal: Value -> Option<Value>)
    requires Supported(e) && StoredErrorCode(e.errorCode)
    ensures StoredErrorCode(UpdateVacuum(e, fetch, literal).entity.errorCode)
  {
    if e.config.Some? && e.ipAddress != "" && fetch.Fetched? {
      UpdateEntityValuesStoresKnownCode(e, fetch.snapshot, literal);
    }
  }

  /** Polls, pushes and the warm-up only ever store a code of `StoredErrorCode`. */
  lemma PollStoresKnownCode(e: Entity, fetch: Fetch, literal: Value -> Option<Value>)
    requires Supported(e) && StoredErrorCode(e.errorCode)
    ensures StoredErrorCode(Poll(e, fetch, literal).entity.errorCode)
  {
    UpdateVacuumStoresKnownCode(e, fetch, literal);
  }

  lemma PushStoresKnownCode(e: Entity, snap: Snapshot, literal: Value -> Option<Value>)
    requires Supported(e) && e.config.Some? && StoredErrorCode(e.errorCode)
    ensures StoredErrorCode(Push(e, snap, literal).entity.errorCode)
  {
    UpdateEntityValuesStoresKnownCode(e, snap, literal);
  }

  lemma {:induction false} WarmUpFromStoresKnownCode(e: Entity, fetch: nat -> Fetch, literal: Value -> Option<Value>, attempt: nat)
    requires Supported(e) && e.config.Some? && e.ipAddress != "" && StoredErrorCode(e.errorCode)
    ensures StoredErrorCode(WarmUpFrom(e, fetch, literal, attempt).0.errorCode)
    decreases WarmUpAttempts - attempt
  {
    if attempt < WarmUpAttempts {
      WarmUpStep(e, fetch, literal, attempt);
      UpdateVacuumStoresKnownCode(e, fetch(attempt), literal);
      var u := UpdateVacuum(e, fetch(attempt), literal);
      if u.ending != Returned {
        WarmUpFromStoresKnownCode(u.entity, fetch, literal, attempt + 1);
      }
    }
  }

  lemma WarmUpStoresKnownCode(e: Entity, fetch: nat -> Fetch, literal: Value -> Option<Value>)
    requires Supported(e) && StoredErrorCode(e.errorCode)
    ensures StoredErrorCode(WarmUp(e, fetch, literal).0.errorCode)
  {
    if e.config.Some? && e.ipAddress != "" {
      WarmUpFromStoresKnownCode(e, fetch, literal, 0);
    }
  }

  /** An attempt fails when the fetch raises TuyaException or the decode of what it read raises. */
  predicate Fails(c: Config, f: Fetch, literal: Value -> Option<Value>)
    requires CompleteCodes(c.codes)
  {
    f.TransportError? || DecodeRaises(c, f.snapshot, literal)
  }

  /**
   * The warm-up stops at the first attempt that does not fail: every
   * earlier attempt is followed by a sleep, the successful one by nothing.
   */
  lemma {:induction false} WarmUpFromFirstSuccess(e: Entity, c: Config, fetch: nat -> Fetch, literal: Value -> Option<Value>, attempt: nat, k: nat)
    requires Supported(e) && e.config == Some(c) && e.ipAddress != ""
    requires attempt <= k < WarmUpAttempts
    requires forall i :: attempt <= i < k ==> Fails(c, fetch(i), literal)
    requires !Fails(c, fetch(k), literal)
    ensures var r := WarmUpFrom(e, fetch, literal, attempt);
            && r.0.available && r.0.updateFailures == 0
            && |r.1| == 2 * (k - attempt) + 1
            && AttemptsFrom(r.1[..2 * (k - attempt)], attempt, k - attempt)
            && r.1[2 * (k - attempt)] == Attempt(k)
    decreases k - attempt
  {
    if attempt < k {
      var u := FailedAttempt(e, c, fetch, literal, attempt);
      WarmUpFromFirstSuccess(u, c, fetch, literal, attempt + 1, k);
      PrependBeforeStop(WarmUpFrom(u, fetch, literal, attempt + 1).1, attempt, k - attempt - 1);
    } else {
      SucceededAttempt(e, fetch, literal, attempt);
      assert [Attempt(k)][..0] == [];
    }
  }

  /** A failed attempt: the loop sleeps and carries on from the entity `u` the attempt left. */
  lemma FailedAttempt(e: Entity, c: Config, fetch: nat -> Fetch, literal: Value -> Option<Value>, attempt: nat) returns (u: Entity)
    requires Supported(e) && e.config == Some(c) && e.ipAddress != "" && attempt < WarmUpAttempts
    requires Fails(c, fetch(attempt), literal)
    ensures Supported(u) && u.config == e.config && u.ipAddress == e.ipAddress
    ensures u.updateFailures == e.updateFailures && u.available == e.available
    ensures fetch(attempt).TransportError? ==> u == e
    ensures WarmUpFrom(e, fetch, literal, attempt)
            == (WarmUpFrom(u, fetch, literal, attempt + 1).0,
                [Attempt(attempt), Sleep(WarmUpSleepMs)] + WarmUpFrom(u, fetch, literal, attempt + 1).1)
  {
    WarmUpStep(e, fetch, literal, attempt);
    u := UpdateVacuum(e, fetch(attempt), literal).entity;
  }

  /** A successful attempt ends the loop with the entity available. */
  lemma SucceededAttempt(e: Entity, fetch: nat -> Fetch, literal: Value -> Option<Value>, attempt: nat)
    requires Supported(e) && e.config.Some? && e.ipAddress != "" && attempt < WarmUpAttempts
    requires !Fails(e.config.value, fetch(attempt), literal)
    ensures var r := WarmUpFrom(e, fetch, literal, attempt);
            r.0.available && r.0.updateFailures == 0 && r.1 == [Attempt(attempt)]
  {
    WarmUpStep(e, fetch, literal, attempt);
  }

  /** A failed attempt and its sleep put in front of a trace that stops after `n` rounds. */
  lemma PrependBeforeStop(t: seq<Event>, start: nat, n: nat)
    requires |t| == 2 * n + 1 && AttemptsFrom(t[..2 * n], start + 1, n)
    ensures var t' := [Attempt(start), Sleep(WarmUpSleepMs)] + t;
            && |t'| == 2 * (n + 1) + 1
            && AttemptsFrom(t'[..2 * (n + 1)], start, n + 1)
            && t'[2 * (n + 1)] == t[2 * n]
  {
    PrependAttempt(t[..2 * n], start, n);
    assert ([Attempt(start), Sleep(WarmUpSleepMs)] + t)[..2 * (n + 1)] == [Attempt(start), Sleep(WarmUpSleepMs)] + t[..2 * n];
  }

  /**
   * When attempt `k` is the first of the five that does not fail, the
   * warm-up makes attempts 0 to `k`, sleeps after each but the last, and
   * leaves the entity available.
   */
  lemma WarmUpFirstSuccess(e: Entity, fetch: nat -> Fetch, literal: Value -> Option<Value>, k: nat)
    requires Supported(e) && e.config.Some? && e.ipAddress != ""
    requires k < WarmUpAttempts
    requires forall i :: 0 <= i < k ==> Fails(e.config.value, fetch(i), literal)
    requires !Fails(e.config.value, fetch(k), literal)
    ensures var r := WarmUp(e, fetch, literal);
            && r.0.available && r.0.updateFailures == 0
            && |r.1| == 2 * k + 1
            && AttemptsFrom(r.1[..2 * k], 0, k)
            && r.1[2 * k] == Attempt(k)
  {
    WarmUpFromFirstSuccess(e, e.config.value, fetch, literal, 0, k);
  }
}
