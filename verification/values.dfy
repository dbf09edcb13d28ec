/**
 * Python values as they travel through the device protocol: the JSON subset a
 * Tuya data point can carry (floats are not modelled), also used for service
 * call parameters and for the decoded consumables literal.
 */
module Values {
  import opened Wrappers

  datatype Value =
    | Null
    | Bool(b: bool)
    | Int(i: int)
    | Str(s: string)
    | Arr(items: seq<Value>)
    | Obj(members: seq<(string, Value)>)

  /** Python truthiness: None, False, 0 and empty containers are false. */
  predicate Truthy(v: Value) {
    match v
    case Null => false
    case Bool(b) => b
    case Int(i) => i != 0
    case Str(s) => |s| > 0
    case Arr(xs) => |xs| > 0
    case Obj(ms) => |ms| > 0
  }

  /** Lists and dicts are unhashable: using one as a dict key raises TypeError. */
  predicate Hashable(v: Value) {
    !v.Arr? && !v.Obj?
  }

  /** A raw data-point snapshot: wire key to wire value. */
  type Snapshot = map<string, Value>

  /** `snapshot.get(key)`: an absent key reads as None. */
  function Get(snap: Snapshot, key: string): Value {
    if key in snap then snap[key] else Null
  }

  /**
   * Dict lookup on the members of an object. A dict built from a display or
   * from JSON keeps the last binding of a repeated key, so the last member
   * with that key is the one found.
   */
  function Member(ms: seq<(string, Value)>, key: string): (r: Option<Value>)
    ensures r.Some? <==> exists i :: 0 <= i < |ms| && ms[i].0 == key
    ensures r.Some? ==> exists i :: 0 <= i < |ms| && ms[i] == (key, r.value)
                                    && forall j :: i < j < |ms| ==> ms[j].0 != key
  {
    if |ms| == 0 then None
    else if ms[|ms| - 1].0 == key then Some(ms[|ms| - 1].1)
    else
      var r := Member(ms[..|ms| - 1], key);
      MemberOfFront(ms, key, r);
      r
  }

  /** A key the last member does not have is found in the front exactly as in the whole. */
  lemma MemberOfFront(ms: seq<(string, Value)>, key: string, r: Option<Value>)
    requires |ms| > 0 && ms[|ms| - 1].0 != key
    requires var front := ms[..|ms| - 1];
             && (r.Some? <==> exists i :: 0 <= i < |front| && front[i].0 == key)
             && (r.Some? ==> exists i :: 0 <= i < |front| && front[i] == (key, r.value)
                                         && forall j :: i < j < |front| ==> front[j].0 != key)
    ensures r.Some? <==> exists i :: 0 <= i < |ms| && ms[i].0 == key
    ensures r.Some? ==> exists i :: 0 <= i < |ms| && ms[i] == (key, r.value)
                                    && forall j :: i < j < |ms| ==> ms[j].0 != key
  {
    var front := ms[..|ms| - 1];
    if r.Some? {
      var i :| 0 <= i < |front| && front[i] == (key, r.value) && forall j :: i < j < |front| ==> front[j].0 != key;
      assert ms[i] == front[i];
      assert forall j :: i < j < |ms| ==> ms[j].0 != key by {
        forall j | i < j < |ms|
          ensures ms[j].0 != key
        {
          if j < |front| {
            assert ms[j] == front[j];
          }
        }
      }
    } else {
      forall i | 0 <= i < |ms|
        ensures ms[i].0 != key
      {
        if i < |front| {
          assert ms[i] == front[i];
        }
      }
    }
  }

  /**
   * `params.get(key, default)` after `params = params or {}`: a falsy
   * parameter reads as the empty dict, and None stands for the AttributeError
   * raised when a truthy parameter is not a dict.
   */
  function ParamsGet(params: Value, key: string, default: Value): (r: Option<Value>)
    ensures r.None? <==> Truthy(params) && !params.Obj?
    ensures !Truthy(params) ==> r == Some(default)
    ensures params.Obj? && Truthy(params) ==>
              r == Some(if Member(params.members, key).Some? then Member(params.members, key).value else default)
  {
    if !Truthy(params) then Some(default)
    else if params.Obj? then Some(Member(params.members, key).GetOr(default))
    else None
  }

  /** True when `needle` occurs as a contiguous piece of `hay`. */
  predicate IsSubstring(needle: string, hay: string)
    decreases |hay|
  {
    needle <= hay || (|hay| > 0 && IsSubstring(needle, hay[1..]))
  }

  /** Python `key in container` for a str key; None stands for TypeError. */
  function Contains(container: Value, key: string): Option<bool> {
    match container
    case Obj(ms) => Some(Member(ms, key).Some?)
    case Str(s) => Some(IsSubstring(key, s))
    case Arr(xs) => Some(Str(key) in xs)
    case _ => None
  }

  /** Python `container[key]` for a str key; None stands for the exception raised. */
  function Index(container: Value, key: string): Option<Value> {
    if container.Obj? then Member(container.members, key) else None
  }
}
