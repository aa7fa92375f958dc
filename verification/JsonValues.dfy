/** JSON values as the reader's callers see them, and the accessors of json.c. A NULL
    json_value pointer is None; strings are C strings, so they hold no NUL. */
module JsonValues {
  import opened Options

  datatype Json =
    | Null
    | Bool(b: bool)
    | Number(n: real)
    | String(s: string)
    | Array(items: seq<Json>)
    | Object(members: seq<(string, Json)>)

  /** The value of the first member with this key, from position i on. */
  function Lookup(members: seq<(string, Json)>, key: string, i: nat): Option<Json>
    requires i <= |members|
    decreases |members| - i
  {
    if i == |members| then None
    else if members[i].0 == key then Some(members[i].1)
    else Lookup(members, key, i + 1)
  }

  function Get(v: Option<Json>, key: string): Option<Json>
  {
    if v.Some? && v.value.Object? then Lookup(v.value.members, key, 0) else None
  }

  function ArraySize(v: Option<Json>): nat
  {
    if v.Some? && v.value.Array? then |v.value.items| else 0
  }

  function ArrayGet(v: Option<Json>, i: nat): Option<Json>
  {
    if i < ArraySize(v) then Some(v.value.items[i]) else None
  }

  function AsBool(v: Option<Json>, default: bool): bool
  {
    if v.Some? && v.value.Bool? then v.value.b else default
  }

  function AsNumber(v: Option<Json>, default: real): real
  {
    if v.Some? && v.value.Number? then v.value.n else default
  }

  function AsString(v: Option<Json>, default: Option<string>): Option<string>
  {
    if v.Some? && v.value.String? then Some(v.value.s) else default
  }

  /** json_object_get scans for the first member with the key. */
  method ObjectGet(v: Option<Json>, key: string) returns (r: Option<Json>)
    ensures r == Get(v, key)
  {
    if v.None? || !v.value.Object? {
      return None;
    }
    var members := v.value.members;
    for i := 0 to |members|
      invariant Lookup(members, key, 0) == Lookup(members, key, i)
    {
      if members[i].0 == key {
        return Some(members[i].1);
      }
    }
    return None;
  }

  /** What a lookup returns: the first member with the key, whatever follows it. */
  lemma {:induction false} LookupFirst(members: seq<(string, Json)>, key: string, i: nat)
    requires i <= |members|
    ensures var r := Lookup(members, key, i);
      && (r.None? <==> forall j :: i <= j < |members| ==> members[j].0 != key)
      && (r.Some? ==> exists j :: i <= j < |members| && members[j] == (key, r.value) &&
                         forall h :: i <= h < j ==> members[h].0 != key)
    decreases |members| - i
  {
    if i < |members| && members[i].0 != key {
      LookupFirst(members, key, i + 1);
      var r := Lookup(members, key, i);
      if r.Some? {
        var j :| i + 1 <= j < |members| && members[j] == (key, r.value) &&
                 forall h :: i + 1 <= h < j ==> members[h].0 != key;
        assert forall h :: i <= h < j ==> members[h].0 != key;
      }
    } else if i < |members| {
      assert members[i] == (key, members[i].1);
    }
  }
}
