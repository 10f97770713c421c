/** The in-memory INI-style store: a map from group name to a map from key
    to value, a registry of declared key types, and a default group that the
    single-argument operations address. Every mutating call validates its
    input first and changes nothing when validation fails. */
module IniStyle {
  import opened Wrappers
  import opened JavaString
  import opened Validation

  /** The stored data: group name to key name to raw string value. */
  type Data = map<string, map<string, string>>

  /** The value stored under (g, k), None when the group or the key is absent. */
  function Lookup(data: Data, g: string, k: string): Option<string>
  {
    if g in data && k in data[g] then Some(data[g][k]) else None
  }

  /** The data with group g present: an existing group is kept as it is, a
      missing one is created empty; no value changes. */
  function WithGroup(data: Data, g: string): (r: Data)
    ensures r.Keys == data.Keys + {g}
    ensures g in data ==> r == data
    ensures g !in data ==> r[g] == map[]
    ensures forall g2, k2 :: Lookup(r, g2, k2) == Lookup(data, g2, k2)
  {
    if g in data then data else data[g := map[]]
  }

  /** The data after storing v under (g, k): the group is created if it is
      missing, an existing value is overwritten, and every other entry is
      as it was. */
  function Put(data: Data, g: string, k: string, v: string): (r: Data)
    ensures r.Keys == data.Keys + {g}
    ensures r[g].Keys == (if g in data then data[g].Keys else {}) + {k}
    ensures forall g2, k2 :: Lookup(r, g2, k2) == if g2 == g && k2 == k then Some(v) else Lookup(data, g2, k2)
  {
    var withGroup := WithGroup(data, g);
    withGroup[g := withGroup[g][k := v]]
  }

  /** The registry after declaring type t for (g, k): last declaration wins,
      every other declaration is kept, and g becomes a group with
      registrations. */
  function RegisterType(types: Types, g: string, k: string, t: ValueType): (r: Types)
    ensures r.Keys == types.Keys + {g}
    ensures forall g2, k2 :: TypeOf(r, g2, k2) == if g2 == g && k2 == k then Some(t) else TypeOf(types, g2, k2)
  {
    var groupTypes := if g in types then types[g] else map[];
    types[g := groupTypes[k := t]]
  }

  /** The structural invariant every store keeps whatever the registry says:
      group names, key names and values are all well-formed. */
  ghost predicate Wellformed(data: Data)
  {
    forall g :: g in data ==>
      ValidGroupName(g) && forall k :: k in data[g] ==> ValidKeyName(k) && '\n' !in data[g][k]
  }

  /** Every stored group name and entry passes the validators under the
      given registry: what the whole-store revalidation checks. */
  ghost predicate AllValid(data: Data, types: Types, isNumber: string -> bool)
  {
    forall g :: g in data ==>
      CheckValidGroupName(g).Pass? &&
      forall k :: k in data[g] ==> CheckValidKeyValue(types, isNumber, g, k, data[g][k]).Pass?
  }

  /** The error the revalidation may report: that of some stored group name,
      or of some entry in a group whose name passes. */
  ghost predicate ReportedByEntry(data: Data, types: Types, isNumber: string -> bool, e: Error)
  {
    exists g :: g in data &&
      (CheckValidGroupName(g) == Fail(e) ||
       (CheckValidGroupName(g).Pass? &&
        exists k :: k in data[g] && CheckValidKeyValue(types, isNumber, g, k, data[g][k]) == Fail(e)))
  }

  /** A store that passes revalidation is well-formed. */
  lemma AllValidIsWellformed(data: Data, types: Types, isNumber: string -> bool)
    requires AllValid(data, types, isNumber)
    ensures Wellformed(data)
  {
    forall g | g in data
      ensures ValidGroupName(g) && forall k :: k in data[g] ==> ValidKeyName(k) && '\n' !in data[g][k]
    {
      forall k | k in data[g] ensures ValidKeyName(k) && '\n' !in data[g][k] {
        assert CheckValidKeyValue(types, isNumber, g, k, data[g][k]).Pass?;
      }
    }
  }

  /** Storing a validated entry keeps the store well-formed. */
  lemma PutKeepsWellformed(data: Data, g: string, k: string, v: string)
    requires Wellformed(data)
    requires ValidGroupName(g) && ValidKeyName(k) && '\n' !in v
    ensures Wellformed(Put(data, g, k, v))
  {
    var r := Put(data, g, k, v);
    forall g2 | g2 in r
      ensures ValidGroupName(g2) && forall k2 :: k2 in r[g2] ==> ValidKeyName(k2) && '\n' !in r[g2][k2]
    {
      forall k2 | k2 in r[g2] ensures ValidKeyName(k2) && '\n' !in r[g2][k2] {
        assert Lookup(r, g2, k2) == Some(r[g2][k2]);
      }
    }
  }

  /** Storing an entry the validators accept keeps a fully valid store
      fully valid under the same registry. */
  lemma PutKeepsAllValid(data: Data, types: Types, isNumber: string -> bool, g: string, k: string, v: string)
    requires AllValid(data, types, isNumber)
    requires CheckValidGroupName(g).Pass? && CheckValidKeyValue(types, isNumber, g, k, v).Pass?
    ensures AllValid(Put(data, g, k, v), types, isNumber)
  {
    var r := Put(data, g, k, v);
    forall g2 | g2 in r
      ensures CheckValidGroupName(g2).Pass?
    {
      assert g2 == g || g2 in data;
    }
    forall g2, k2 | g2 in r && k2 in r[g2]
      ensures CheckValidKeyValue(types, isNumber, g2, k2, r[g2][k2]).Pass?
    {
      assert Lookup(r, g2, k2) == Some(r[g2][k2]);
      if g2 == g && k2 == k {
        assert r[g2][k2] == v;
      } else {
        assert Lookup(data, g2, k2) == Some(r[g2][k2]);
        assert g2 in data && k2 in data[g2];
      }
    }
  }

  /** Removing a key, or a whole group, keeps a fully valid store fully valid. */
  lemma RemovalsKeepAllValid(data: Data, types: Types, isNumber: string -> bool, g: string, k: string)
    requires AllValid(data, types, isNumber) && g in data
    ensures AllValid(data[g := data[g] - {k}], types, isNumber)
    ensures AllValid(data - {g}, types, isNumber)
  {
    var r := data[g := data[g] - {k}];
    forall g2, k2 | g2 in r && k2 in r[g2]
      ensures CheckValidKeyValue(types, isNumber, g2, k2, r[g2][k2]).Pass?
    {
      assert k2 in data[g2] && r[g2][k2] == data[g2][k2];
    }
  }

  /** Removing a key, or a whole group, keeps the store well-formed. */
  lemma RemovalsKeepWellformed(data: Data, g: string, k: string)
    requires Wellformed(data) && g in data
    ensures Wellformed(data[g := data[g] - {k}])
    ensures Wellformed(data - {g})
  {
    var r := data[g := data[g] - {k}];
    forall g2, k2 | g2 in r && k2 in r[g2]
      ensures ValidKeyName(k2) && '\n' !in r[g2][k2]
    {
      assert k2 in data[g2] && r[g2][k2] == data[g2][k2];
    }
  }

  /** A declaration for group g changes no verdict on entries of any other group. */
  lemma RegisterTypeIsLocalToItsGroup(types: Types, isNumber: string -> bool, g: string, k: string, t: ValueType,
                                      g2: string, k2: string, v: string)
    requires g2 != g
    ensures CheckValidKeyValue(RegisterType(types, g, k, t), isNumber, g2, k2, v)
         == CheckValidKeyValue(types, isNumber, g2, k2, v)
  {
    var r := RegisterType(types, g, k, t);
    assert g2 in r <==> g2 in types;
    assert TypeOf(r, g2, k2) == TypeOf(types, g2, k2);
  }

  /** A declaration is not applied to values already stored: a store that
      was fully valid stops being so once a stored key is declared Boolean,
      which only a revalidation detects. */
  lemma RegisterTypeIsNotRetroactive(isNumber: string -> bool)
    ensures AllValid(map["Main" := map["Flag" := "yes"]], map[], isNumber)
    ensures !AllValid(map["Main" := map["Flag" := "yes"]], RegisterType(map[], "Main", "Flag", Boolean), isNumber)
  {
    var data := map["Main" := map["Flag" := "yes"]];
    var types := RegisterType(map[], "Main", "Flag", Boolean);
    assert !IsBlank("Main") by { assert !IsSpace("Main"[0]); }
    assert !IsBlank("Flag") by { assert !IsSpace("Flag"[0]); }
    assert CheckValidGroupName("Main") == Pass;
    assert CheckValidKeyValue(map[], isNumber, "Main", "Flag", "yes") == Pass;
    assert data.Keys == {"Main"} && data["Main"].Keys == {"Flag"};
    assert !IsValidBoolean("yes");
    assert TypeOf(types, "Main", "Flag") == Some(Boolean);
    assert CheckValidKeyValue(types, isNumber, "Main", "Flag", data["Main"]["Flag"]) == Fail(NotABoolean);
  }

  /** The store. Java's `data` and `knownTypes` are final references to
      hash maps updated in place; here they are map-valued fields that the
      mutating methods reassign. `isNumber` is the floating-point parse
      test the store applies to Integer keys. */
  class IniStyleFile {
    var data: Data
    var knownTypes: Types
    const defaultGroup: string
    const isNumber: string -> bool

    /** Object invariant: what every store keeps after every call. */
    ghost predicate Valid()
      reads this
    {
      Wellformed(data)
    }

    /** An empty store whose single-argument operations address `defaultGroup`. */
    constructor (defaultGroup: string, isNumber: string -> bool)
      ensures Valid()
      ensures data == map[] && knownTypes == map[]
      ensures this.defaultGroup == defaultGroup && this.isNumber == isNumber
    {
      this.defaultGroup := defaultGroup;
      this.isNumber := isNumber;
      data := map[];
      knownTypes := map[];
    }

    /** An empty store whose default group is named "default". */
    constructor Default(isNumber: string -> bool)
      ensures Valid()
      ensures data == map[] && knownTypes == map[]
      ensures defaultGroup == "default" && this.isNumber == isNumber
    {
      defaultGroup := "default";
      this.isNumber := isNumber;
      data := map[];
      knownTypes := map[];
    }

    /** Makes group g present: rejected exactly as the group-name validator
      rejects it; an existing group is left untouched, so a second call is a
      no-op; a new group starts empty. */
    method AddGroup(g: string) returns (r: Outcome)
      requires Valid()
      modifies this`data
      ensures Valid()
      ensures r == CheckValidGroupName(g)
      ensures data == if r.Pass? then WithGroup(old(data), g) else old(data)
    {
      r := CheckValidGroupName(g);
      if r.Fail? {
        return;
      }
      if g in data {
        return;
      }
      data := data[g := map[]];
    }

    /** Stores v under (g, k). The group name is validated first, then the
      entry under the current registry; on either failure nothing changes.
      On success the group exists, get(g, k) yields v, and every other entry
      is as before. */
    method Add(g: string, k: string, v: string) returns (r: Outcome)
      requires Valid()
      modifies this`data
      ensures Valid()
      ensures CheckValidGroupName(g).Fail? ==> r == CheckValidGroupName(g)
      ensures CheckValidGroupName(g).Pass? ==> r == CheckValidKeyValue(knownTypes, isNumber, g, k, v)
      ensures r.Pass? ==> data == Put(old(data), g, k, v)
      ensures r.Fail? ==> data == old(data)
      ensures r.Pass? ==> ContainsGroup(g) && Get(g, k) == Some(v)
    {
      r := CheckValidGroupName(g);
      if r.Fail? {
        return;
      }
      r := CheckValidKeyValue(knownTypes, isNumber, g, k, v);
      if r.Fail? {
        return;
      }
      ghost var after := Put(data, g, k, v);
      assert Wellformed(after) by {
        PutKeepsWellformed(data, g, k, v);
      }
      ghost var before := data;
      if g !in data {
        var created := AddGroup(g);
      }
      assert data == WithGroup(before, g);
      data := data[g := data[g][k := v]];
    }

    /** add(key, value): Add on the default group. */
    method AddDefault(k: string, v: string) returns (r: Outcome)
      requires Valid()
      modifies this`data
      ensures Valid()
      ensures CheckValidGroupName(defaultGroup).Fail? ==> r == CheckValidGroupName(defaultGroup)
      ensures CheckValidGroupName(defaultGroup).Pass? ==> r == CheckValidKeyValue(knownTypes, isNumber, defaultGroup, k, v)
      ensures data == if r.Pass? then Put(old(data), defaultGroup, k, v) else old(data)
      ensures r.Pass? ==> GetDefault(k) == Some(v)
    {
      r := Add(defaultGroup, k, v);
    }

    /** The stored value of (g, k); None (Java's null) when the group is
      absent or does not hold the key. */
    function Get(g: string, k: string): (r: Option<string>)
      reads this
      ensures r.Some? <==> g in data && k in data[g]
      ensures r.Some? ==> r.value == data[g][k]
    {
      Lookup(data, g, k)
    }

    /** get(key): Get on the default group. */
    function GetDefault(k: string): (r: Option<string>)
      reads this
      ensures r.Some? <==> defaultGroup in data && k in data[defaultGroup]
      ensures r.Some? ==> r.value == data[defaultGroup][k]
      ensures r == Get(defaultGroup, k)
    {
      Get(defaultGroup, k)
    }

    /** containsKey(group, key) agrees with get: true exactly when get
      finds a value. */
    function ContainsKey(g: string, k: string): (b: bool)
      reads this
      ensures b <==> Get(g, k).Some?
    {
      if g !in data then false else k in data[g]
    }

    /** containsKey(key): ContainsKey on the default group. */
    function ContainsDefaultKey(k: string): (b: bool)
      reads this
      ensures b <==> GetDefault(k).Some?
    {
      ContainsKey(defaultGroup, k)
    }

    /** A copy of group g's entries, None when g is absent: it holds exactly
      the keys containsKey reports, with the values get returns. Being a
      value, it cannot be used to change the store. */
    function GetGroup(g: string): (r: Option<map<string, string>>)
      reads this
      ensures r.Some? <==> g in data
      ensures r.None? ==> forall k :: !ContainsKey(g, k)
      ensures r.Some? ==> forall k :: k in r.value <==> ContainsKey(g, k)
      ensures r.Some? ==> forall k :: k in r.value ==> Get(g, k) == Some(r.value[k])
    {
      if g !in data then None else Some(data[g])
    }

    /** containsGroup agrees with getGroup: true exactly when getGroup
      returns a map. */
    function ContainsGroup(g: string): (b: bool)
      reads this
      ensures b <==> GetGroup(g).Some?
    {
      g in data
    }

    /** The names of the present groups: exactly those containsGroup
      reports. */
    function GroupNames(): (names: set<string>)
      reads this
      ensures forall g :: g in names <==> ContainsGroup(g)
    {
      data.Keys
    }

    /** The default group's value for k split on commas as String.split does,
      None when the key is absent. */
    function GetAsList(k: string): (r: Option<seq<string>>)
      reads this
      ensures r.Some? <==> ContainsDefaultKey(k)
      ensures r.Some? ==> forall i :: 0 <= i < |r.value| ==> ',' !in r.value[i]
      ensures r.Some? ==> r.value == JavaSplit(GetDefault(k).value)
    {
      match GetDefault(k)
      case None => None
      case Some(value) => Some(JavaSplit(value))
    }

    /** Deletes key k of group g. Fails without change when the group is
      absent, or when the key is absent from it; otherwise removes only that
      key and keeps the group, even if it becomes empty. */
    method Remove(g: string, k: string) returns (r: Outcome)
      requires Valid()
      modifies this`data
      ensures Valid()
      ensures r == Fail(NoSuchGroup) <==> g !in old(data)
      ensures r == Fail(NoSuchKey) <==> g in old(data) && k !in old(data)[g]
      ensures r.Pass? || r == Fail(NoSuchGroup) || r == Fail(NoSuchKey)
      ensures r.Pass? ==> data == old(data)[g := old(data)[g] - {k}]
      ensures r.Fail? ==> data == old(data)
      ensures r.Pass? ==> ContainsGroup(g) && !ContainsKey(g, k)
    {
      if g !in data {
        return Fail(NoSuchGroup);
      }
      if k !in data[g] {
        return Fail(NoSuchKey);
      }
      assert Wellformed(data[g := data[g] - {k}]) by {
        RemovalsKeepWellformed(data, g, k);
      }
      data := data[g := data[g] - {k}];
      r := Pass;
    }

    /** remove(key): Remove on the default group. */
    method RemoveDefault(k: string) returns (r: Outcome)
      requires Valid()
      modifies this`data
      ensures Valid()
      ensures r == Fail(NoSuchGroup) <==> defaultGroup !in old(data)
      ensures r == Fail(NoSuchKey) <==> defaultGroup in old(data) && k !in old(data)[defaultGroup]
      ensures r.Pass? || r == Fail(NoSuchGroup) || r == Fail(NoSuchKey)
      ensures r.Pass? ==> ContainsGroup(defaultGroup) && !ContainsDefaultKey(k)
      ensures data == if r.Pass? then old(data)[defaultGroup := old(data)[defaultGroup] - {k}] else old(data)
    {
      r := Remove(defaultGroup, k);
    }

    /** Deletes group g with all its keys. Fails without change when g is
      absent; otherwise only g disappears. */
    method RemoveGroup(g: string) returns (r: Outcome)
      requires Valid()
      modifies this`data
      ensures Valid()
      ensures r.Pass? <==> g in old(data)
      ensures r.Fail? ==> r == Fail(NoSuchGroup)
      ensures r.Pass? ==> data == old(data) - {g}
      ensures r.Fail? ==> data == old(data)
      ensures !ContainsGroup(g)
    {
      if g !in data {
        return Fail(NoSuchGroup);
      }
      assert Wellformed(data - {g}) by {
        RemovalsKeepWellformed(data, g, "");
      }
      data := data - {g};
      r := Pass;
    }

    /** Declares type t for (g, k) without validating either name; the last
      declaration wins and stored values are not re-examined. */
    method AddKnownType(g: string, k: string, t: ValueType)
      requires Valid()
      modifies this`knownTypes
      ensures Valid()
      ensures knownTypes == RegisterType(old(knownTypes), g, k, t)
    {
      var groupTypes := if g in knownTypes then knownTypes[g] else map[];
      knownTypes := knownTypes[g := groupTypes[k := t]];
    }

    /** Revalidates every stored group name and entry against the current
      registry. Passes exactly when the whole store is valid; otherwise
      reports the error of some failing group name or entry (which one
      depends on the iteration order). */
    method CheckAllValid() returns (r: Outcome)
      ensures r.Pass? <==> AllValid(data, knownTypes, isNumber)
      ensures r.Fail? ==> ReportedByEntry(data, knownTypes, isNumber, r.error)
    {
      var groups := data.Keys;
      while groups != {}
        invariant groups <= data.Keys
        invariant forall g :: g in data && g !in groups ==>
          CheckValidGroupName(g).Pass? &&
          forall k :: k in data[g] ==> CheckValidKeyValue(knownTypes, isNumber, g, k, data[g][k]).Pass?
        decreases groups
      {
        var g :| g in groups;
        r := CheckValidGroupName(g);
        if r.Fail? {
          return;
        }
        var keys := data[g].Keys;
        while keys != {}
          invariant keys <= data[g].Keys
          invariant forall k :: k in data[g] && k !in keys ==>
            CheckValidKeyValue(knownTypes, isNumber, g, k, data[g][k]).Pass?
          decreases keys
        {
          var k :| k in keys;
          r := CheckValidKeyValue(knownTypes, isNumber, g, k, data[g][k]);
          if r.Fail? {
            return;
          }
          keys := keys - {k};
        }
        groups := groups - {g};
      }
      r := Pass;
    }
  }
}
