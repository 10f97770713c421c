/** Client code that uses the store only through the contracts of its
    operations, following the usage patterns of a desktop-entry writer.
    Names are parameters constrained by the validators, so each scenario
    covers every name of its kind. */
module Scenarios {
  import opened Wrappers
  import opened JavaString
  import opened Validation
  import opened IniStyle

  /** A value added to the default group reads back, and that group is the
      only one present. */
  method DefaultGroupRoundTrip(isNumber: string -> bool, g: string, k: string, v: string)
    requires ValidGroupName(g) && ValidKeyName(k) && '[' !in k && ']' !in k && '\n' !in v
  {
    var f := new IniStyleFile(g, isNumber);
    var r := f.AddDefault(k, v);
    assert r == Pass;
    assert f.GetDefault(k) == Some(v);
    assert f.GroupNames() == {g};
  }

  /** Adding the same group twice is the same as adding it once, and a new
      group starts empty. */
  method AddGroupTwice(isNumber: string -> bool, g: string)
    requires ValidGroupName(g)
  {
    var f := new IniStyleFile.Default(isNumber);
    var r1 := f.AddGroup(g);
    ghost var once := f.data;
    var r2 := f.AddGroup(g);
    assert r1 == r2 == Pass;
    assert f.data == once;
    assert f.GetGroup(g) == Some(map[]);
  }

  /** A removed group is gone, and removing it again fails. */
  method RemoveGroupTwice(isNumber: string -> bool, g: string, k: string, v: string)
    requires ValidGroupName(g) && ValidKeyName(k) && '\n' !in v
  {
    var f := new IniStyleFile.Default(isNumber);
    var r := f.Add(g, k, v);
    assert r == Pass;
    r := f.RemoveGroup(g);
    assert r == Pass && !f.ContainsGroup(g);
    r := f.RemoveGroup(g);
    assert r == Fail(NoSuchGroup);
  }

  /** Removing one key leaves its neighbour and its group in place. */
  method RemoveKeepsNeighbours(isNumber: string -> bool, g: string, k1: string, k2: string, v1: string, v2: string)
    requires ValidGroupName(g) && ValidKeyName(k1) && ValidKeyName(k2) && k1 != k2
    requires '\n' !in v1 && '\n' !in v2
  {
    var f := new IniStyleFile.Default(isNumber);
    var r := f.Add(g, k1, v1);
    r := f.Add(g, k2, v2);
    r := f.Remove(g, k1);
    assert r == Pass;
    assert f.Get(g, k2) == Some(v2) && f.Get(g, k1) == None;
    assert f.ContainsGroup(g);
  }

  /** A Boolean key takes "true" and rejects "1", keeping the stored value. */
  method BooleanKey(isNumber: string -> bool, g: string, k: string)
    requires ValidGroupName(g) && ValidKeyName(k) && '[' !in k && ']' !in k
  {
    var f := new IniStyleFile.Default(isNumber);
    f.AddKnownType(g, k, Boolean);
    assert CheckValidKeyValue(f.knownTypes, isNumber, g, k, "true") == Pass
        && CheckValidKeyValue(f.knownTypes, isNumber, g, k, "1") == Fail(NotABoolean) by {
      BooleanKeyExamples(f.knownTypes, isNumber, g, k);
    }
    var r := f.Add(g, k, "true");
    assert r == Pass;
    r := f.Add(g, k, "1");
    assert r == Fail(NotABoolean);
    assert f.Get(g, k) == Some("true");
  }

  /** An Integer key stores what the number parser accepts and rejects the
      rest. */
  method IntegerKey(isNumber: string -> bool, g: string, k: string, good: string, bad: string)
    requires ValidGroupName(g) && ValidKeyName(k) && '[' !in k && ']' !in k
    requires '\n' !in good && '\n' !in bad && isNumber(good) && !isNumber(bad)
  {
    var f := new IniStyleFile.Default(isNumber);
    f.AddKnownType(g, k, Integer);
    var r := f.Add(g, k, good);
    assert r == Pass;
    r := f.Add(g, k, bad);
    assert r == Fail(NotANumber);
    assert f.Get(g, k) == Some(good);
  }

  /** A bracketed key is stored in a group without registrations. */
  method BracketKeyInUntypedGroup(isNumber: string -> bool, g: string, k: string, v: string)
    requires ValidGroupName(g) && ValidKeyName(k) && '[' in k && '\n' !in v
  {
    var f := new IniStyleFile.Default(isNumber);
    var r := f.Add(g, k, v);
    assert r == Pass && f.Get(g, k) == Some(v);
  }

  /** Once a group has a registration, a bracketed key not registered as a
      locale string is rejected there, and the group is not created. */
  method BracketKeyInTypedGroup(isNumber: string -> bool, g: string, k: string, other: string, v: string)
    requires ValidGroupName(g) && ValidKeyName(k) && '[' in k && k != other && '\n' !in v
  {
    var f := new IniStyleFile.Default(isNumber);
    f.AddKnownType(g, other, String);
    var r := f.Add(g, k, v);
    assert r == Fail(KeyHasBracket);
    assert !f.ContainsGroup(g);
    f.AddKnownType(g, k, LocaleString);
    r := f.Add(g, k, v);
    assert r == Pass;
  }
}
