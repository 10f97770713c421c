# IniStyleFile in Dafny

A model of the in-memory store behind xdg-java's desktop-entry support,
`org.freedesktop.IniStyleFile`. The store keeps the contents of an INI-style
document of the kind the freedesktop Desktop Entry Specification describes:
named groups (`[Desktop Entry]`), each holding `Key=Value` entries. Beside
the data it keeps a registry of declared value types per (group, key), which
tightens validation of later writes, and a default group that the
single-argument operations address.

Files and modules:

- `wrappers.dfy` (`Wrappers`): `Option`, standing for a Java reference that
  may be null.
- `java_string.dfy` (`JavaString`): the `java.lang.String` behaviour the
  store relies on. `Trim` removes characters up to U+0020 from both ends, as
  `String.trim()` does. `ToLowerAscii` lower-cases ASCII letters.
  `JavaSplit` is `String.split(",")`: split at every comma, then drop
  trailing empty segments, but return `[s]` for a string without a comma.
  `SplitAll` and `Join` are its reference pair and round-trip both ways.
- `validation.dfy` (`Validation`): `ValueType`; one `Error` per failure condition;
  `Outcome` (pass, or the thrown error); and the three validators
  `CheckValidGroupName`, `CheckValidKeyValue` and `IsValidBoolean`. Each is
  tied to an independent statement of the rule it enforces.
- `ini_style_file.dfy` (`IniStyle`): the state transitions as functions on
  the two maps (`WithGroup`, `Put`, `RegisterType`), the invariants
  `Wellformed` (group names, keys and values are syntactically valid, kept
  by every call) and `AllValid` (everything passes the validators under the
  current registry), the lemmas that relate them, and the class
  `IniStyleFile`. Its `data` and `knownTypes` fields are maps that the
  mutating methods reassign, as the Java methods update their `HashMap`s in
  place. Each mutating method states its new state: on failure it is the old
  state, and on success it is a function of the old state.
- `scenarios.dfy` (`Scenarios`): client methods that use the class through
  its contracts only. They cover idempotent `addGroup`, the add/get round
  trip on the default group, removal isolation, typed Boolean and Integer
  keys, and the bracket rule in untyped and typed groups.

Where the code and the usual description of this store differ, the model
follows the code:

- The rule that a key must not contain `[` or `]` applies only in a group
  that already has a type registration (IniStyleFile.java:186, :193). In a
  group without registrations, `Bad[Key` is accepted and stored
  (`BracketKeyAcceptedInUntypedGroup`, `Scenarios.BracketKeyInUntypedGroup`).
  In a group with registrations, the rule also applies to keys that have no
  registration of their own.
- `getAsList` uses `String.split(",")`, which drops trailing empty segments.
  `"a,,"` gives `["a"]` and `","` gives `[]`. Leading and interior empty
  segments are kept.
- Declaring a type does not re-examine stored values. A store that was valid
  can become invalid, and only `checkAllValid` notices
  (`RegisterTypeIsNotRetroactive`).

## Model

| member | source | states |
|---|---|---|
| `JavaString.Trim` | src/main/java/org/freedesktop/IniStyleFile.java:168 | `trim()` returns an infix of the input, with only space characters (code ≤ U+0020) outside it. A non-empty result starts and ends with a non-space. The result is empty exactly when the whole string is spaces. |
| `JavaString.ToLowerAscii` | src/main/java/org/freedesktop/IniStyleFile.java:215 | Same length as the input. Each character is lower-cased if it is an ASCII capital and kept otherwise. |
| `JavaString.SplitAll` | src/main/java/org/freedesktop/IniStyleFile.java:113 | Splitting at every comma gives one more segment than there are commas. No segment contains a comma, and joining the segments with commas gives the input back. |
| `JavaString.SplitAllOfJoin` | src/main/java/org/freedesktop/IniStyleFile.java:113 | The other round trip: any non-empty list of comma-free segments is exactly what splitting their join yields. |
| `JavaString.JavaSplit` | src/main/java/org/freedesktop/IniStyleFile.java:113-115 | `split(",")` returns `[s]` when s has no comma. Otherwise it returns a prefix of all segments; every segment dropped is empty, and the last one kept is not empty. No result segment contains a comma. |
| `JavaString.JavaSplitKeepsInteriorEmpty` | src/main/java/org/freedesktop/IniStyleFile.java:113-114 | `"a,,b"` splits to `["a", "", "b"]`. |
| `JavaString.JavaSplitKeepsLeadingEmpty` | src/main/java/org/freedesktop/IniStyleFile.java:113-114 | `",a"` splits to `["", "a"]`. |
| `JavaString.JavaSplitDropsTrailingEmpty` | src/main/java/org/freedesktop/IniStyleFile.java:113-114 | `"a,,"` splits to `["a"]` and `","` splits to `[]`. |
| `Validation.CheckValidGroupName` | src/main/java/org/freedesktop/IniStyleFile.java:164-177 | Accepts exactly the names that are non-blank after trim and contain no `[`, `]` or newline. A blank name is reported as blank. A non-blank name with a bracket is reported as a bracket error. Otherwise a name with a newline is reported as a newline error. |
| `Validation.IsValidBoolean` | src/main/java/org/freedesktop/IniStyleFile.java:214-216 | True exactly for "true" (4 letters) and "false" (5 letters), with each letter in either case. |
| `Validation.CheckValidKeyValue` | src/main/java/org/freedesktop/IniStyleFile.java:179-212 | Passes exactly when all of these hold: the key has no newline or `=` and is not blank; the value has no newline; if the group has registrations and the key is not registered as a locale string, the key has no bracket; a Boolean key's value passes `IsValidBoolean`; an Integer key's value passes the number test. A bad key is reported before a bad value. |
| `Validation.BracketKeyAcceptedInUntypedGroup` | src/main/java/org/freedesktop/IniStyleFile.java:186-196 | In a group without registrations, `Bad[Key` passes validation. |
| `Validation.BracketKeyRejectedInTypedGroup` | src/main/java/org/freedesktop/IniStyleFile.java:186-196 | In a group with registrations, a well-formed key with a bracket is rejected with the bracket error unless it is registered as a locale string. |
| `Validation.BooleanKeyExamples` | src/main/java/org/freedesktop/IniStyleFile.java:198-202 | A Boolean key accepts "true", "True" and "false". It rejects "yes" and "1" with the boolean error. |
| `Validation.BooleanKeyDefersToIsValidBoolean` | src/main/java/org/freedesktop/IniStyleFile.java:198-202 | For a well-formed Boolean key and value, validation passes exactly when `IsValidBoolean` accepts the value. Otherwise it reports the boolean error. |
| `Validation.IntegerKeyDefersToNumberParser` | src/main/java/org/freedesktop/IniStyleFile.java:204-208 | For a well-formed Integer key and value, validation passes exactly when the number test accepts the value. Otherwise it reports the number error. |
| `IniStyle.WithGroup` | src/main/java/org/freedesktop/IniStyleFile.java:51-55 | Adds g to the group names. An existing group is kept unchanged and a new one is empty. No (group, key) lookup changes. |
| `IniStyle.Put` | src/main/java/org/freedesktop/IniStyleFile.java:63-69 | The group names gain g, and the group's keys gain k. Looking up (g, k) gives v, and every other (group, key) lookup is unchanged. |
| `IniStyle.RegisterType` | src/main/java/org/freedesktop/IniStyleFile.java:228-235 | g becomes a group with registrations, and (g, k) now has type t. Every other registration is unchanged. |
| `IniStyle.AllValidIsWellformed` | src/main/java/org/freedesktop/IniStyleFile.java:154-162 | A store that passes whole-store revalidation has valid group names, key names and values. |
| `IniStyle.PutKeepsWellformed` | src/main/java/org/freedesktop/IniStyleFile.java:59-70 | Storing a validated entry keeps group names, key names and values valid. |
| `IniStyle.PutKeepsAllValid` | src/main/java/org/freedesktop/IniStyleFile.java:59-70 | Storing an entry that passes both validators keeps a fully valid store fully valid under the same registry. |
| `IniStyle.RemovalsKeepWellformed` | src/main/java/org/freedesktop/IniStyleFile.java:122-152 | Removing a key or a whole group keeps names and values valid. |
| `IniStyle.RemovalsKeepAllValid` | src/main/java/org/freedesktop/IniStyleFile.java:122-152 | Removing a key or a whole group keeps a fully valid store fully valid. |
| `IniStyle.RegisterTypeIsLocalToItsGroup` | src/main/java/org/freedesktop/IniStyleFile.java:186-188 | A registration in group g changes no validation verdict for entries of any other group. |
| `IniStyle.RegisterTypeIsNotRetroactive` | src/main/java/org/freedesktop/IniStyleFile.java:228-235 | A store holding `Flag=yes` in `Main` is fully valid with no registrations. It stops being valid once `Flag` is declared Boolean. |
| `IniStyle.IniStyleFile.constructor` | src/main/java/org/freedesktop/IniStyleFile.java:30-34 | A new store is empty, has no registrations, and has the given default group. |
| `IniStyle.IniStyleFile.Default` | src/main/java/org/freedesktop/IniStyleFile.java:26-28 | Like the constructor, with the default group named "default". |
| `IniStyle.IniStyleFile.AddGroup` | src/main/java/org/freedesktop/IniStyleFile.java:48-57 | The outcome is the group-name validator's. On failure the data is unchanged. On success the data is `WithGroup` of the old data, so a second call changes nothing. |
| `IniStyle.IniStyleFile.Add` | src/main/java/org/freedesktop/IniStyleFile.java:59-70 | The outcome is the group-name error if there is one, and otherwise the key/value validator's outcome. On failure the data is unchanged: no group is created. On success the data is `Put` of the old data, the group exists, and `Get(g, k)` is v. |
| `IniStyle.IniStyleFile.AddDefault` | src/main/java/org/freedesktop/IniStyleFile.java:75-77 | `Add` on the default group, with the same outcome and the same new state. On success `GetDefault(k)` reads v back, which is the add(key, value)/get(key) round trip. |
| `IniStyle.IniStyleFile.Get` | src/main/java/org/freedesktop/IniStyleFile.java:94-102 | Returns a value exactly when group g is present and holds key k, and the value is the one stored there. Otherwise it returns None (Java's null), including when g is absent. |
| `IniStyle.IniStyleFile.GetDefault` | src/main/java/org/freedesktop/IniStyleFile.java:104-106 | Returns a value exactly when the default group is present and holds k, and the value is the stored one. It agrees with `Get` on the default group. |
| `IniStyle.IniStyleFile.ContainsKey` | src/main/java/org/freedesktop/IniStyleFile.java:87-92 | True exactly when `Get` finds a value for (g, k). |
| `IniStyle.IniStyleFile.ContainsDefaultKey` | src/main/java/org/freedesktop/IniStyleFile.java:83-85 | True exactly when `GetDefault` finds a value. |
| `IniStyle.IniStyleFile.GetGroup` | src/main/java/org/freedesktop/IniStyleFile.java:138-144 | Returns None exactly when g is absent, and then `ContainsKey` is false for every key. Otherwise it returns a value copy with exactly the keys `ContainsKey` reports and the values `Get` returns. |
| `IniStyle.IniStyleFile.ContainsGroup` | src/main/java/org/freedesktop/IniStyleFile.java:79-81 | True exactly when `GetGroup` returns a map. |
| `IniStyle.IniStyleFile.GroupNames` | src/main/java/org/freedesktop/IniStyleFile.java:134-136 | Contains exactly the groups for which `ContainsGroup` holds. |
| `IniStyle.IniStyleFile.GetAsList` | src/main/java/org/freedesktop/IniStyleFile.java:108-116 | Returns None exactly when the default group has no value for k. Otherwise it returns `JavaSplit` of that value, whose segments contain no comma. |
| `IniStyle.IniStyleFile.Remove` | src/main/java/org/freedesktop/IniStyleFile.java:122-132 | Fails with the missing-group error exactly when g is absent. Fails with the missing-key error exactly when g is present without k. Nothing changes on failure. On success only k leaves g, and g stays present. |
| `IniStyle.IniStyleFile.RemoveDefault` | src/main/java/org/freedesktop/IniStyleFile.java:118-120 | `Remove` on the default group. Its only outcomes are success, the missing-group error and the missing-key error, each under the same condition as in `Remove`. On success only k leaves the default group, which stays present and no longer holds k. |
| `IniStyle.IniStyleFile.RemoveGroup` | src/main/java/org/freedesktop/IniStyleFile.java:146-152 | Passes exactly when g was present and otherwise reports the missing-group error. On success only g disappears. On failure nothing changes. Afterwards g is absent either way. |
| `IniStyle.IniStyleFile.AddKnownType` | src/main/java/org/freedesktop/IniStyleFile.java:228-235 | The registry becomes `RegisterType` of the old one. The data is untouched. |
| `IniStyle.IniStyleFile.CheckAllValid` | src/main/java/org/freedesktop/IniStyleFile.java:154-162 | Passes exactly when every stored group name and entry passes the validators under the current registry. Otherwise it reports the error of some failing group name, or of some failing entry in a group whose name passes. |

## Left out

- Null arguments: Dafny strings cannot be null, so the null checks at IniStyleFile.java:165-167, :180 and :183 are not modelled. Neither is a null `ValueType` given to `addKnownType`, which Java would store as an untyped registration.
- `isValidNumber` (IniStyleFile.java:218-226) depends on `Double.parseDouble`. It is the `isNumber` predicate that the store's constructors receive, and no property of floating-point syntax is assumed.
- `IsValidBoolean`: `toLowerCase()` depends on the default locale, and the model lower-cases ASCII letters only. No non-ASCII character lower-cases to a letter of "true" or "false", so the verdict does not change.
- The copy constructors (IniStyleFile.java:36-46) share the other store's maps instead of copying them. Modelling the shared maps would take heap objects, so they are not modelled. `CheckAllValid`, which they call, is modelled.
- `GroupNames` returns the set of group names, not the sorted `TreeSet`. `CheckAllValid` walks groups and keys in an unspecified order, so which failing entry it reports is not pinned down.
- Errors are `Error` constructors, one per failure condition, not exception messages. `NoSuchGroup` stands for both the `remove` and the `removeGroup` throw (IniStyleFile.java:124, :148).
- The methods are `protected` or public and can be overridden in subclasses. The model is one class and does not model overriding.
- The store is not synchronized, and the model is sequential.
- `DesktopEntryWriter.java` passes the store to an `IniStyleFileWriter`, which writes to a `java.io.Writer`. IniStyleFileWriter is not part of this model.
