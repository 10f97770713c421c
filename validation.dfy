/** The value types a key can be registered with, the errors the store
    reports, and the validators that every mutating operation runs before it
    changes anything. */
module Validation {
  import opened Wrappers
  import opened JavaString

  /** The declared type of a key; values are always stored as raw strings. */
  datatype ValueType =
    | LocaleString
    | Strings
    | String
    | Integers
    | Integer
    | Boolean
    | Points

  /** One constructor per failure condition the store reports by throwing
      IllegalArgumentException (NoSuchGroup covers both removals). */
  datatype Error =
    | BlankGroupName        // group name is empty after trim()
    | GroupNameHasBracket   // group name contains '[' or ']'
    | GroupNameHasNewline   // group name contains '\n'
    | InvalidKey            // key contains '\n' or '=', or is blank
    | InvalidValue          // value contains '\n'
    | KeyHasBracket         // '[' or ']' in a key not registered as a locale string
    | NotABoolean           // value of a Boolean key is not true/false
    | NotANumber            // value of an Integer key is rejected by the number parser
    | NoSuchGroup           // removal from or of a group that is absent
    | NoSuchKey             // removal of a key that is absent from its group

  /** The outcome of a validator or of a mutating call: a thrown exception
      becomes Fail. */
  datatype Outcome = Pass | Fail(error: Error)

  /** The type registry: group name to key name to declared type. */
  type Types = map<string, map<string, ValueType>>

  /** The registered type of (g, k), None when untyped. */
  function TypeOf(types: Types, g: string, k: string): Option<ValueType>
  {
    if g in types && k in types[g] then Some(types[g][k]) else None
  }

  /** A group name that can appear as a [Group] header. */
  predicate ValidGroupName(g: string)
  {
    !IsBlank(g) && '[' !in g && ']' !in g && '\n' !in g
  }

  /** Accepts a group name unless it is blank after trim(), contains a
      bracket, or contains a newline; when several rules fail, the first of
      them in that order is the one reported. */
  function CheckValidGroupName(g: string): (r: Outcome)
    ensures r.Pass? <==> ValidGroupName(g)
    ensures r == Fail(BlankGroupName) <==> IsBlank(g)
    ensures r == Fail(GroupNameHasBracket) <==> !IsBlank(g) && ('[' in g || ']' in g)
    ensures r == Fail(GroupNameHasNewline) <==> !IsBlank(g) && '[' !in g && ']' !in g && '\n' in g
  {
    if |Trim(g)| == 0 then Fail(BlankGroupName)
    else if '[' in g || ']' in g then Fail(GroupNameHasBracket)
    else if '\n' in g then Fail(GroupNameHasNewline)
    else Pass
  }

  /** A key name that can appear left of '=' on a line of its own. */
  predicate ValidKeyName(k: string)
  {
    '\n' !in k && '=' !in k && !IsBlank(k)
  }

  /** c matches the lower-case ASCII letter `lower` in either case. */
  predicate SameLetter(c: char, lower: char)
    requires 'a' <= lower <= 'z'
  {
    c == lower || c as int == lower as int - 32
  }

  /** Accepts exactly "true" and "false" written in any mix of upper and
      lower case, letter by letter. */
  function IsValidBoolean(v: string): (b: bool)
    ensures b <==>
      || (|v| == 4 && SameLetter(v[0], 't') && SameLetter(v[1], 'r')
                   && SameLetter(v[2], 'u') && SameLetter(v[3], 'e'))
      || (|v| == 5 && SameLetter(v[0], 'f') && SameLetter(v[1], 'a')
                   && SameLetter(v[2], 'l') && SameLetter(v[3], 's') && SameLetter(v[4], 'e'))
  {
    var lower := ToLowerAscii(v);
    lower == "true" || lower == "false"
  }

  /** Everything a (group, key, value) triple must satisfy to be stored:
      the key and value syntax always; the bracket rule only in a group that
      has type registrations; the boolean and number rules only for keys
      registered with those types. */
  predicate KeyValueAccepted(types: Types, isNumber: string -> bool, g: string, k: string, v: string)
  {
    && ValidKeyName(k)
    && '\n' !in v
    && (g in types && TypeOf(types, g, k) != Some(LocaleString) ==> '[' !in k && ']' !in k)
    && (TypeOf(types, g, k) == Some(Boolean) ==> IsValidBoolean(v))
    && (TypeOf(types, g, k) == Some(Integer) ==> isNumber(v))
  }

  /** The key/value validator: passes exactly the accepted triples, and
      reports a bad key before a bad value. `isNumber` stands for the
      floating-point parse test used for Integer keys. */
  function CheckValidKeyValue(types: Types, isNumber: string -> bool, g: string, k: string, v: string): (r: Outcome)
    ensures r.Pass? <==> KeyValueAccepted(types, isNumber, g, k, v)
    ensures r == Fail(InvalidKey) <==> !ValidKeyName(k)
    ensures r == Fail(InvalidValue) <==> ValidKeyName(k) && '\n' in v
  {
    if '\n' in k || '=' in k || |Trim(k)| == 0 then Fail(InvalidKey)
    else if '\n' in v then Fail(InvalidValue)
    else if g in types then
      var valueType := if k in types[g] then Some(types[g][k]) else None;
      if valueType != Some(LocaleString) && ('[' in k || ']' in k) then Fail(KeyHasBracket)
      else if valueType == Some(Boolean) && !IsValidBoolean(v) then Fail(NotABoolean)
      else if valueType == Some(Integer) && !isNumber(v) then Fail(NotANumber)
      else Pass
    else Pass
  }

  /** In a group without type registrations a key may contain brackets:
      the bracket rule is not applied there. */
  lemma BracketKeyAcceptedInUntypedGroup(types: Types, isNumber: string -> bool, g: string)
    requires g !in types
    ensures CheckValidKeyValue(types, isNumber, g, "Bad[Key", "v") == Pass
  {
    assert "Bad[Key"[0] == 'B';
  }

  /** Once a group has a registration, a bracketed key is rejected in it
      unless that key itself is registered as a locale string. */
  lemma BracketKeyRejectedInTypedGroup(types: Types, isNumber: string -> bool, g: string, k: string, v: string)
    requires g in types && TypeOf(types, g, k) != Some(LocaleString)
    requires ValidKeyName(k) && '\n' !in v && ('[' in k || ']' in k)
    ensures CheckValidKeyValue(types, isNumber, g, k, v) == Fail(KeyHasBracket)
  {
  }

  /** A key registered as Boolean accepts "true", "True" and "false" and
      rejects "yes" and "1". */
  lemma BooleanKeyExamples(types: Types, isNumber: string -> bool, g: string, k: string)
    requires TypeOf(types, g, k) == Some(Boolean) && ValidKeyName(k) && '[' !in k && ']' !in k
    ensures CheckValidKeyValue(types, isNumber, g, k, "true") == Pass
    ensures CheckValidKeyValue(types, isNumber, g, k, "True") == Pass
    ensures CheckValidKeyValue(types, isNumber, g, k, "false") == Pass
    ensures CheckValidKeyValue(types, isNumber, g, k, "yes") == Fail(NotABoolean)
    ensures CheckValidKeyValue(types, isNumber, g, k, "1") == Fail(NotABoolean)
  {
    assert !SameLetter("yes"[0], 't');
  }

  /** For a key registered as Boolean the verdict on a well-formed value is
      exactly IsValidBoolean's, and a rejected value gets the boolean error. */
  lemma BooleanKeyDefersToIsValidBoolean(types: Types, isNumber: string -> bool, g: string, k: string, v: string)
    requires TypeOf(types, g, k) == Some(Boolean) && ValidKeyName(k) && '[' !in k && ']' !in k && '\n' !in v
    ensures CheckValidKeyValue(types, isNumber, g, k, v).Pass? <==> IsValidBoolean(v)
    ensures !IsValidBoolean(v) ==> CheckValidKeyValue(types, isNumber, g, k, v) == Fail(NotABoolean)
  {
  }

  /** For a key registered as Integer the verdict on a well-formed value is
      exactly the number parser's. */
  lemma IntegerKeyDefersToNumberParser(types: Types, isNumber: string -> bool, g: string, k: string, v: string)
    requires TypeOf(types, g, k) == Some(Integer) && ValidKeyName(k) && '[' !in k && ']' !in k && '\n' !in v
    ensures CheckValidKeyValue(types, isNumber, g, k, v).Pass? <==> isNumber(v)
    ensures !isNumber(v) ==> CheckValidKeyValue(types, isNumber, g, k, v) == Fail(NotANumber)
  {
  }
}
