/** The few java.lang.String operations the store relies on, with their Java
    meaning: trim() (strip every character whose code is at most U+0020 from
    both ends), toLowerCase() restricted to ASCII letters, and split(",")
    (split around every comma, then drop trailing empty segments). */
module JavaString {

  /** A character that String.trim() removes: code point U+0020 or below. */
  predicate IsSpace(c: char)
  {
    c <= ' '
  }

  /** A string that trim() reduces to the empty string. */
  predicate IsBlank(s: string)
  {
    forall i :: 0 <= i < |s| ==> IsSpace(s[i])
  }

  /** Index of the first character trim() keeps (|s| if there is none). */
  function TrimStart(s: string): (st: nat)
    ensures st <= |s|
    ensures forall i :: 0 <= i < st ==> IsSpace(s[i])
    ensures st < |s| ==> !IsSpace(s[st])
  {
    if |s| == 0 || !IsSpace(s[0]) then 0 else 1 + TrimStart(s[1..])
  }

  /** One past the last character trim() keeps, given where the kept part starts. */
  function TrimEnd(s: string, st: nat): (en: nat)
    requires st <= |s|
    ensures st <= en <= |s|
    ensures forall i :: en <= i < |s| ==> IsSpace(s[i])
    ensures st < en ==> !IsSpace(s[en - 1])
    decreases |s|
  {
    if |s| == st || !IsSpace(s[|s| - 1]) then |s| else TrimEnd(s[..|s| - 1], st)
  }

  /** String.trim(): the longest infix of s that neither starts nor ends with
      a space character; what lies outside it is all spaces. */
  function Trim(s: string): (r: string)
    ensures |r| <= |s|
    ensures |r| == 0 <==> IsBlank(s)
    ensures |r| > 0 ==> !IsSpace(r[0]) && !IsSpace(r[|r| - 1])
    ensures exists st :: 0 <= st <= |s| - |r| && r == s[st..st + |r|]
                         && IsBlank(s[..st]) && IsBlank(s[st + |r|..])
  {
    var st := TrimStart(s);
    var en := TrimEnd(s, st);
    assert IsBlank(s[..st]) && IsBlank(s[en..]);
    s[st..en]
  }

  /** Character.toLowerCase on the ASCII range; every other character is kept. */
  function LowerChar(c: char): (d: char)
  {
    if 'A' <= c <= 'Z' then (c as int + 32) as char else c
  }

  /** String.toLowerCase() restricted to ASCII letters. */
  function ToLowerAscii(s: string): (r: string)
    ensures |r| == |s|
    ensures forall i :: 0 <= i < |s| ==> r[i] == LowerChar(s[i])
  {
    if |s| == 0 then [] else [LowerChar(s[0])] + ToLowerAscii(s[1..])
  }

  /** The inverse of splitting: the segments glued back with commas in between. */
  function Join(parts: seq<string>): (s: string)
  {
    if |parts| == 0 then ""
    else if |parts| == 1 then parts[0]
    else parts[0] + "," + Join(parts[1..])
  }

  /** Number of commas in s. */
  function CommaCount(s: string): nat
  {
    if |s| == 0 then 0 else (if s[0] == ',' then 1 else 0) + CommaCount(s[1..])
  }

  /** Splitting around every comma, keeping every segment: one more segment
      than there are commas, none of them containing a comma, and joining
      them gives s back. */
  function SplitAll(s: string): (parts: seq<string>)
    ensures |parts| == CommaCount(s) + 1
    ensures forall i :: 0 <= i < |parts| ==> ',' !in parts[i]
    ensures Join(parts) == s
  {
    if |s| == 0 then [""]
    else
      var rest := SplitAll(s[1..]);
      if s[0] == ',' then
        assert ([""] + rest)[1..] == rest;
        [""] + rest
      else
        var head := [s[0]] + rest[0];
        assert ',' !in head by {
          assert forall i :: 0 < i < |head| ==> head[i] == rest[0][i - 1];
        }
        assert s == [s[0]] + s[1..];
        assert |rest| > 1 ==> ([head] + rest[1..])[1..] == rest[1..];
        [head] + rest[1..]
  }

  /** The segments are determined by the string: any comma-free segments
      are what SplitAll finds in their join. */
  lemma {:induction false} SplitAllOfJoin(parts: seq<string>)
    requires |parts| >= 1
    requires forall i :: 0 <= i < |parts| ==> ',' !in parts[i]
    ensures SplitAll(Join(parts)) == parts
    decreases |Join(parts)|, |parts[0]|
  {
    var s := Join(parts);
    if |parts[0]| == 0 {
      if |parts| == 1 {
      } else {
        assert s == [','] + Join(parts[1..]);
        assert s[1..] == Join(parts[1..]);
        SplitAllOfJoin(parts[1..]);
        assert parts == [""] + parts[1..];
      }
    } else {
      var c := parts[0][0];
      assert c != ',' by { assert c == parts[0][0]; }
      var shorter := [parts[0][1..]] + parts[1..];
      assert forall i :: 0 <= i < |shorter| ==> ',' !in shorter[i] by {
        forall i | 0 <= i < |shorter| ensures ',' !in shorter[i] {
          if i == 0 {
            assert forall j :: 0 <= j < |parts[0][1..]| ==> parts[0][1..][j] == parts[0][j + 1];
          } else {
            assert shorter[i] == parts[i];
          }
        }
      }
      assert Join(shorter) == s[1..] by {
        if |parts| == 1 {
        } else {
          assert shorter[1..] == parts[1..];
          assert parts[0] == [c] + parts[0][1..];
        }
      }
      SplitAllOfJoin(shorter);
      assert parts[0] == [c] + parts[0][1..];
      assert parts == [[c] + shorter[0]] + shorter[1..];
    }
  }

  /** Drops empty segments from the end of the list. */
  function DropTrailingEmpty(parts: seq<string>): (r: seq<string>)
    ensures |r| <= |parts| && r == parts[..|r|]
    ensures forall i :: |r| <= i < |parts| ==> parts[i] == ""
    ensures |r| > 0 ==> r[|r| - 1] != ""
  {
    if |parts| == 0 || parts[|parts| - 1] != "" then parts
    else DropTrailingEmpty(parts[..|parts| - 1])
  }

  /** String.split(",") with limit 0: a string without a comma comes back as
      the one-element list [s] (even when s is empty); otherwise the list of
      all segments with its trailing empty segments removed, while leading
      and interior empty segments are kept. */
  function JavaSplit(s: string): (r: seq<string>)
    ensures ',' !in s ==> r == [s]
    ensures ',' in s ==> |r| <= |SplitAll(s)| && r == SplitAll(s)[..|r|]
    ensures ',' in s ==> forall i :: |r| <= i < |SplitAll(s)| ==> SplitAll(s)[i] == ""
    ensures ',' in s && |r| > 0 ==> r[|r| - 1] != ""
    ensures forall i :: 0 <= i < |r| ==> ',' !in r[i]
  {
    if ',' !in s then [s] else DropTrailingEmpty(SplitAll(s))
  }

  /** split(",") keeps an interior empty segment. */
  lemma JavaSplitKeepsInteriorEmpty()
    ensures JavaSplit("a,,b") == ["a", "", "b"]
  {
    assert Join(["", "b"]) == ",b";
    assert Join(["a", "", "b"]) == "a,,b";
    SplitAllOfJoin(["a", "", "b"]);
  }

  /** split(",") keeps a leading empty segment. */
  lemma JavaSplitKeepsLeadingEmpty()
    ensures JavaSplit(",a") == ["", "a"]
  {
    assert Join(["", "a"]) == ",a";
    SplitAllOfJoin(["", "a"]);
  }

  /** split(",") drops trailing empty segments, all of them when every
      segment is empty. */
  lemma JavaSplitDropsTrailingEmpty()
    ensures JavaSplit("a,,") == ["a"]
    ensures JavaSplit(",") == []
  {
    assert Join(["", ""]) == ",";
    assert Join(["a", "", ""]) == "a,,";
    SplitAllOfJoin(["a", "", ""]);
    SplitAllOfJoin(["", ""]);
    assert ["a", "", ""][..2] == ["a", ""];
    assert ["a", ""][..1] == ["a"];
    assert ["", ""][..1] == [""];
    assert [""][..0] == [];
  }
}
