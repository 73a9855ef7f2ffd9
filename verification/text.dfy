/** The string primitives the destination search relies on: `trim`,
    `toLowerCase` and `includes`. Case folding is ASCII only and the
    whitespace set is the ASCII one. */
module Text {

  /** ASCII whitespace as stripped by `String.prototype.trim`: space, tab,
      line feed, vertical tab, form feed and carriage return. */
  predicate IsSpace(c: char) {
    c == ' ' || c == '\t' || c == '\n' || c == '\U{0B}' || c == '\U{0C}' || c == '\r'
  }

  predicate IsUpper(c: char) {
    'A' <= c <= 'Z'
  }

  function LowerChar(c: char): (r: char)
    ensures !IsUpper(r)
    ensures !IsUpper(c) ==> r == c
    ensures IsUpper(c) ==> r as int == c as int + 32
  {
    if IsUpper(c) then (c as int + 32) as char else c
  }

  /** `s.toLowerCase()`: the same length, every character folded, no
      upper-case letter left. */
  function ToLower(s: string): (r: string)
    ensures |r| == |s|
    ensures forall i :: 0 <= i < |r| ==> r[i] == LowerChar(s[i])
    ensures forall i :: 0 <= i < |r| ==> !IsUpper(r[i])
  {
    seq(|s|, i requires 0 <= i < |s| => LowerChar(s[i]))
  }

  /** Lowering neither adds nor removes whitespace characters. */
  lemma ToLowerKeepsSpaces(s: string, c: char)
    requires IsSpace(c)
    ensures c in ToLower(s) <==> c in s
  {
    var t := ToLower(s);
    if c in t {
      var j :| 0 <= j < |t| && t[j] == c;
      assert s[j] == c;
    }
    if c in s {
      var j :| 0 <= j < |s| && s[j] == c;
      assert t[j] == c;
    }
  }

  /** Lowering twice is lowering once. */
  lemma ToLowerIdempotent(s: string)
    ensures ToLower(ToLower(s)) == ToLower(s)
  {
  }

  /** Strips leading whitespace: what is dropped is whitespace and what is
      left starts with a non-space (or is empty). */
  function TrimStart(s: string): (r: string)
    ensures |r| <= |s| && r == s[|s| - |r|..]
    ensures forall i :: 0 <= i < |s| - |r| ==> IsSpace(s[i])
    ensures r == [] || !IsSpace(r[0])
  {
    if s != [] && IsSpace(s[0]) then TrimStart(s[1..]) else s
  }

  /** Strips trailing whitespace, symmetrically to `TrimStart`. */
  function TrimEnd(s: string): (r: string)
    ensures |r| <= |s| && r == s[..|r|]
    ensures forall i :: |r| <= i < |s| ==> IsSpace(s[i])
    ensures r == [] || !IsSpace(r[|r| - 1])
  {
    if s != [] && IsSpace(s[|s| - 1]) then TrimEnd(s[..|s| - 1]) else s
  }

  /** `s.trim()`: a contiguous middle part of `s`, all of whose surrounding
      characters are whitespace, and which neither starts nor ends with one. */
  function Trim(s: string): (r: string)
    ensures exists i :: TrimmedAt(s, r, i)
    ensures r == [] || (!IsSpace(r[0]) && !IsSpace(r[|r| - 1]))
  {
    var t := TrimStart(s);
    var r := TrimEnd(t);
    assert r == s[|s| - |t|..|s| - |t| + |r|];
    assert TrimmedAt(s, r, |s| - |t|) by {
      forall j | |s| - |t| + |r| <= j < |s|
        ensures IsSpace(s[j])
      {
        assert s[j] == t[j - (|s| - |t|)];
      }
    }
    r
  }

  /** `r` sits in `s` at offset `i` with only whitespace around it. */
  predicate TrimmedAt(s: string, r: string, i: int) {
    && 0 <= i <= |s| - |r|
    && s[i..i + |r|] == r
    && (forall j :: 0 <= j < i ==> IsSpace(s[j]))
    && (forall j :: i + |r| <= j < |s| ==> IsSpace(s[j]))
  }

  /** The search's emptiness test `query.trim() === ""`, stated without
      trimming: every character is whitespace. `BlankIffTrimEmpty` shows the
      two readings agree. */
  predicate IsBlank(s: string) {
    forall i :: 0 <= i < |s| ==> IsSpace(s[i])
  }

  /** A string is blank exactly when trimming it leaves nothing. */
  lemma BlankIffTrimEmpty(s: string)
    ensures IsBlank(s) <==> Trim(s) == []
  {
  }

  /** A string whose first character is not whitespace is not blank. */
  lemma NotBlankWhenStartsWithNonSpace(s: string)
    requires s != [] && !IsSpace(s[0])
    ensures !IsBlank(s)
  {
  }

  /** `needle` occurs in `hay` starting at position `i`. */
  predicate OccursAt(hay: string, needle: string, i: int)
    requires 0 <= i <= |hay| - |needle|
  {
    hay[i..i + |needle|] == needle
  }

  /** `hay.includes(needle)`: true exactly when `needle` occurs somewhere in
      `hay`. The empty needle occurs everywhere. */
  function Includes(hay: string, needle: string): (b: bool)
    ensures b <==> exists i :: 0 <= i <= |hay| - |needle| && OccursAt(hay, needle, i)
    decreases |hay|
  {
    if |needle| > |hay| then false
    else if hay[..|needle|] == needle then
      assert OccursAt(hay, needle, 0);
      true
    else
      var b := Includes(hay[1..], needle);
      ShiftOccurrence(hay, needle);
      b
  }

  /** When `needle` is not a prefix of `hay`, its occurrences in `hay` are
      those in `hay[1..]`, shifted by one. */
  lemma ShiftOccurrence(hay: string, needle: string)
    requires |needle| <= |hay| && hay[..|needle|] != needle
    ensures (exists i :: 0 <= i <= |hay| - |needle| && OccursAt(hay, needle, i))
        <==> (exists i :: 0 <= i <= |hay| - 1 - |needle| && OccursAt(hay[1..], needle, i))
  {
    forall i | 0 <= i <= |hay| - 1 - |needle|
      ensures OccursAt(hay[1..], needle, i) <==> OccursAt(hay, needle, i + 1)
    {
      assert hay[1..][i..i + |needle|] == hay[i + 1..i + 1 + |needle|];
    }
    if exists i :: 0 <= i <= |hay| - |needle| && OccursAt(hay, needle, i) {
      var i :| 0 <= i <= |hay| - |needle| && OccursAt(hay, needle, i);
      assert i != 0;
      assert OccursAt(hay[1..], needle, i - 1);
    }
  }

  /** A needle holding a character that `hay` lacks does not occur in it. */
  lemma MissingCharNotIncluded(hay: string, needle: string, k: int)
    requires 0 <= k < |needle| && needle[k] !in hay
    ensures !Includes(hay, needle)
  {
    forall i | 0 <= i <= |hay| - |needle|
      ensures !OccursAt(hay, needle, i)
    {
      assert hay[i..i + |needle|][k] == hay[i + k];
    }
  }

}
