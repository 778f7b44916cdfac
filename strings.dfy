/**
 * The string operations the filter engine relies on: Python's `str.strip()`,
 * case-insensitive substring search (pandas `str.contains(..., case=False)`
 * with a literal pattern), and `", ".join(...)` / `str.split(", ")`, which
 * the confirmed-selection label uses as its storage format.
 */
module Strings {

  import opened Wrappers

  /** The separator the confirmed-selection label joins and splits on. */
  const Sep: string := ", "

  /** The characters Python's `str.isspace()` accepts (and `str.strip()` removes). */
  predicate IsSpace(c: char)
  {
    c == ' ' || ('\t' <= c <= '\r') || ('\U{1C}' <= c <= '\U{1F}') ||
    c == '\U{85}' || c == '\U{A0}' || c == '\U{1680}' ||
    ('\U{2000}' <= c <= '\U{200A}') || c == '\U{2028}' || c == '\U{2029}' ||
    c == '\U{202F}' || c == '\U{205F}' || c == '\U{3000}'
  }

  predicate AllSpace(s: string)
  {
    forall i :: 0 <= i < |s| ==> IsSpace(s[i])
  }

  /** `s.lstrip()`: the longest suffix of `s` that does not start with whitespace. */
  function StripLeft(s: string): (r: string)
    ensures |r| <= |s| && r == s[|s| - |r|..]
    ensures AllSpace(s[..|s| - |r|])
    ensures r == [] || !IsSpace(r[0])
  {
    if s != [] && IsSpace(s[0]) then
      var r := StripLeft(s[1..]);
      assert s[..|s| - |r|] == [s[0]] + s[1..][..|s| - 1 - |r|];
      r
    else s
  }

  /** `s.rstrip()`: the longest prefix of `s` that does not end with whitespace. */
  function StripRight(s: string): (r: string)
    ensures |r| <= |s| && r == s[..|r|]
    ensures AllSpace(s[|r|..])
    ensures r == [] || !IsSpace(r[|r| - 1])
  {
    if s != [] && IsSpace(s[|s| - 1]) then
      var r := StripRight(s[..|s| - 1]);
      assert s[|r|..] == s[..|s| - 1][|r|..] + [s[|s| - 1]];
      r
    else s
  }

  /** `s.strip()`. */
  function Strip(s: string): string
  {
    StripRight(StripLeft(s))
  }

  /**
   * What strip removes is whitespace and what it keeps has none at either
   * end; the stripped entry is empty exactly when the entry is blank (the
   * case in which a text criterion is neutral), and it occurs in the entry.
   */
  lemma StripMeaning(s: string)
    ensures var r := Strip(s);
      r == [] || (!IsSpace(r[0]) && !IsSpace(r[|r| - 1]))
    ensures Strip(s) == [] <==> AllSpace(s)
    ensures Contains(s, Strip(s))
    ensures var r := Strip(s); var a := |s| - |StripLeft(s)|;
      && a + |r| <= |s| && s[a..a + |r|] == r
      && AllSpace(s[..a]) && AllSpace(s[a + |r|..])
  {
    StripEnds(s);
    StripBlank(s);
    StripOccurs(s);
  }

  lemma StripEnds(s: string)
    ensures var r := Strip(s);
      r == [] || (!IsSpace(r[0]) && !IsSpace(r[|r| - 1]))
  {
    var l := StripLeft(s);
    var r := StripRight(l);
    if r != [] {
      assert r[0] == l[0];
    }
  }

  lemma StripBlank(s: string)
    ensures Strip(s) == [] <==> AllSpace(s)
  {
    var l := StripLeft(s);
    var r := StripRight(l);
    var a := |s| - |l|;
    if r == [] {
      assert AllSpace(l[0..]) && l[0..] == l;
      assert l == [];
      assert s[..a] == s;
    }
  }

  lemma StripOccurs(s: string)
    ensures Contains(s, Strip(s))
  {
    var l := StripLeft(s);
    var r := StripRight(l);
    var a := |s| - |l|;
    assert r == s[a..a + |r|];
    assert OccursAt(s, r, a);
  }

  function LowerChar(c: char): char
  {
    if 'A' <= c <= 'Z' then (c as int + 32) as char else c
  }

  /** Lower-casing, on the ASCII letters only. */
  function Lower(s: string): (r: string)
    ensures |r| == |s|
    ensures forall i :: 0 <= i < |s| ==> r[i] == LowerChar(s[i])
  {
    if s == [] then [] else [LowerChar(s[0])] + Lower(s[1..])
  }

  /** `needle` occurs in `hay` as a contiguous run of characters. */
  predicate Contains(hay: string, needle: string)
  {
    exists i :: 0 <= i <= |hay| - |needle| && OccursAt(hay, needle, i)
  }

  predicate OccursAt(hay: string, needle: string, i: int)
  {
    0 <= i <= |hay| - |needle| && hay[i..i + |needle|] == needle
  }

  /** Case-insensitive literal containment, as `str.contains(p, case=False)`. */
  predicate ContainsIgnoreCase(hay: string, needle: string)
  {
    Contains(Lower(hay), Lower(needle))
  }

  /** `", ".join(parts)`. */
  function Join(parts: seq<string>): string
  {
    if |parts| == 0 then ""
    else if |parts| == 1 then parts[0]
    else parts[0] + Sep + Join(parts[1..])
  }

  /** The separator starts at position `i` of `s`. */
  predicate SepAt(s: string, i: int)
  {
    0 <= i && i + 1 < |s| && s[i] == ',' && s[i + 1] == ' '
  }

  /** The position of the leftmost separator in `s`, if there is one. */
  function FindSep(s: string): (r: Option<nat>)
    ensures r.Some? ==> SepAt(s, r.value)
    ensures r.Some? ==> forall j :: 0 <= j < r.value ==> !SepAt(s, j)
    ensures r.None? ==> forall j :: !SepAt(s, j)
  {
    if |s| < 2 then None
    else if SepAt(s, 0) then Some(0)
    else match FindSep(s[1..])
      case Some(i) => assert forall j :: 0 < j <= i ==> (SepAt(s, j) <==> SepAt(s[1..], j - 1)); Some(i + 1)
      case None => assert forall j :: 0 < j ==> (SepAt(s, j) <==> SepAt(s[1..], j - 1)); None
  }

  /** `s.split(", ")`: cut at every separator, scanning from the left. */
  function Split(s: string): (parts: seq<string>)
    ensures |parts| >= 1
    decreases |s|
  {
    match FindSep(s)
    case None => [s]
    case Some(i) => [s[..i]] + Split(s[i + 2..])
  }

  lemma ContainsSepAt(s: string)
    ensures Contains(s, Sep) <==> exists j :: SepAt(s, j)
  {
    assert |Sep| == 2;
    if Contains(s, Sep) {
      var i :| 0 <= i <= |s| - |Sep| && OccursAt(s, Sep, i);
      assert 0 <= i <= |s| - 2;
      assert s[i] == s[i..i + 2][0] && s[i + 1] == s[i..i + 2][1];
      assert SepAt(s, i);
    }
    if j :| SepAt(s, j) {
      assert s[j..j + 2] == Sep;
      assert OccursAt(s, Sep, j);
    }
  }

  /** No piece that split produces contains the separator. */
  lemma {:induction false} SplitPiecesHaveNoSep(s: string)
    ensures forall p :: p in Split(s) ==> !Contains(p, Sep)
    decreases |s|
  {
    match FindSep(s)
    case None =>
      ContainsSepAt(s);
    case Some(i) =>
      SplitPiecesHaveNoSep(s[i + 2..]);
      var head := s[..i];
      assert forall j :: SepAt(head, j) ==> SepAt(s, j);
      ContainsSepAt(head);
  }

  /** Splitting after joining gives back the parts, when none of them holds the separator. */
  lemma {:induction false} SplitJoin(parts: seq<string>)
    requires |parts| >= 1
    requires forall p :: p in parts ==> !Contains(p, Sep)
    ensures Split(Join(parts)) == parts
  {
    if |parts| == 1 {
      ContainsSepAt(parts[0]);
      assert FindSep(parts[0]).None?;
    } else {
      var v, rest := parts[0], Join(parts[1..]);
      FirstSepAfter(v, rest);
      SplitJoin(parts[1..]);
    }
  }

  /** In `v + ", " + rest` with no separator in `v`, the first separator is the one after `v`. */
  lemma FirstSepAfter(v: string, rest: string)
    requires !Contains(v, Sep)
    ensures FindSep(v + Sep + rest) == Some(|v|)
    ensures Split(v + Sep + rest) == [v] + Split(rest)
  {
    ContainsSepAt(v);
    var s := v + Sep + rest;
    assert forall j :: 0 <= j < |v| - 1 ==> (SepAt(s, j) <==> SepAt(v, j));
    assert !SepAt(s, |v| - 1);
    assert SepAt(s, |v|);
    assert s[..|v|] == v && s[|v| + 2..] == rest;
  }

  /** Joining after splitting gives back the string: split loses nothing. */
  lemma {:induction false} JoinSplit(s: string)
    ensures Join(Split(s)) == s
    decreases |s|
  {
    match FindSep(s)
    case None =>
    case Some(i) =>
      var rest := s[i + 2..];
      JoinSplit(rest);
      assert Split(s) == [s[..i]] + Split(rest);
      assert Join(Split(s)) == s[..i] + Sep + Join(Split(rest));
      assert s == s[..i] + Sep + rest;
  }

  /** The empty list joins to "", which splits to one empty piece, not to no pieces. */
  lemma SplitEmpty()
    ensures Join([]) == "" && Split("") == [""]
  {
    assert FindSep("") == None;
  }

  /** A value that itself holds the separator does not survive a join and a split. */
  lemma SeparatorInValueBreaksRoundTrip()
    ensures Split(Join(["Acme, Inc."])) == ["Acme", "Inc."]
  {
    var a, b := "Acme", "Inc.";
    assert forall j :: !SepAt(a, j);
    assert forall j :: !SepAt(b, j);
    ContainsSepAt(a);
    ContainsSepAt(b);
    assert Join([a, b]) == a + Sep + b == "Acme, Inc.";
    SplitJoin([a, b]);
  }
}
