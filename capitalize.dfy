/** $util.capitalize: lower-case the whole string, then upper-case every
    letter a-z that begins the string or follows a space. */
module Capitalize {

  predicate IsAsciiUpper(c: char) { 'A' <= c <= 'Z' }

  predicate IsAsciiLower(c: char) { 'a' <= c <= 'z' }

  /** toLowerCase on one character, for ASCII letters. */
  function ToLower(c: char): (r: char)
    ensures !IsAsciiUpper(r)
    ensures IsAsciiUpper(c) ==> IsAsciiLower(r)
    ensures !IsAsciiUpper(c) ==> r == c
  {
    if IsAsciiUpper(c) then (c as int + 32) as char else c
  }

  /** toUpperCase on one character, for ASCII letters. */
  function ToUpper(c: char): (r: char)
    ensures IsAsciiLower(c) ==> IsAsciiUpper(r) && ToLower(r) == c
    ensures !IsAsciiLower(c) ==> r == c
  {
    if IsAsciiLower(c) then (c as int - 32) as char else c
  }

  /** String.prototype.toLowerCase. */
  function LowerCase(s: string): (r: string)
    ensures |r| == |s|
    ensures forall i :: 0 <= i < |s| ==> r[i] == ToLower(s[i])
  {
    if s == [] then [] else [ToLower(s[0])] + LowerCase(s[1..])
  }

  /** The global replace of /( |^)[a-z]/ by its upper-cased match, scanning
      left to right: a space followed by a lower-case letter is one match,
      and at the start of the string (atStart) a lower-case letter alone is. */
  function UpperWordStarts(s: string, atStart: bool): (r: string)
    ensures |r| == |s|
    decreases |s|
  {
    if s == [] then []
    else if s[0] == ' ' && |s| >= 2 && IsAsciiLower(s[1]) then
      [' ', ToUpper(s[1])] + UpperWordStarts(s[2..], false)
    else if atStart && IsAsciiLower(s[0]) then
      [ToUpper(s[0])] + UpperWordStarts(s[1..], false)
    else
      [s[0]] + UpperWordStarts(s[1..], false)
  }

  /** A position starts a word: index 0 of the string or just after a space. */
  predicate WordStart(s: string, i: int)
    requires 0 <= i < |s|
  {
    i == 0 || s[i - 1] == ' '
  }

  /** The scan upper-cases position i: a letter a-z at the start (when the scan
      begins the string) or right after a space. */
  predicate Upcased(s: string, atStart: bool, i: int)
    requires 0 <= i < |s|
  {
    IsAsciiLower(s[i]) && ((i == 0 && atStart) || (i > 0 && s[i - 1] == ' '))
  }

  function Capitalize(s: string): string
  {
    UpperWordStarts(LowerCase(s), true)
  }

  /** The scan upper-cases exactly the lower-case letters at a word start and
      copies every other character: a match never swallows the space that
      begins the next one. */
  lemma {:induction false} UpperWordStartsAt(s: string, atStart: bool, i: int)
    requires 0 <= i < |s|
    ensures UpperWordStarts(s, atStart)[i] == if Upcased(s, atStart, i) then ToUpper(s[i]) else s[i]
    decreases |s|
  {
    var r := UpperWordStarts(s, atStart);
    if s[0] == ' ' && |s| >= 2 && IsAsciiLower(s[1]) {
      if i >= 2 {
        UpperWordStartsAt(s[2..], false, i - 2);
        assert r[i] == UpperWordStarts(s[2..], false)[i - 2];
        assert s[2..][i - 2] == s[i];
        if i > 2 {
          assert s[2..][i - 3] == s[i - 1];
        }
      }
    } else if i >= 1 {
      UpperWordStartsAt(s[1..], false, i - 1);
      assert r[i] == UpperWordStarts(s[1..], false)[i - 1];
      assert s[1..][i - 1] == s[i];
      if i > 1 {
        assert s[1..][i - 2] == s[i - 1];
      }
    }
  }

  /** capitalize keeps the length and, at each position, gives the lower-cased
      character, upper-cased when it is a letter a-z starting a word. */
  lemma CapitalizeAt(s: string)
    ensures |Capitalize(s)| == |s|
    ensures forall i :: 0 <= i < |s| ==>
      Capitalize(s)[i] ==
        if IsAsciiLower(ToLower(s[i])) && WordStart(s, i) then ToUpper(ToLower(s[i])) else ToLower(s[i])
  {
    var l := LowerCase(s);
    forall i | 0 <= i < |s|
      ensures Capitalize(s)[i] ==
        if IsAsciiLower(ToLower(s[i])) && WordStart(s, i) then ToUpper(ToLower(s[i])) else ToLower(s[i])
    {
      UpperWordStartsAt(l, true, i);
    }
  }

  /** Capitalizing twice is capitalizing once. */
  lemma CapitalizeIdempotent(s: string)
    ensures Capitalize(Capitalize(s)) == Capitalize(s)
  {
    var c := Capitalize(s);
    CapitalizeAt(s);
    assert LowerCase(c) == LowerCase(s) by {
      forall i | 0 <= i < |s| ensures LowerCase(c)[i] == LowerCase(s)[i] {
        assert ToLower(c[i]) == ToLower(s[i]);
      }
    }
  }

  /** The first letter of every word is upper-cased, the rest lower-cased. */
  lemma CapitalizeExample()
    ensures Capitalize("aB cD") == "Ab Cd"
  {
    var s := "aB cD";
    CapitalizeAt(s);
    assert WordStart(s, 0) && !WordStart(s, 1) && !WordStart(s, 2) && WordStart(s, 3) && !WordStart(s, 4);
  }
}
