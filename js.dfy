/** The part of the JavaScript runtime the helpers in es/util.ts lean on:
    values and their truthiness, and the String and Array built-ins they call
    (substring, includes, split, join, reverse). */
module Js {

  datatype Option<T> = None | Some(value: T)

  /** A JSON-like JavaScript value. Objects and arrays are opaque references
      and always truthy; numbers are restricted to integers. */
  datatype Value =
    | Undefined
    | Null
    | Bool(b: bool)
    | Num(n: int)
    | Str(s: string)
    | Object(ref: nat)

  /** JavaScript's ToBoolean for the values above. */
  predicate Truthy(v: Value) {
    match v
    case Undefined => false
    case Null => false
    case Bool(b) => b
    case Num(n) => n != 0
    case Str(s) => s != ""
    case Object(_) => true
  }

  /** An index argument of String.prototype.substring: clamped into [0, len]. */
  function Clamp(i: int, len: nat): (r: nat)
    ensures r <= len
    ensures 0 <= i <= len ==> r == i
    ensures i < 0 ==> r == 0
    ensures len < i ==> r == len
  {
    if i < 0 then 0 else if i > len then len else i
  }

  /** String.prototype.substring(start, end): both indices are clamped to the
      string, then swapped when start is past end. */
  function Substring(s: string, start: int, end: int): (r: string)
    ensures var a, b := Clamp(start, |s|), Clamp(end, |s|);
      var lo, hi := if a <= b then a else b, if a <= b then b else a;
      && |r| == hi - lo
      && forall k :: 0 <= k < |r| ==> r[k] == s[lo + k]
  {
    var a, b := Clamp(start, |s|), Clamp(end, |s|);
    if a <= b then s[a..b] else s[b..a]
  }

  /** The order of the two indices of substring does not matter. */
  lemma SubstringSymmetric(s: string, start: int, end: int)
    ensures Substring(s, start, end) == Substring(s, end, start)
    ensures |Substring(s, start, end)| ==
      if Clamp(start, |s|) <= Clamp(end, |s|) then Clamp(end, |s|) - Clamp(start, |s|)
      else Clamp(start, |s|) - Clamp(end, |s|)
  {
  }

  predicate IsPrefix(t: string, s: string) {
    |t| <= |s| && s[..|t|] == t
  }

  /** String.prototype.includes(t): t occurs in s as a contiguous substring. */
  predicate Includes(s: string, t: string)
    decreases |s|
  {
    IsPrefix(t, s) || (|s| > 0 && Includes(s[1..], t))
  }

  /** t is the slice of s that starts at index k. */
  predicate OccursAt(s: string, t: string, k: int) {
    0 <= k <= |s| - |t| && s[k..k + |t|] == t
  }

  /** includes means what it says: t is the slice of s at some index. */
  lemma {:induction false} IncludesAt(s: string, t: string)
    ensures Includes(s, t) <==> exists k :: OccursAt(s, t, k)
    decreases |s|
  {
    if |s| > 0 {
      IncludesAt(s[1..], t);
    }
    if Includes(s, t) {
      if IsPrefix(t, s) {
        assert OccursAt(s, t, 0);
      } else {
        var k :| OccursAt(s[1..], t, k);
        var u, v := s[k + 1..k + 1 + |t|], s[1..][k..k + |t|];
        assert forall j :: 0 <= j < |t| ==> u[j] == v[j];
        assert u == v;
        assert OccursAt(s, t, k + 1);
      }
    }
    if k :| OccursAt(s, t, k) && k > 0 {
      var u, v := s[1..][k - 1..k - 1 + |t|], s[k..k + |t|];
      assert forall j :: 0 <= j < |t| ==> u[j] == v[j];
      assert u == v;
      assert OccursAt(s[1..], t, k - 1);
    }
  }

  /** A string containing t still contains it once text is added on either side. */
  lemma {:induction false} IncludesConcat(a: string, b: string, t: string)
    requires Includes(a, t) || Includes(b, t)
    ensures Includes(a + b, t)
  {
    if Includes(a, t) {
      if IsPrefix(t, a) {
        assert (a + b)[..|t|] == a[..|t|];
      } else {
        IncludesConcat(a[1..], b, t);
        assert (a + b)[1..] == a[1..] + b;
      }
    } else if |a| > 0 {
      IncludesConcat(a[1..], b, t);
      assert (a + b)[1..] == a[1..] + b;
    } else {
      assert a + b == b;
    }
  }

  /** A separator-free t found in a + [sep] + b lies wholly inside a or inside b. */
  lemma {:induction false} IncludesAcrossSeparator(a: string, sep: char, b: string, t: string)
    requires sep !in t
    ensures Includes(a + [sep] + b, t) <==> Includes(a, t) || Includes(b, t)
  {
    if Includes(a, t) {
      IncludesConcat(a, [sep] + b, t);
      assert a + ([sep] + b) == a + [sep] + b;
    } else if Includes(b, t) {
      IncludesConcat(a + [sep], b, t);
    } else {
      IncludesNotAcross(a, sep, b, t);
    }
  }

  lemma {:induction false} IncludesNotAcross(a: string, sep: char, b: string, t: string)
    requires sep !in t
    requires !Includes(a, t) && !Includes(b, t)
    ensures !Includes(a + [sep] + b, t)
    decreases |a|
  {
    var s := a + [sep] + b;
    if |t| > |a| {
      assert t[|a|] in t;
    } else {
      assert s[..|t|] == a[..|t|];
    }
    if a == [] {
      assert s[1..] == b;
    } else {
      IncludesNotAcross(a[1..], sep, b, t);
      assert s[1..] == a[1..] + [sep] + b;
    }
  }

  /** A string no longer than t includes t only by being t. */
  lemma {:induction false} IncludesShort(s: string, t: string)
    requires |s| <= |t|
    ensures Includes(s, t) <==> s == t
    decreases |s|
  {
    if |s| > 0 {
      IncludesShort(s[1..], t);
    }
  }

  /** String.prototype.split(sep) for a one-character separator: the pieces
      between separators, always at least one (split of "" is [""]). */
  function Split(s: string, sep: char): (parts: seq<string>)
    ensures |parts| >= 1
    ensures forall i :: 0 <= i < |parts| ==> sep !in parts[i]
    decreases |s|
  {
    if |s| == 0 then [""]
    else if s[0] == sep then [""] + Split(s[1..], sep)
    else
      var rest := Split(s[1..], sep);
      [[s[0]] + rest[0]] + rest[1..]
  }

  /** Array.prototype.join(sep). */
  function Join(parts: seq<string>, sep: char): string
  {
    if |parts| == 0 then ""
    else if |parts| == 1 then parts[0]
    else parts[0] + [sep] + Join(parts[1..], sep)
  }

  /** Joining the pieces of a split gives the original string back. */
  lemma {:induction false} JoinSplit(s: string, sep: char)
    ensures Join(Split(s, sep), sep) == s
  {
    if |s| > 0 {
      JoinSplit(s[1..], sep);
      var rest := Split(s[1..], sep);
      if s[0] == sep {
        assert Split(s, sep) == [""] + rest;
        assert s == [sep] + s[1..];
      } else if |rest| == 1 {
        assert Split(s, sep) == [[s[0]] + rest[0]];
        assert s == [s[0]] + s[1..];
      } else {
        assert Split(s, sep)[1..] == rest[1..];
        assert s == [s[0]] + s[1..];
      }
    }
  }

  /** Split undoes Join when no piece contains the separator. */
  lemma {:induction false} SplitJoin(parts: seq<string>, sep: char)
    requires |parts| >= 1
    requires forall i :: 0 <= i < |parts| ==> sep !in parts[i]
    ensures Split(Join(parts, sep), sep) == parts
  {
    if |parts| == 1 {
      SplitNoSeparator(parts[0], sep);
    } else {
      SplitJoin(parts[1..], sep);
      SplitAfterPrefix(parts[0], sep, Join(parts[1..], sep));
    }
  }

  /** A separator-free string splits into itself. */
  lemma {:induction false} SplitNoSeparator(s: string, sep: char)
    requires sep !in s
    ensures Split(s, sep) == [s]
    decreases |s|
  {
    if |s| > 0 {
      SplitNoSeparator(s[1..], sep);
      assert [s[0]] + s[1..] == s;
    }
  }

  /** Splitting p + [sep] + rest, with p separator-free, yields p first. */
  lemma {:induction false} SplitAfterPrefix(p: string, sep: char, rest: string)
    requires sep !in p
    ensures Split(p + [sep] + rest, sep) == [p] + Split(rest, sep)
    decreases |p|
  {
    var s := p + [sep] + rest;
    if |p| == 0 {
      assert s == [sep] + rest;
      assert s[1..] == rest;
    } else {
      SplitAfterPrefix(p[1..], sep, rest);
      assert s[1..] == p[1..] + [sep] + rest;
      assert [p[0]] + p[1..] == p;
    }
  }

  /** Array.prototype.reverse, as a value. */
  function Reversed<T>(s: seq<T>): (r: seq<T>)
    ensures |r| == |s|
    ensures forall i :: 0 <= i < |s| ==> r[i] == s[|s| - 1 - i]
  {
    if |s| == 0 then [] else Reversed(s[1..]) + [s[0]]
  }

  lemma ReversedReversed<T>(s: seq<T>)
    ensures Reversed(Reversed(s)) == s
  {
    assert forall i :: 0 <= i < |s| ==> Reversed(Reversed(s))[i] == s[i];
  }

  lemma ReversedAppend<T>(a: seq<T>, b: seq<T>)
    ensures Reversed(a + b) == Reversed(b) + Reversed(a)
  {
    assert forall i :: 0 <= i < |a + b| ==> Reversed(a + b)[i] == (Reversed(b) + Reversed(a))[i];
  }
}
