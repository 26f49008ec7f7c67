/** $util.desen: mask the middle of a string with '*', keeping a prefix of
    startLen and a suffix of endLen characters. */
module Desen {
  import opened Js

  /** n stars; the empty string when n is not positive. */
  function Stars(n: int): (r: string)
    ensures |r| == if n > 0 then n else 0
    ensures forall i :: 0 <= i < |r| ==> r[i] == '*'
    decreases n
  {
    if n <= 0 then "" else Stars(n - 1) + "*"
  }

  /** What desen returns: the first startLen characters, one star for every
      character the two kept ends leave over, and the last endLen characters,
      with both ends cut to the string the way substring clamps its indices. */
  function Masked(s: string, startLen: int, endLen: int): string
  {
    s[..Clamp(startLen, |s|)] + Stars(|s| - startLen - endLen) + s[Clamp(|s| - endLen, |s|)..]
  }

  /** The masking loop of desen: count the stars down, then join the two
      substrings around them. */
  method Desen(s: string, startLen: int, endLen: int) returns (r: string)
    ensures r == Masked(s, startLen, endLen)
  {
    var len := |s| - startLen - endLen;
    ghost var total := len;
    var xin := "";
    while len > 0
      invariant len == total || 0 <= len < total
      invariant |xin| == total - len
      invariant forall i :: 0 <= i < |xin| ==> xin[i] == '*'
    {
      xin := xin + "*";
      len := len - 1;
    }
    assert xin == Stars(total);
    r := Substring(s, 0, startLen) + xin + Substring(s, |s| - endLen, |s|);
  }

  /** With both lengths in range the mask keeps the length of the input, its
      first startLen and last endLen characters, and stars everything between. */
  lemma MaskedInRange(s: string, startLen: int, endLen: int)
    requires 0 <= startLen && 0 <= endLen && startLen + endLen <= |s|
    ensures var r := Masked(s, startLen, endLen);
      && |r| == |s|
      && r[..startLen] == s[..startLen]
      && r[|s| - endLen..] == s[|s| - endLen..]
      && forall i :: startLen <= i < |s| - endLen ==> r[i] == '*'
  {
    var r := Masked(s, startLen, endLen);
    var mid := Stars(|s| - startLen - endLen);
    assert r == s[..startLen] + mid + s[|s| - endLen..];
    assert r[..startLen] == s[..startLen];
    assert r[|s| - endLen..] == s[|s| - endLen..];
  }

  /** In general the result is the clamped prefix, exactly max(0, |s| - startLen
      - endLen) stars, and the clamped suffix: a negative length widens the
      mask rather than shrinking it, and ends that overlap repeat characters. */
  lemma MaskedShape(s: string, startLen: int, endLen: int)
    ensures var r := Masked(s, startLen, endLen);
      var k, n := Clamp(startLen, |s|), |s| - Clamp(|s| - endLen, |s|);
      var stars := if |s| - startLen - endLen > 0 then |s| - startLen - endLen else 0;
      && |r| == k + stars + n
      && r[..k] == s[..k]
      && (forall i :: k <= i < k + stars ==> r[i] == '*')
      && r[k + stars..] == s[|s| - n..]
  {
    var r := Masked(s, startLen, endLen);
    var k := Clamp(startLen, |s|);
    var mid := Stars(|s| - startLen - endLen);
    assert r == s[..k] + mid + s[Clamp(|s| - endLen, |s|)..];
    assert r[..k] == s[..k];
    assert r[k + |mid|..] == s[Clamp(|s| - endLen, |s|)..];
  }

  /** The phone-number example: '13812345678' masked with 3 and 4. */
  lemma MaskedPhoneNumber()
    ensures Masked("13812345678", 3, 4) == "138****5678"
  {
    assert Stars(4) == "****";
  }
}
