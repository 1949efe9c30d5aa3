/** Letter case and case-insensitive comparison, as qshared.c and the C locale have them. */
module Ascii {

  /** A C string holds no NUL. */
  predicate IsCString(s: string) {
    '\0' !in s
  }

  function ToUpper(c: char): char {
    if 'a' <= c <= 'z' then (c as int - 32) as char else c
  }

  function ToLower(c: char): char {
    if 'A' <= c <= 'Z' then (c as int + 32) as char else c
  }

  /** A C string read at any position up to and including its terminator. */
  function At(s: string, i: nat): char {
    if i < |s| then s[i] else '\0'
  }

  predicate SameIgnoringCase(a: string, b: string) {
    |a| == |b| && forall i :: 0 <= i < |a| ==> ToUpper(a[i]) == ToUpper(b[i])
  }

  /** The same character, or the two cases of one of the 26 letters, which are 32 apart. */
  predicate SameLetter(a: char, b: char) {
    a == b || IsCasePair(a, b) || IsCasePair(b, a)
  }

  predicate IsCasePair(upper: char, lower: char) {
    'A' <= upper <= 'Z' && 'a' <= lower <= 'z' && lower as int == upper as int + 32
  }

  lemma CasesTellLetters(a: char, b: char)
    ensures ToUpper(a) == ToUpper(b) <==> SameLetter(a, b)
    ensures ToLower(a) == ToLower(b) <==> SameLetter(a, b)
  {
  }

  lemma SameIgnoringCaseIff(a: string, b: string)
    ensures SameIgnoringCase(a, b) <==> |a| == |b| && forall i :: 0 <= i < |a| ==> SameLetter(a[i], b[i])
  {
    forall i | 0 <= i < |a| == |b|
      ensures ToUpper(a[i]) == ToUpper(b[i]) <==> SameLetter(a[i], b[i])
    {
      CasesTellLetters(a[i], b[i]);
    }
    hide ToUpper, SameLetter;
  }

  function Lower(s: string): (t: string)
    ensures |t| == |s| && forall i :: 0 <= i < |s| ==> t[i] == ToLower(s[i])
  {
    seq(|s|, i requires 0 <= i < |s| => ToLower(s[i]))
  }

  /** Q_strlwr. */
  method Strlwr(s: string) returns (t: string)
    ensures t == Lower(s)
  {
    t := "";
    for i := 0 to |s|
      invariant |t| == i && forall j :: 0 <= j < i ==> t[j] == ToLower(s[j])
    {
      t := t + [ToLower(s[i])];
    }
  }

  lemma LowerIsCString(s: string)
    requires IsCString(s)
    ensures IsCString(Lower(s))
  {
    assert forall i :: 0 <= i < |s| ==> s[i] in s && ToLower(s[i]) != '\0';
  }

  /** Q_stricmp on two strings that are there: zero exactly for strings that differ in letter case only. */
  method Stricmp(s1: string, s2: string) returns (r: int)
    requires IsCString(s1) && IsCString(s2)
    ensures r == 0 <==> SameIgnoringCase(s1, s2)
  {
    var i := 0;
    while true
      invariant i <= |s1| && i <= |s2|
      invariant forall k :: 0 <= k < i ==> ToUpper(s1[k]) == ToUpper(s2[k])
      decreases |s1| - i
    {
      var c1, c2 := At(s1, i), At(s2, i);
      i := i + 1;
      if c1 != c2 {
        c1, c2 := ToUpper(c1), ToUpper(c2);
        if c1 != c2 {
          return if c1 < c2 then -1 else 1;
        }
      }
      if c1 == '\0' {
        return 0;
      }
    }
  }
}
