/** The wildcard filter of common.c, for patterns of literals, stars and question marks. */
module Filter {
  import opened Ascii

  // ---- what a pattern means ----

  predicate SameChar(a: char, b: char, caseSensitive: bool) {
    if caseSensitive then a == b else ToUpper(a) == ToUpper(b)
  }

  predicate Fits(p: char, c: char, caseSensitive: bool) {
    p == '?' || SameChar(p, c, caseSensitive)
  }

  /** A star stands for any string, a question mark for any character, every other character for itself. */
  predicate Glob(pattern: string, text: string, caseSensitive: bool)
    decreases |pattern|
  {
    if pattern == "" then text == ""
    else if pattern[0] == '*' then
      exists k :: 0 <= k <= |text| && Glob(pattern[1..], text[k..], caseSensitive)
    else
      text != "" && Fits(pattern[0], text[0], caseSensitive) && Glob(pattern[1..], text[1..], caseSensitive)
  }

  /** Some beginning of the name matches the whole pattern. */
  ghost predicate GlobsPrefix(pattern: string, name: string, caseSensitive: bool) {
    exists n :: 0 <= n <= |name| && Glob(pattern, name[..n], caseSensitive)
  }

  /** The same for what is left of the pattern and of the name. */
  ghost predicate Rest(pattern: string, p: nat, name: string, at: nat, caseSensitive: bool) {
    p <= |pattern| && at <= |name| && GlobsPrefix(pattern[p..], name[at..], caseSensitive)
  }

  predicate SameAt(pattern: string, p: nat, name: string, at: nat, j: nat, caseSensitive: bool) {
    p + j < |pattern| && at + j < |name| && SameChar(name[at + j], pattern[p + j], caseSensitive)
  }

  /** The literals `pattern[p..q]` stand in the name at `at`. */
  predicate Occurs(pattern: string, p: nat, q: nat, name: string, at: nat, caseSensitive: bool) {
    && p <= q <= |pattern|
    && at + (q - p) <= |name|
    && forall j: nat :: j < q - p ==> SameAt(pattern, p, name, at, j, caseSensitive)
  }

  lemma RestAtEnd(pattern: string, name: string, at: nat, caseSensitive: bool)
    requires at <= |name|
    ensures Rest(pattern, |pattern|, name, at, caseSensitive)
  {
    assert pattern[|pattern|..] == "" && name[at..][..0] == "";
    assert Glob("", name[at..][..0], caseSensitive);
  }

  lemma RestLiteral(pattern: string, p: nat, name: string, at: nat, caseSensitive: bool)
    requires p < |pattern| && at <= |name| && pattern[p] != '*'
    ensures Rest(pattern, p, name, at, caseSensitive)
       <==> at < |name| && Fits(pattern[p], name[at], caseSensitive) && Rest(pattern, p + 1, name, at + 1, caseSensitive)
  {
    var pat, text := pattern[p..], name[at..];
    assert pat[1..] == pattern[p + 1..];
    if Rest(pattern, p, name, at, caseSensitive) {
      var n :| 0 <= n <= |text| && Glob(pat, text[..n], caseSensitive);
      assert text[..n][1..] == name[at + 1..][..n - 1];
    }
    if at < |name| && Fits(pattern[p], name[at], caseSensitive) && Rest(pattern, p + 1, name, at + 1, caseSensitive) {
      var n :| 0 <= n <= |name[at + 1..]| && Glob(pattern[p + 1..], name[at + 1..][..n], caseSensitive);
      assert text[..n + 1][1..] == name[at + 1..][..n];
      assert Glob(pat, text[..n + 1], caseSensitive);
    }
  }

  lemma RestStar(pattern: string, p: nat, b: nat, name: string, at: nat, caseSensitive: bool)
    requires p < |pattern| && at <= |name| && pattern[p] == '*' && b == p + 1
    ensures Rest(pattern, p, name, at, caseSensitive)
       <==> exists k: nat :: at <= k <= |name| && Rest(pattern, b, name, k, caseSensitive)
  {
    var pat, text := pattern[p..], name[at..];
    assert pat[1..] == pattern[p + 1..];
    if Rest(pattern, p, name, at, caseSensitive) {
      var n :| 0 <= n <= |text| && Glob(pat, text[..n], caseSensitive);
      var k :| 0 <= k <= n && Glob(pat[1..], text[..n][k..], caseSensitive);
      assert text[..n][k..] == name[at + k..][..n - k];
      assert Rest(pattern, b, name, at + k, caseSensitive);
    }
    if k: nat :| at <= k <= |name| && Rest(pattern, b, name, k, caseSensitive) {
      var n :| 0 <= n <= |name[k..]| && Glob(pattern[b..], name[k..][..n], caseSensitive);
      assert text[..n + (k - at)][k - at..] == name[k..][..n];
      assert Glob(pat, text[..n + (k - at)], caseSensitive);
    }
  }

  /** Literals only. */
  predicate IsBlock(pattern: string, p: nat, q: nat) {
    q <= |pattern| && forall i :: p <= i < q ==> pattern[i] != '*' && pattern[i] != '?'
  }

  /** A block of literals has to stand right where the name goes on. */
  lemma {:induction false} RestBlock(pattern: string, p: nat, q: nat, name: string, at: nat, caseSensitive: bool)
    requires p <= q <= |pattern| && at <= |name| && IsBlock(pattern, p, q)
    ensures Rest(pattern, p, name, at, caseSensitive)
       <==> Occurs(pattern, p, q, name, at, caseSensitive) && Rest(pattern, q, name, at + (q - p), caseSensitive)
    decreases q - p
  {
    if p < q {
      assert pattern[p] !in {'*', '?'};
      hide Rest;
      RestLiteral(pattern, p, name, at, caseSensitive);
      if at < |name| {
        RestBlock(pattern, p + 1, q, name, at + 1, caseSensitive);
        OccursStep(pattern, p, q, name, at, caseSensitive);
      }
    }
  }

  lemma OccursStep(pattern: string, p: nat, q: nat, name: string, at: nat, caseSensitive: bool)
    requires p < q <= |pattern| && at < |name|
    ensures Occurs(pattern, p, q, name, at, caseSensitive)
       <==> SameChar(pattern[p], name[at], caseSensitive) && Occurs(pattern, p + 1, q, name, at + 1, caseSensitive)
  {
    if Occurs(pattern, p, q, name, at, caseSensitive) {
      assert SameAt(pattern, p, name, at, 0, caseSensitive);
      var p', at' := p + 1, at + 1;
      forall j: nat | j < q - p - 1
        ensures SameAt(pattern, p', name, at', j, caseSensitive)
      {
        assert SameAt(pattern, p, name, at, j + 1, caseSensitive);
      }
    }
    if SameChar(pattern[p], name[at], caseSensitive) && Occurs(pattern, p + 1, q, name, at + 1, caseSensitive) {
      forall j: nat | j < q - p
        ensures SameAt(pattern, p, name, at, j, caseSensitive)
      {
        if j > 0 {
          assert SameAt(pattern, p + 1, name, at + 1, j - 1, caseSensitive);
        }
      }
    }
  }

  /** Where the pattern is at its end or at a star, starting earlier in the name is no loss. */
  lemma EarlierIsFine(pattern: string, q: nat, name: string, early: nat, late: nat, caseSensitive: bool)
    requires q <= |pattern| && early <= late <= |name| && (q < |pattern| ==> pattern[q] == '*')
    requires Rest(pattern, q, name, late, caseSensitive)
    ensures Rest(pattern, q, name, early, caseSensitive)
  {
    hide Rest;
    if q == |pattern| {
      RestAtEnd(pattern, name, early, caseSensitive);
    } else {
      RestStar(pattern, q, q + 1, name, late, caseSensitive);
      RestStar(pattern, q, q + 1, name, early, caseSensitive);
    }
  }

  /**
   * Why the leftmost occurrence is enough: after a star, a non-empty block of literals that ends at the
   * end of the pattern or at another star matches exactly when what follows matches after the leftmost
   * place where the block stands.
   */
  lemma LeftmostIsEnough(pattern: string, p: nat, b: nat, q: nat, name: string, at: nat, first: nat, caseSensitive: bool)
    requires p < b == p + 1 <= q <= |pattern| && pattern[p] == '*' && IsBlock(pattern, b, q)
    requires q < |pattern| ==> pattern[q] == '*'
    requires at <= first && Occurs(pattern, b, q, name, first, caseSensitive)
    requires forall k: nat :: at <= k < first ==> !Occurs(pattern, b, q, name, k, caseSensitive)
    ensures first + (q - b) <= |name|
    ensures Rest(pattern, p, name, at, caseSensitive) <==> Rest(pattern, q, name, first + (q - b), caseSensitive)
  {
    hide Rest, Occurs;
    OccursFits(pattern, b, q, name, first, caseSensitive);
    RestStar(pattern, p, b, name, at, caseSensitive);
    if k: nat :| at <= k <= |name| && Rest(pattern, b, name, k, caseSensitive) {
      RestBlock(pattern, b, q, name, k, caseSensitive);
      OccursFits(pattern, b, q, name, k, caseSensitive);
      EarlierIsFine(pattern, q, name, first + (q - b), k + (q - b), caseSensitive);
    }
    RestBlock(pattern, b, q, name, first, caseSensitive);
  }

  lemma OccursFits(pattern: string, p: nat, q: nat, name: string, at: nat, caseSensitive: bool)
    requires p <= q && Occurs(pattern, p, q, name, at, caseSensitive)
    ensures at + (q - p) <= |name|
  {
  }

  /** Without any occurrence of the block the star cannot match. */
  lemma NoOccurrenceNoMatch(pattern: string, p: nat, b: nat, q: nat, name: string, at: nat, caseSensitive: bool)
    requires p < b == p + 1 <= q <= |pattern| && pattern[p] == '*' && IsBlock(pattern, b, q) && at <= |name|
    requires forall k: nat :: at <= k ==> !Occurs(pattern, b, q, name, k, caseSensitive)
    ensures !Rest(pattern, p, name, at, caseSensitive)
  {
    hide Rest, Occurs;
    RestStar(pattern, p, b, name, at, caseSensitive);
    if k: nat :| at <= k <= |name| && Rest(pattern, b, name, k, caseSensitive) {
      RestBlock(pattern, b, q, name, k, caseSensitive);
    }
  }

  // ---- what the routine does ----

  /** The source cannot report the third: it then reads behind the end of the name. */
  datatype Verdict = Matches | Fails | ReadsPastEnd

  /** Where the literals from `b` on end. */
  function BlockEnd(pattern: string, b: nat): (q: nat)
    requires b <= |pattern|
    ensures b <= q && IsBlock(pattern, b, q) && (q < |pattern| ==> pattern[q] == '*' || pattern[q] == '?')
    decreases |pattern| - b
  {
    if b == |pattern| || pattern[b] == '*' || pattern[b] == '?' then b else BlockEnd(pattern, b + 1)
  }

  /** The leftmost place from `at` on where the literals stand; -1 if there is none. */
  function Leftmost(pattern: string, b: nat, q: nat, name: string, at: nat, caseSensitive: bool): (first: int)
    requires at <= |name|
    ensures first == -1 || at <= first
    ensures first == -1 ==> forall k: nat :: at <= k ==> !Occurs(pattern, b, q, name, k, caseSensitive)
    ensures first >= 0 ==> Occurs(pattern, b, q, name, first, caseSensitive)
                           && forall k: nat :: at <= k < first ==> !Occurs(pattern, b, q, name, k, caseSensitive)
    decreases |name| - at
  {
    if Occurs(pattern, b, q, name, at, caseSensitive) then at
    else if at == |name| then -1
    else Leftmost(pattern, b, q, name, at + 1, caseSensitive)
  }

  /** The routine from `p` in the pattern and `at` in the name, which question marks may have run over. */
  function Judge(pattern: string, p: nat, name: string, at: nat, caseSensitive: bool): Verdict
    requires p <= |pattern|
    decreases |pattern| - p
  {
    if p == |pattern| then Matches
    else if pattern[p] == '*' then
      var q := BlockEnd(pattern, p + 1);
      if q == p + 1 then Judge(pattern, q, name, at, caseSensitive)
      else if at > |name| then ReadsPastEnd
      else
        var first := Leftmost(pattern, p + 1, q, name, at, caseSensitive);
        if first < 0 then Fails else Judge(pattern, q, name, first + (q - p - 1), caseSensitive)
    else if pattern[p] == '?' then Judge(pattern, p + 1, name, at + 1, caseSensitive)
    else if at > |name| then ReadsPastEnd
    else if !SameChar(pattern[p], At(name, at), caseSensitive) then Fails
    else Judge(pattern, p + 1, name, at + 1, caseSensitive)
  }

  ghost function GlobVerdict(pattern: string, name: string, caseSensitive: bool): Verdict {
    if GlobsPrefix(pattern, name, caseSensitive) then Matches else Fails
  }

  /** Without question marks the leftmost places decide rightly. */
  lemma {:induction false} JudgeIsRest(pattern: string, p: nat, name: string, at: nat, caseSensitive: bool)
    requires p <= |pattern| && at <= |name| && '?' !in pattern && '\0' !in pattern
    ensures Judge(pattern, p, name, at, caseSensitive) == if Rest(pattern, p, name, at, caseSensitive) then Matches else Fails
    decreases |pattern| - p
  {
    hide Rest, Occurs, Leftmost;
    if p == |pattern| {
      RestAtEnd(pattern, name, at, caseSensitive);
    } else if pattern[p] == '*' {
      var q := BlockEnd(pattern, p + 1);
      assert q < |pattern| ==> pattern[q] in pattern;
      if q == p + 1 {
        LoneStar(pattern, p, name, at, caseSensitive);
        JudgeIsRest(pattern, q, name, at, caseSensitive);
      } else {
        var first := Leftmost(pattern, p + 1, q, name, at, caseSensitive);
        if first < 0 {
          NoOccurrenceNoMatch(pattern, p, p + 1, q, name, at, caseSensitive);
        } else {
          LeftmostIsEnough(pattern, p, p + 1, q, name, at, first, caseSensitive);
          JudgeIsRest(pattern, q, name, first + (q - p - 1), caseSensitive);
        }
      }
    } else {
      assert pattern[p] in pattern;
      RestLiteral(pattern, p, name, at, caseSensitive);
      if at < |name| {
        JudgeIsRest(pattern, p + 1, name, at + 1, caseSensitive);
      }
    }
  }

  lemma NoQuestionMark(pattern: string, name: string, caseSensitive: bool)
    requires '\0' !in pattern
    ensures '?' !in pattern ==> Judge(pattern, 0, name, 0, caseSensitive) == GlobVerdict(pattern, name, caseSensitive)
  {
    hide Judge;
    assert pattern[0..] == pattern && name[0..] == name;
    if '?' !in pattern {
      JudgeIsRest(pattern, 0, name, 0, caseSensitive);
    }
  }

  /** Patterns of literals only: with regard to case the name starts with them, without it with the same letters. */
  lemma LiteralsStart(pattern: string, name: string)
    requires '\0' !in pattern && '?' !in pattern && '*' !in pattern
    ensures Judge(pattern, 0, name, 0, true) == (if pattern <= name then Matches else Fails)
    ensures Judge(pattern, 0, name, 0, false)
         == if |pattern| <= |name| && forall i :: 0 <= i < |pattern| ==> SameLetter(pattern[i], name[i]) then Matches else Fails
  {
    LiteralsOccur(pattern, name, true);
    LiteralsOccur(pattern, name, false);
    hide Judge;
    forall i | 0 <= i < |pattern| <= |name|
      ensures ToUpper(pattern[i]) == ToUpper(name[i]) <==> SameLetter(pattern[i], name[i])
    {
      CasesTellLetters(pattern[i], name[i]);
    }
    hide ToUpper, SameLetter;
  }

  lemma LiteralsOccur(pattern: string, name: string, caseSensitive: bool)
    requires '\0' !in pattern && '?' !in pattern && '*' !in pattern
    ensures Judge(pattern, 0, name, 0, caseSensitive)
         == if |pattern| <= |name| && forall i: nat :: i < |pattern| ==> SameChar(name[i], pattern[i], caseSensitive) then Matches
            else Fails
  {
    JudgeIsRest(pattern, 0, name, 0, caseSensitive);
    assert IsBlock(pattern, 0, |pattern|) by {
      assert forall i :: 0 <= i < |pattern| ==> pattern[i] in pattern;
    }
    RestBlock(pattern, 0, |pattern|, name, 0, caseSensitive);
    if |pattern| <= |name| {
      RestAtEnd(pattern, name, |pattern|, caseSensitive);
      assert Occurs(pattern, 0, |pattern|, name, 0, caseSensitive)
        <==> forall j: nat :: j < |pattern| ==> SameAt(pattern, 0, name, 0, j, caseSensitive);
      assert forall j: nat :: j < |pattern| ==> (SameAt(pattern, 0, name, 0, j, caseSensitive) <==> SameChar(name[j], pattern[j], caseSensitive));
    }
    hide Judge, Rest, SameChar;
  }

  // ---- question marks ----

  /** The pattern without its stars. */
  function Unstarred(pattern: string): string {
    if pattern == "" then ""
    else (if pattern[0] == '*' then "" else [pattern[0]]) + Unstarred(pattern[1..])
  }

  lemma {:induction false} GlobIsLong(pattern: string, text: string, caseSensitive: bool)
    requires Glob(pattern, text, caseSensitive)
    ensures |text| >= |Unstarred(pattern)|
    decreases |pattern|
  {
    if pattern != "" {
      if pattern[0] == '*' {
        var k :| 0 <= k <= |text| && Glob(pattern[1..], text[k..], caseSensitive);
        GlobIsLong(pattern[1..], text[k..], caseSensitive);
      } else {
        GlobIsLong(pattern[1..], text[1..], caseSensitive);
      }
    }
  }

  lemma {:induction false} UnstarredConcat(a: string, b: string)
    ensures Unstarred(a + b) == Unstarred(a) + Unstarred(b)
  {
    if a == "" {
      assert a + b == b;
    } else {
      assert (a + b)[1..] == a[1..] + b;
      UnstarredConcat(a[1..], b);
    }
  }

  lemma {:induction false} UnstarredBlock(pattern: string, p: nat, q: nat)
    requires p <= q && IsBlock(pattern, p, q)
    ensures Unstarred(pattern[p..q]) == pattern[p..q]
    decreases q - p
  {
    if p < q {
      UnstarredBlock(pattern, p + 1, q);
      assert pattern[p..q][1..] == pattern[p + 1..q];
    }
  }

  /** On a name that is the pattern up to its first question mark, without stars, the routine gets to the end of both. */
  lemma {:induction false} ReachesQuestionMark(pattern: string, p: nat, k: nat, name: string, at: nat, caseSensitive: bool)
    requires p <= k < |pattern| && pattern[k] == '?' && forall i :: p <= i < k ==> pattern[i] != '?'
    requires at <= |name| && name[at..] == Unstarred(pattern[p..k])
    ensures Judge(pattern, p, name, at, caseSensitive) == Judge(pattern, k, name, |name|, caseSensitive)
    decreases k - p
  {
    if p < k {
      hide Leftmost, Occurs, Unstarred;
      var q := if pattern[p] == '*' then BlockEnd(pattern, p + 1) else p + 1;
      var b := if pattern[p] == '*' then p + 1 else p;
      assert q <= k;
      NextBlock(pattern, p, b, q, k, name, at, caseSensitive);
      StandsHere(pattern, p, b, q, name, at, caseSensitive);
      hide Judge;
      ReachesQuestionMark(pattern, q, k, name, at + (q - b), caseSensitive);
    }
  }

  /** Literals that stand where the name goes on are what the routine steps over. */
  lemma StandsHere(pattern: string, p: nat, b: nat, q: nat, name: string, at: nat, caseSensitive: bool)
    requires p < |pattern| && pattern[p] != '?' && at <= |name| && Occurs(pattern, b, q, name, at, caseSensitive)
    requires if pattern[p] == '*' then b == p + 1 && q == BlockEnd(pattern, b) else b == p && q == p + 1
    requires b < q ==> at < |name| && name[at] == pattern[b]
    ensures Judge(pattern, p, name, at, caseSensitive) == Judge(pattern, q, name, at + (q - b), caseSensitive)
  {
    hide Occurs, BlockEnd;
    if pattern[p] == '*' {
      assert Leftmost(pattern, b, q, name, at, caseSensitive) == at;
    }
    hide Leftmost;
  }

  lemma NextBlock(pattern: string, p: nat, b: nat, q: nat, k: nat, name: string, at: nat, caseSensitive: bool)
    requires p <= b <= q <= k < |pattern| && IsBlock(pattern, b, q) && (b == p || (b == p + 1 && pattern[p] == '*'))
    requires at <= |name| && name[at..] == Unstarred(pattern[p..k])
    ensures at + (q - b) <= |name| && name[at + (q - b)..] == Unstarred(pattern[q..k])
    ensures Occurs(pattern, b, q, name, at, caseSensitive)
    ensures b < q ==> name[at] == pattern[b]
  {
    UnstarredParts(pattern, p, b, q, k);
    hide Unstarred, IsBlock;
    var block := pattern[b..q];
    Behind(name, at, block, Unstarred(pattern[q..k]));
    forall j: nat | j < q - b
      ensures SameAt(pattern, b, name, at, j, caseSensitive)
    {
      assert name[at + j] == block[j] == pattern[b + j];
    }
  }

  lemma Behind(name: string, at: nat, block: string, later: string)
    requires at <= |name| && name[at..] == block + later
    ensures at + |block| <= |name| && name[at + |block|..] == later
    ensures forall j: nat :: j < |block| ==> name[at + j] == block[j]
  {
    assert name[at..][|block|..] == name[at + |block|..];
    forall j: nat | j < |block|
      ensures name[at + j] == block[j]
    {
      assert name[at..][j] == name[at + j];
    }
  }

  lemma CutAt(s: string, i: nat, j: nat, k: nat)
    requires i <= j <= k <= |s|
    ensures s[i..k] == s[i..j] + s[j..k]
  {
  }

  lemma UnstarredParts(pattern: string, p: nat, b: nat, q: nat, k: nat)
    requires p <= b <= q <= k <= |pattern| && IsBlock(pattern, b, q) && (b == p || (b == p + 1 && pattern[p] == '*'))
    ensures Unstarred(pattern[p..k]) == pattern[b..q] + Unstarred(pattern[q..k])
  {
    assert Unstarred("*") == "" && Unstarred("") == "";
    assert pattern[p..b] == if b == p then "" else "*";
    UnstarredBlock(pattern, b, q);
    hide Unstarred, IsBlock;
    CutAt(pattern, p, b, k);
    CutAt(pattern, b, q, k);
    UnstarredConcat(pattern[p..b], pattern[b..k]);
    UnstarredConcat(pattern[b..q], pattern[q..k]);
  }

  lemma {:induction false} PastEndNeverFails(pattern: string, p: nat, name: string, at: nat, caseSensitive: bool)
    requires p <= |pattern| && at > |name|
    ensures Judge(pattern, p, name, at, caseSensitive) != Fails
    decreases |pattern| - p
  {
    if p < |pattern| {
      PastEndNeverFails(pattern, p + 1, name, at, caseSensitive);
      PastEndNeverFails(pattern, p + 1, name, at + 1, caseSensitive);
    }
  }

  /** Every pattern with a question mark is misjudged on some name: one that is too short for it does not fail. */
  lemma QuestionMarkMisleads(pattern: string, caseSensitive: bool) returns (name: string)
    requires '?' in pattern && '\0' !in pattern
    ensures '\0' !in name && Judge(pattern, 0, name, 0, caseSensitive) != Fails
    ensures !GlobsPrefix(pattern, name, caseSensitive)
  {
    var k := FirstQuestionMark(pattern);
    name := Unstarred(pattern[..k]);
    UnstarredHas(pattern[..k]);
    assert forall c :: c in pattern[..k] ==> c in pattern;
    assert name[0..] == name && pattern[0..k] == pattern[..k];
    ReachesQuestionMark(pattern, 0, k, name, 0, caseSensitive);
    PastEndNeverFails(pattern, k + 1, name, |name| + 1, caseSensitive);
    TooShort(pattern, k, caseSensitive);
  }

  lemma FirstQuestionMark(pattern: string) returns (k: nat)
    requires '?' in pattern
    ensures k < |pattern| && pattern[k] == '?' && forall i :: 0 <= i < k ==> pattern[i] != '?'
  {
    k := 0;
    while pattern[k] != '?'
      invariant k < |pattern| && '?' in pattern[k..] && forall i :: 0 <= i < k ==> pattern[i] != '?'
      decreases |pattern| - k
    {
      k := k + 1;
    }
  }

  lemma {:induction false} UnstarredHas(pattern: string)
    ensures forall c :: c in Unstarred(pattern) ==> c in pattern
  {
    if pattern != "" {
      UnstarredHas(pattern[1..]);
    }
  }

  lemma TooShort(pattern: string, k: nat, caseSensitive: bool)
    requires k < |pattern| && pattern[k] == '?'
    ensures !GlobsPrefix(pattern, Unstarred(pattern[..k]), caseSensitive)
  {
    var name := Unstarred(pattern[..k]);
    assert pattern == pattern[..k] + pattern[k..];
    UnstarredConcat(pattern[..k], pattern[k..]);
    if n :| 0 <= n <= |name| && Glob(pattern, name[..n], caseSensitive) {
      GlobIsLong(pattern, name[..n], caseSensitive);
    }
  }

  /** The routine judges all names as the pattern means it exactly if the pattern has no question mark. */
  lemma FilterIsGlobIff(pattern: string, caseSensitive: bool)
    requires '\0' !in pattern
    ensures (forall name :: '\0' !in name ==>
               Judge(pattern, 0, name, 0, caseSensitive) == GlobVerdict(pattern, name, caseSensitive))
       <==> '?' !in pattern
  {
    if '?' in pattern {
      var name := QuestionMarkMisleads(pattern, caseSensitive);
      assert Judge(pattern, 0, name, 0, caseSensitive) != GlobVerdict(pattern, name, caseSensitive);
    } else {
      forall name: string
        ensures Judge(pattern, 0, name, 0, caseSensitive) == GlobVerdict(pattern, name, caseSensitive)
      {
        NoQuestionMark(pattern, name, caseSensitive);
      }
    }
  }

  /** Behind a star a question mark can also lose a match: the star then stands for nothing. */
  lemma QuestionMarkAfterStarLoses()
    ensures Judge("*?b", 0, "xyb", 0, true) == Fails && GlobsPrefix("*?b", "xyb", true)
  {
    assert "*?b"[1..] == "?b" && "?b"[1..] == "b" && "b"[1..] == "";
    assert "xyb"[..3] == "xyb" && "xyb"[1..] == "yb" && "yb"[1..] == "b";
    assert Glob("b", "b", true) && Glob("?b", "yb", true);
    assert Glob("*?b", "xyb", true);
  }

  // ---- the search ----

  /** Com_StringContains from position `at` of the name, for the literals `pattern[p..q]`: the leftmost place. */
  method StringContains(name: string, at: nat, pattern: string, p: nat, q: nat, caseSensitive: bool)
    returns (found: bool, first: nat)
    requires at <= |name| && p <= q <= |pattern|
    ensures found ==> at <= first && Occurs(pattern, p, q, name, first, caseSensitive)
    ensures found ==> forall k: nat :: at <= k < first ==> !Occurs(pattern, p, q, name, k, caseSensitive)
    ensures !found ==> forall k: nat :: at <= k ==> !Occurs(pattern, p, q, name, k, caseSensitive)
    ensures (if found then first else -1) == Leftmost(pattern, p, q, name, at, caseSensitive)
  {
    hide Leftmost;
    var len := (|name| - at) - (q - p);
    first := at;
    while first - at <= len
      invariant at <= first
      invariant forall k: nat :: at <= k < first ==> !Occurs(pattern, p, q, name, k, caseSensitive)
    {
      var j: nat := 0;
      while j < q - p
        invariant 0 <= j <= q - p
        invariant forall i: nat :: i < j ==> SameAt(pattern, p, name, first, i, caseSensitive)
      {
        if !SameChar(name[first + j], pattern[p + j], caseSensitive) {
          assert !SameAt(pattern, p, name, first, j, caseSensitive);
          break;
        }
        j := j + 1;
      }
      if j == q - p {
        return true, first;
      }
      first := first + 1;
    }
    found := false;
  }

  /** The loop of Com_Filter that copies the literals after a star. */
  method BlockAfterStar(pattern: string, p: nat) returns (q: nat)
    requires p <= |pattern|
    ensures q == BlockEnd(pattern, p)
  {
    q := p;
    while q < |pattern|
      invariant p <= q <= |pattern| && BlockEnd(pattern, q) == BlockEnd(pattern, p)
    {
      if pattern[q] == '*' || pattern[q] == '?' {
        break;
      }
      q := q + 1;
    }
  }

  /** Com_Filter, for patterns without brackets. */
  method Filter(pattern: string, name: string, caseSensitive: bool) returns (verdict: Verdict)
    requires '\0' !in pattern && '\0' !in name && '[' !in pattern
    ensures verdict == Judge(pattern, 0, name, 0, caseSensitive)
    ensures '?' !in pattern ==> verdict == GlobVerdict(pattern, name, caseSensitive)
  {
    hide Occurs, Leftmost, GlobVerdict, BlockEnd, SameChar, Fits;
    NoQuestionMark(pattern, name, caseSensitive);
    ghost var judged := Judge(pattern, 0, name, 0, caseSensitive);
    var p: nat, at: nat := 0, 0;
    while p < |pattern|
      invariant p <= |pattern|
      invariant Judge(pattern, p, name, at, caseSensitive) == judged
      decreases |pattern| - p
    {
      if pattern[p] == '*' {
        var q := BlockAfterStar(pattern, p + 1);
        if q > p + 1 {
          if at > |name| {
            return ReadsPastEnd;
          }
          var found, first := StringContains(name, at, pattern, p + 1, q, caseSensitive);
          if !found {
            return Fails;
          }
          at := first + (q - p - 1);
        }
        p := q;
      } else if pattern[p] == '?' {
        p, at := p + 1, at + 1;
      } else if at > |name| {
        return ReadsPastEnd;
      } else {
        if !SameChar(pattern[p], At(name, at), caseSensitive) {
          return Fails;
        }
        p, at := p + 1, at + 1;
      }
    }
    verdict := Matches;
  }

  /** A star before the end or before another star changes nothing. */
  lemma LoneStar(pattern: string, p: nat, name: string, at: nat, caseSensitive: bool)
    requires p < |pattern| && at <= |name| && pattern[p] == '*' && (p + 1 < |pattern| ==> pattern[p + 1] == '*')
    ensures Rest(pattern, p, name, at, caseSensitive) <==> Rest(pattern, p + 1, name, at, caseSensitive)
  {
    hide Rest;
    var b := p + 1;
    RestStar(pattern, p, b, name, at, caseSensitive);
    if k: nat :| at <= k <= |name| && Rest(pattern, b, name, k, caseSensitive) {
      EarlierIsFine(pattern, p + 1, name, at, k, caseSensitive);
    }
  }

}
