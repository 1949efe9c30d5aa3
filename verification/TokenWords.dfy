/** What the tokens of a text are, stated on the characters of words, quotes and comments. */
module TokenWords {
  import opened CommandText
  import opened Tokenizer

  /** Characters above the space that open no comment; a quote is one of them only where quotes are ignored. */
  predicate IsWord(w: string, ignoreQuotes: bool) {
    && w != ""
    && (forall k :: 0 <= k < |w| ==> w[k] > ' ' && (ignoreQuotes || w[k] != '"'))
    && forall k :: 0 <= k < |w| - 1 && w[k] == '/' ==> w[k + 1] != '/' && w[k + 1] != '*'
  }

  predicate IsBlankGap(g: string) {
    g != "" && forall k :: 0 <= k < |g| ==> g[k] <= ' '
  }

  /** A slash and a star up to the first star and slash, which may share the star. */
  predicate IsStarComment(g: string) {
    && |g| >= 3 && g[..2] == "/*" && g[|g| - 2..] == "*/"
    && forall k :: 0 <= k < |g| - 2 && g[k] == '*' ==> g[k + 1] != '/'
  }

  // ---- steps ----

  lemma {:induction false} WordEndIs(text: string, s: nat, e: nat, ignoreQuotes: bool)
    requires s <= e <= |text| && (forall k :: s <= k < e ==> !EndsWord(text, k, ignoreQuotes))
    requires e < |text| ==> EndsWord(text, e, ignoreQuotes)
    ensures WordEnd(text, s, ignoreQuotes) == e
    decreases e - s
  {
    if s < e {
      WordEndIs(text, s + 1, e, ignoreQuotes);
    }
  }

  lemma WordIsTaken(text: string, s: nat, e: nat, room: nat, slots: nat, ignoreQuotes: bool)
    requires s < e <= |text| && (forall k :: s <= k < e ==> !EndsWord(text, k, ignoreQuotes))
    requires (e < |text| ==> EndsWord(text, e, ignoreQuotes)) && slots > 0 && e - s + 3 <= room
    ensures Tokens(text, s, room, slots, ignoreQuotes)
         == [text[s..e]] + Tokens(text, e, room - (e - s) - 1, slots - 1, ignoreQuotes)
  {
    assert !EndsWord(text, s, ignoreQuotes);
    WordEndIs(text, s, e, ignoreQuotes);
  }

  lemma SkipKeepsTokens(text: string, s: nat, t: nat, room: nat, slots: nat, ignoreQuotes: bool)
    requires s <= |text| && t <= |text| && SkipBlank(text, s) == SkipBlank(text, t)
    ensures Tokens(text, s, room, slots, ignoreQuotes) == Tokens(text, t, room, slots, ignoreQuotes)
  {
    hide SkipBlank;
  }

  lemma {:induction false} SkipBlanks(text: string, s: nat, t: nat)
    requires s <= t <= |text| && forall k :: s <= k < t ==> text[k] <= ' '
    ensures SkipBlank(text, s) == SkipBlank(text, t)
    decreases t - s
  {
    if s < t {
      assert !OpensComment(text, s);
      SkipBlanks(text, s + 1, t);
    }
  }

  lemma {:induction false} CommentEndIs(text: string, s: nat, e: nat)
    requires s <= e && Pair(text, e, '*', '/') && forall k :: s <= k < e ==> !Pair(text, k, '*', '/')
    ensures CommentEnd(text, s) == e
    decreases e - s
  {
    if s < e {
      CommentEndIs(text, s + 1, e);
    }
  }

  // ---- words and what is between them ----

  /**
   * A word on its own, quotes and all where they are ignored, is the one token, if there is a slot and it
   * leaves two characters behind its terminator; otherwise there is none.
   */
  lemma OneToken(w: string, room: nat, slots: nat, ignoreQuotes: bool)
    requires IsWord(w, ignoreQuotes)
    ensures Tokens(w, 0, room, slots, ignoreQuotes) == if slots > 0 && |w| + 3 <= room then [w] else []
  {
    assert w[0..] == w && w[0..|w|] == w;
    if slots > 0 && |w| + 3 <= room {
      LastWord(w, 0, room, slots, ignoreQuotes);
    } else {
      NoEndInWord(w, 0, |w|, ignoreQuotes);
      WordEndIs(w, 0, |w|, ignoreQuotes);
      assert !EndsWord(w, 0, ignoreQuotes);
    }
  }

  lemma LastWord(text: string, s: nat, room: nat, slots: nat, ignoreQuotes: bool)
    requires s < |text| && IsWord(text[s..], ignoreQuotes) && slots > 0 && |text| - s + 3 <= room
    ensures Tokens(text, s, room, slots, ignoreQuotes) == [text[s..]]
  {
    NoEndInWord(text, s, |text|, ignoreQuotes);
    WordIsTaken(text, s, |text|, room, slots, ignoreQuotes);
    assert Tokens(text, |text|, room - (|text| - s) - 1, slots - 1, ignoreQuotes) == [];
    assert text[s..|text|] == text[s..];
  }

  lemma NoEndInWord(text: string, s: nat, e: nat, ignoreQuotes: bool)
    requires s < e <= |text| && IsWord(text[s..e], ignoreQuotes)
    requires e < |text| && text[e - 1] == '/' ==> text[e] != '/' && text[e] != '*'
    ensures forall k :: s <= k < e ==> !EndsWord(text, k, ignoreQuotes)
  {
    var w := text[s..e];
    forall k | s <= k < e
      ensures !EndsWord(text, k, ignoreQuotes)
    {
      assert w[k - s] == text[k];
      if k + 1 < e {
        assert w[k - s + 1] == text[k + 1];
      }
    }
  }

  /** Two words apart, by blanks or by a star comment, are the two tokens. */
  lemma TwoTokens(a: string, gap: string, b: string, room: nat, slots: nat, ignoreQuotes: bool)
    requires IsWord(a, ignoreQuotes) && IsWord(b, ignoreQuotes) && slots >= 2 && |a| + |b| + 4 <= room
    requires IsBlankGap(gap) || (IsStarComment(gap) && a[|a| - 1] != '/')
    ensures Tokens(a + gap + b, 0, room, slots, ignoreQuotes) == [a, b]
  {
    hide IsWord, Tokens, IsBlankGap, IsStarComment;
    WordsAreThere(a, b, gap, ignoreQuotes);
    GapIsThere(a, gap, b);
    TokensAround(a + gap + b, |a|, gap, room, slots, ignoreQuotes);
  }

  lemma WordsAreThere(a: string, b: string, gap: string, ignoreQuotes: bool)
    requires IsWord(a, ignoreQuotes) && IsWord(b, ignoreQuotes) && (IsBlankGap(gap) || IsStarComment(gap))
    ensures a != "" && b != "" && gap != ""
  {
  }

  lemma TokensAround(text: string, m: nat, gap: string, room: nat, slots: nat, ignoreQuotes: bool)
    requires 0 < m < m + |gap| < |text| && text[m..m + |gap|] == gap
    requires IsWord(text[..m], ignoreQuotes) && IsWord(text[m + |gap|..], ignoreQuotes)
    requires slots >= 2 && |text| - |gap| + 4 <= room
    requires IsBlankGap(gap) || (IsStarComment(gap) && text[m - 1] != '/')
    ensures Tokens(text, 0, room, slots, ignoreQuotes) == [text[..m], text[m + |gap|..]]
  {
    hide IsWord, Tokens, SkipBlank, EndsWord, IsStarComment;
    var n := m + |gap|;
    assert text[0..m] == text[..m] && text[m] == gap[0];
    GapEndsWord(text, m, gap, ignoreQuotes);
    NoEndInWord(text, 0, m, ignoreQuotes);
    WordIsTaken(text, 0, m, room, slots, ignoreQuotes);
    GapIsSkipped(text, m, gap);
    SkipKeepsTokens(text, m, n, room - m - 1, slots - 1, ignoreQuotes);
    LastWord(text, n, room - m - 1, slots - 1, ignoreQuotes);
  }

  lemma GapIsThere(a: string, gap: string, b: string)
    requires a != "" && gap != ""
    ensures (var text, m := a + gap + b, |a|;
             && |text| == m + |gap| + |b| && text[m - 1] == a[m - 1]
             && text[m..m + |gap|] == gap && text[m] == gap[0] && text[..m] == a && text[m + |gap|..] == b)
  {
  }

  lemma GapEndsWord(text: string, m: nat, gap: string, ignoreQuotes: bool)
    requires m + |gap| <= |text| && gap != "" && text[m..m + |gap|] == gap && (IsBlankGap(gap) || IsStarComment(gap))
    ensures EndsWord(text, m, ignoreQuotes)
  {
    assert text[m] == gap[0];
    if IsStarComment(gap) {
      assert gap[0] == gap[..2][0] && gap[1] == gap[..2][1] && text[m + 1] == gap[1];
    }
  }

  lemma GapIsSkipped(text: string, m: nat, gap: string)
    requires m + |gap| <= |text| && text[m..m + |gap|] == gap && (IsBlankGap(gap) || IsStarComment(gap))
    ensures SkipBlank(text, m) == SkipBlank(text, m + |gap|)
  {
    var n := m + |gap|;
    assert forall k :: m <= k < n ==> text[k] == gap[k - m];
    if IsBlankGap(gap) {
      SkipBlanks(text, m, n);
    } else {
      assert gap[0] == gap[..2][0] && gap[1] == gap[..2][1];
      assert gap[|gap| - 2] == gap[|gap| - 2..][0] && gap[|gap| - 1] == gap[|gap| - 2..][1];
      CommentEndIs(text, m, n - 2);
      assert Pair(text, m, '/', '*');
    }
  }

  /** Text in quotes is one token without them, blanks and comment openers in it included. */
  lemma QuotedToken(v: string, room: nat, slots: nat)
    requires '"' !in v && slots > 0 && |v| + 3 <= room
    ensures Tokens("\"" + v + "\"", 0, room, slots, false) == [v]
  {
    var text, e := "\"" + v + "\"", |v| + 1;
    assert text[0] == '"' && text[1..e] == v && text[e] == '"';
    assert !OpensComment(text, 0) && SkipBlank(text, 0) == 0;
    assert forall k :: 1 <= k < e ==> text[k] == v[k - 1] && v[k - 1] in v;
    QuoteEndIs(text, 1, e);
    assert TokenAt(text, 0, false) == (v, |text|);
    assert Tokens(text, |text|, room - |v| - 1, slots - 1, false) == [];
  }

  lemma {:induction false} QuoteEndIs(text: string, s: nat, e: nat)
    requires s <= e < |text| && text[e] == '"' && forall k :: s <= k < e ==> text[k] != '"'
    ensures QuoteEnd(text, s) == e
    decreases e - s
  {
    if s < e {
      QuoteEndIs(text, s + 1, e);
    }
  }
}
