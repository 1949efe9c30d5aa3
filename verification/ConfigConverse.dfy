/**
 * Which configs come back: exactly those whose entries are all good. What is new here is that no config
 * with a bad entry comes back, however its text is cut up and put together again.
 */
module ConfigConverse {
  import opened Ascii
  import opened CommandText
  import opened Tokenizer
  import opened ConfigRoundTrip
  import CvarIndex

  // ---- only good entries come back ----

  lemma {:induction false} TokensHaveNoQuotes(text: string, i: nat, room: nat, slots: nat, token: string)
    requires i <= |text| && token in Tokens(text, i, room, slots, false)
    ensures '"' !in token
    decreases |text| - i
  {
    var s := SkipBlank(text, i);
    var (first, next) := TokenAt(text, s, false);
    if token == first {
      if IsQuoted(text, s, false) {
      } else {
        forall k | 0 <= k < |first|
          ensures first[k] != '"'
        {
          assert !EndsWord(text, s + k, false);
        }
      }
    } else {
      TokensHaveNoQuotes(text, next, room - |first| - 1, slots - 1, token);
    }
  }

  lemma WordIsClean(text: string, s: nat)
    requires s < |text| && !IsBlank(text[s]) && !OpensComment(text, s) && text[s] != '"'
    ensures CleanWord(TokenAt(text, s, false).0)
  {
    var e := WordEnd(text, s, false);
    var word := text[s..e];
    assert EndsWord(text, s, false) == false;
    forall k: nat | k < |word|
      ensures !IsBlank(word[k]) && word[k] != '"' && !OpensComment(word, k)
    {
      assert !EndsWord(text, s + k, false);
    }
  }

  function Total(tokens: seq<string>): nat {
    if tokens == [] then 0 else |tokens[0]| + Total(tokens[1..])
  }

  lemma TotalStep(token: string, tokens: seq<string>)
    ensures Total([token] + tokens) == |token| + Total(tokens)
  {
    assert ([token] + tokens)[1..] == tokens;
  }

  /** Without quotes in the text every token is a clean word, and they do not overlap. */
  lemma {:induction false} QuoteFreeTokens(text: string, i: nat, room: nat, slots: nat)
    requires i <= |text| && forall k :: i <= k < |text| ==> text[k] != '"'
    ensures Total(Tokens(text, i, room, slots, false)) <= |text| - i
    ensures forall t :: t in Tokens(text, i, room, slots, false) ==> t != ""
    decreases |text| - i
  {
    assert Total([]) == 0;
    hide Total;
    var s := SkipBlank(text, i);
    if slots > 0 && s < |text| {
      var (first, next) := TokenAt(text, s, false);
      assert !EndsWord(text, s, false);
      if |first| + 3 <= room {
        QuoteFreeTokens(text, next, room - |first| - 1, slots - 1);
        TotalStep(first, Tokens(text, next, room - |first| - 1, slots - 1, false));
      }
    }
  }

  lemma {:induction false} BlankTail(text: string, i: nat, room: nat, slots: nat)
    requires i <= |text| && forall k :: i <= k < |text| ==> IsBlank(text[k])
    ensures SkipBlank(text, i) == |text| && Tokens(text, i, room, slots, false) == []
    decreases |text| - i
  {
    if i < |text| {
      assert !OpensComment(text, i);
      BlankTail(text, i + 1, room, slots);
    }
  }

  /** Starting at a quote with at most one more quote, after which all is blank, there is only one token. */
  lemma QuotedIsAlone(text: string, s: nat, close: nat, room: nat, slots: nat)
    requires s < |text| && text[s] == '"'
    requires forall k :: s < k < |text| && k != close ==> text[k] != '"'
    requires forall k :: close < k < |text| ==> IsBlank(text[k])
    ensures |Tokens(text, s, room, slots, false)| <= 1
  {
    var (first, next) := TokenAt(text, s, false);
    var e := QuoteEnd(text, s + 1);
    if e < |text| {
      assert e == close;
    }
    assert SkipBlank(text, s) == s;
    if slots > 0 && |first| + 3 <= room {
      BlankTail(text, next, room - |first| - 1, slots - 1);
    }
  }

  /** The least place where the text has one of the given characters. */
  lemma FirstOf(text: string, stops: set<char>) returns (p: nat)
    requires exists c :: c in text && c in stops
    ensures p < |text| && text[p] in stops && forall k :: 0 <= k < p ==> text[k] !in stops
  {
    p := 0;
    while p < |text| && text[p] !in stops
      invariant p <= |text| && forall k :: 0 <= k < p ==> text[k] !in stops
    {
      p := p + 1;
    }
  }

  /** The quotes of a line are where the line puts them. */
  lemma QuotesOfLine(e: Entry, tail: string, k: nat)
    requires '"' !in e.name && '"' !in e.value && k < |Line(e)|
    ensures (Line(e) + tail)[k] == '"' <==> k == 6 + |e.name| || k == 7 + |e.name| + |e.value|
  {
    var text, n, v := Line(e) + tail, |e.name|, |e.value|;
    LineShape(e, tail);
    if k < 5 {
      assert text[k] == text[..5][k];
    } else if k < 5 + n {
      assert text[k] == text[5..5 + n][k - 5] && e.name[k - 5] in e.name;
    } else if 7 + n <= k < 7 + n + v {
      assert text[k] == text[7 + n..7 + n + v][k - 7 - n] && e.value[k - 7 - n] in e.value;
    }
  }

  /** After the first word the second and third come from what follows. */
  lemma AfterSeta(line: string)
    requires 5 <= |line| && line[..5] == "seta "
    ensures Tokens(line, 0, ARENA_SIZE, MAX_STRING_TOKENS, false)
         == ["seta"] + Tokens(line, 5, ARENA_SIZE - 5, MAX_STRING_TOKENS - 1, false)
  {
    hide Tokens, TokenAt, SkipBlank, IsBlank, EndsWord;
    SetaIsWord(line);
    assert line[0..4] == line[..5][..4] == "seta";
    OneWord(line, 0, 4, ARENA_SIZE, MAX_STRING_TOKENS);
  }

  /** A first line cut off within the name cannot give the three tokens. */
  lemma CutInNameLoses(e: Entry, tail: string, i: nat)
    requires '"' !in e.name && '"' !in e.value && i <= 5 + |e.name|
    ensures Tokens((Line(e) + tail)[..i], 0, ARENA_SIZE, MAX_STRING_TOKENS, false) != ["seta", e.name, e.value]
  {
    var text := Line(e) + tail;
    LineShape(e, tail);
    var line := text[..i];
    forall k | 0 <= k < i
      ensures line[k] != '"'
    {
      QuotesOfLine(e, tail, k);
    }
    hide Line;
    var all := Tokens(line, 0, ARENA_SIZE, MAX_STRING_TOKENS, false);
    QuoteFreeTokens(line, 0, ARENA_SIZE, MAX_STRING_TOKENS);
    if i >= 5 {
      assert line[..5] == text[..5];
      AfterSeta(line);
      QuoteFreeTokens(line, 5, ARENA_SIZE - 5, MAX_STRING_TOKENS - 1);
      var rest := Tokens(line, 5, ARENA_SIZE - 5, MAX_STRING_TOKENS - 1, false);
      assert (["seta"] + rest)[1..] == rest;
    }
    assert Total(all) <= 4 + |e.name|;
    ThreeTotal("seta", e.name, e.value);
    assert e.value in ["seta", e.name, e.value];
  }

  lemma ThreeTotal(a: string, b: string, c: string)
    ensures Total([a, b, c]) == |a| + |b| + |c|
  {
    assert Total([c]) == |c| + Total([]);
    assert [b, c][1..] == [c];
    assert [a, b, c][1..] == [b, c];
  }

  // ---- what the scan of a star comment cannot pass ----

  const STAR := Comment(true, false)

  /** With a star comment open, every end of a comment outside quotes ends the command. */
  lemma {:induction false} StarScan(text: string, i: nat, p: nat)
    requires i <= p && i <= |text| && p + 1 < FindBreak(text, i, Quotes(text, i) % 2 == 1, STAR).at
    requires Pair(text, p, '*', '/')
    ensures !IsOutside(text, p)
    decreases p - i
  {
    QuotesStep(text, i);
    hide Quotes;
    if i < p {
      StarScan(text, i + 1, p);
    }
  }

  /** Every end of a comment from `a` on within the first `i` characters is inside quotes. */
  ghost predicate EndsInQuotes(text: string, a: nat, i: nat)
    requires i <= |text|
  {
    forall p: nat :: a <= p && p + 1 < i && Pair(text, p, '*', '/') ==> !IsOutside(text, p)
  }

  /** Skipping comments within the quotes of a text, the tokenizer can only stop at a quote that closes. */
  lemma {:induction false} SkipStopsInQuotes(text: string, a: nat, i: nat, q: nat)
    requires a <= q <= i <= |text| && EndsInQuotes(text, a, i) && Quotes(text, q) % 2 == 1
    ensures (var s := SkipBlank(text[..i], q); s < i && text[s] == '"' ==> Quotes(text, s) % 2 == 1)
    decreases i - q
  {
    hide Quotes, EndsInQuotes, CommentEnd;
    var line := text[..i];
    if q < i {
      QuotesStep(text, q);
      if Pair(line, q, '/', '*') {
        CommentEndsInQuotes(text, a, i, q);
        var c := CommentEnd(line, q);
        if c < i {
          SkipStopsInQuotes(text, a, i, c + 2);
        }
      } else if IsBlank(line[q]) && !Pair(line, q, '/', '/') {
        SkipStopsInQuotes(text, a, i, q + 1);
      }
    }
  }

  /** A comment opened before ends inside quotes. */
  lemma CommentEndsInQuotes(text: string, a: nat, i: nat, q: nat)
    requires q < i <= |text| && a <= q + 1 && EndsInQuotes(text, a, i) && Pair(text[..i], q, '/', '*')
    ensures (var c := CommentEnd(text[..i], q); c < i ==> c + 2 <= i && Quotes(text, c + 2) % 2 == 1)
  {
    var c := CommentEnd(text[..i], q);
    if c < i {
      assert q < c && c + 1 < i && Pair(text, c, '*', '/');
      assert !IsOutside(text, c);
      hide EndsInQuotes, CommentEnd;
      QuotesStep(text, c + 1);
    }
  }

  /** Every quote that closes is the last character of its line. */
  ghost predicate ClosesAtLineEnds(text: string) {
    forall k: nat :: k < |text| && text[k] == '"' && Quotes(text, k) % 2 == 1 ==> k + 1 < |text| && text[k + 1] == '\n'
  }

  lemma NoQuotesBefore(e: Entry, tail: string, k: nat)
    requires '"' !in e.name && '"' !in e.value && k <= 6 + |e.name|
    ensures |Line(e)| == |e.name| + |e.value| + 8 && Quotes(Line(e) + tail, k) == 0
  {
    var text := Line(e) + tail;
    LineShape(e, tail);
    forall j | 0 <= j < k
      ensures text[..k][j] != '"'
    {
      QuotesOfLine(e, tail, j);
    }
  }

  // ---- a name that comes back ----

  /** The first character from `i` on that is not blank. */
  function FirstNonBlank(text: string, i: nat): (a: nat)
    requires i <= |text|
    ensures i <= a <= |text| && (a < |text| ==> !IsBlank(text[a]))
    ensures forall k :: i <= k < a ==> IsBlank(text[k])
    decreases |text| - i
  {
    if i == |text| || !IsBlank(text[i]) then i else FirstNonBlank(text, i + 1)
  }

  lemma {:induction false} SkipFromNonBlank(text: string, i: nat)
    requires i <= |text|
    ensures SkipBlank(text, i) == SkipBlank(text, FirstNonBlank(text, i))
    decreases |text| - i
  {
    if i < |text| && IsBlank(text[i]) {
      assert !OpensComment(text, i);
      SkipFromNonBlank(text, i + 1);
    }
  }

  /** Before the first character of the name that is not blank nothing stops the scan but a line end. */
  lemma BlanksArePlain(e: Entry, tail: string, a: nat)
    requires a <= |e.name| && '"' !in e.name && forall k :: 0 <= k < a ==> IsBlank(e.name[k])
    requires forall k :: 0 <= k < a ==> e.name[k] !in {'\n', '\r'}
    ensures forall k: nat :: k < 5 + a ==> PlainAt(Line(e) + tail, k)
  {
    var text := Line(e) + tail;
    LineShape(e, tail);
    assert text[0] == 's' && text[1] == 'e' && text[2] == 't' && text[3] == 'a' && text[4] == ' ';
    forall k: nat | k < 5 + a
      ensures PlainAt(text, k)
    {
      if k >= 5 {
        assert text[k] == e.name[k - 5];
      }
    }
  }

  /** A line end among them ends the command within the name. */
  lemma LineEndInName(e: Entry, tail: string, p: nat)
    requires p < |e.name| && '"' !in e.name && e.name[p] in {'\n', '\r'}
    requires forall k :: 0 <= k < p ==> IsBlank(e.name[k]) && e.name[k] !in {'\n', '\r'}
    ensures FindBreak(Line(e) + tail, 0, false, NO_COMMENT).at == 5 + p
  {
    var text := Line(e) + tail;
    LineShape(e, tail);
    BlanksArePlain(e, tail, p);
    assert text[5 + p] == e.name[p];
    hide PlainAt, Line;
    ScanPlain(text, 0, 5 + p);
  }

  /** A name of blanks, followed by its value in quotes: the command ends with the line at the latest. */
  lemma BlankNameEndsWithLine(e: Entry, rest: string)
    requires '"' !in e.name && forall k :: 0 <= k < |e.value| ==> e.value[k] != '"'
    requires forall k :: 0 <= k < |e.name| ==> IsBlank(e.name[k]) && e.name[k] !in {'\n', '\r'}
    ensures FindBreak(Line(e) + ("\n" + rest), 0, false, NO_COMMENT).at <= |Line(e)|
  {
    var tail, p := "\n" + rest, FirstLineEnd(e.value);
    var text, n, v := Line(e) + tail, |e.name|, |e.value|;
    BlanksUpToQuote(e, tail);
    ValueInLine(e, tail, p);
    assert tail[0] == '\n';
    hide FirstLineEnd, Line, FindBreak, QuotedAt, PlainAt, IsBlank;
    if p < v {
      ScanToLineEnd(text, 6 + n, 7 + n + p);
    } else {
      ScanLine(text, 6 + n, 7 + n + v);
    }
  }

  lemma BlanksUpToQuote(e: Entry, tail: string)
    requires '"' !in e.name && forall k :: 0 <= k < |e.name| ==> IsBlank(e.name[k]) && e.name[k] !in {'\n', '\r'}
    ensures |Line(e)| == |e.name| + |e.value| + 8
    ensures forall k: nat :: k < 6 + |e.name| ==> PlainAt(Line(e) + tail, k)
    ensures (Line(e) + tail)[6 + |e.name|] == '"'
  {
    BlanksArePlain(e, tail, |e.name|);
    LineShape(e, tail);
    hide Line, IsBlank;
    assert PlainAt(Line(e) + tail, 5 + |e.name|);
  }

  /** The value in its line, up to a place in it. */
  lemma ValueInLine(e: Entry, tail: string, p: nat)
    requires p <= |e.value| && forall k :: 0 <= k < p ==> e.value[k] !in {'"', '\n', '\r'}
    ensures |Line(e)| == |e.name| + |e.value| + 8
    ensures (var text, at := Line(e) + tail, 7 + |e.name|;
             && (forall k: nat :: at <= k < at + p ==> QuotedAt(text, k))
             && (p < |e.value| ==> text[at + p] == e.value[p])
             && text[at + |e.value|] == '"' && (tail != "" ==> text[at + |e.value| + 1] == tail[0]))
  {
    LineShape(e, tail);
    var text, at := Line(e) + tail, 7 + |e.name|;
    hide Line, QuotedAt;
    ValueIsQuoted(e.value, text, at, p);
    assert tail != "" ==> text[at + |e.value| + 1] == text[at + |e.value| + 1..][0];
  }

  function FirstLineEnd(value: string): (p: nat)
    ensures p <= |value| && (p < |value| ==> value[p] in {'\n', '\r'})
    ensures forall k :: 0 <= k < p ==> value[k] !in {'\n', '\r'}
  {
    if value == "" || value[0] in {'\n', '\r'} then 0 else 1 + FirstLineEnd(value[1..])
  }

  /** A star comment opened first thing in the name: from there on, comments end only inside quotes. */
  lemma StarInName(e: Entry, tail: string, a: nat, i: nat)
    requires a < |e.name| && '"' !in e.name && '"' !in e.value
    requires forall k :: 0 <= k < a ==> IsBlank(e.name[k]) && e.name[k] !in {'\n', '\r'}
    requires Pair(Line(e) + tail, 5 + a, '/', '*') && i <= FindBreak(Line(e) + tail, 0, false, NO_COMMENT).at
    ensures i <= |Line(e) + tail| && EndsInQuotes(Line(e) + tail, 6 + a, i)
  {
    var text := Line(e) + tail;
    StarOpens(e, tail, a);
    hide Quotes, Line, FindBreak, IsBlank;
    forall p: nat | 6 + a <= p && p + 1 < i && Pair(text, p, '*', '/')
      ensures !IsOutside(text, p)
    {
      StarScan(text, 6 + a, p);
    }
  }

  lemma StarOpens(e: Entry, tail: string, a: nat)
    requires a < |e.name| && '"' !in e.name && '"' !in e.value
    requires forall k :: 0 <= k < a ==> IsBlank(e.name[k]) && e.name[k] !in {'\n', '\r'}
    requires Pair(Line(e) + tail, 5 + a, '/', '*')
    ensures 6 + a <= |Line(e) + tail| && Quotes(Line(e) + tail, 6 + a) == 0
    ensures FindBreak(Line(e) + tail, 0, false, NO_COMMENT) == FindBreak(Line(e) + tail, 6 + a, false, STAR)
  {
    BlanksArePlain(e, tail, a);
    NoQuotesBefore(e, tail, 6 + a);
    var text := Line(e) + tail;
    hide PlainAt, Line, Quotes, IsBlank;
    ScanPlain(text, 0, 5 + a);
    assert FindBreak(text, 5 + a, false, NO_COMMENT) == FindBreak(text, 6 + a, false, STAR);
  }

  /** What the tokenizer finds after the first word of a line that a star comment opens in: at most a quote that closes. */
  lemma AfterStar(e: Entry, tail: string, a: nat, i: nat)
    requires a < |e.name| && 6 + |e.name| <= i && '"' !in e.name && '"' !in e.value
    requires forall k :: 0 <= k < a ==> IsBlank(e.name[k]) && e.name[k] !in {'\n', '\r'}
    requires Pair(Line(e) + tail, 5 + a, '/', '*') && i <= FindBreak(Line(e) + tail, 0, false, NO_COMMENT).at
    ensures i <= |Line(e) + tail|
    ensures (var text := Line(e) + tail;
             var s := SkipBlank(text[..i], 5 + a);
             s < i && text[s] == '"' ==> Quotes(text, s) % 2 == 1)
  {
    StarInName(e, tail, a, i);
    LineShape(e, tail);
    hide FindBreak, Line, Quotes, EndsInQuotes, IsBlank, SkipBlank;
    SkipFromStar(Line(e) + tail, i, 5 + a);
  }

  lemma SkipFromStar(text: string, i: nat, q: nat)
    requires q + 1 < i <= |text| && Pair(text, q, '/', '*') && EndsInQuotes(text, q + 1, i)
    ensures (var s := SkipBlank(text[..i], q); s < i && text[s] == '"' ==> Quotes(text, s) % 2 == 1)
  {
    hide Quotes, EndsInQuotes, CommentEnd, IsBlank;
    CommentEndsInQuotes(text, q + 1, i, q);
    var c := CommentEnd(text[..i], q);
    if c < i {
      SkipStopsInQuotes(text, q + 1, i, c + 2);
    }
  }

  /** A token that starts with a quote that closes is empty or starts with a line end. */
  lemma FromClosingQuote(text: string, i: nat, s: nat)
    requires ClosesAtLineEnds(text) && s < i <= |text| && text[s] == '"' && Quotes(text, s) % 2 == 1
    ensures (var token := TokenAt(text[..i], s, false).0; token == "" || token[0] == '\n')
  {
    assert text[s + 1] == '\n';
    hide Quotes;
    if s + 1 < i {
      assert text[..i][s + 1] == '\n';
    }
  }

  lemma NotFromClosingQuote(text: string, i: nat, s: nat, name: string)
    requires ClosesAtLineEnds(text) && s < i <= |text| && text[s] == '"' && TokenAt(text[..i], s, false).0 == name
    requires name != "" && name[0] != '\n'
    ensures Quotes(text, s) % 2 == 0
  {
    hide Quotes, ClosesAtLineEnds, TokenAt;
    if Quotes(text, s) % 2 == 1 {
      FromClosingQuote(text, i, s);
    }
  }

  /** A name that comes back as the second of three tokens is a clean word, whatever follows the line. */
  lemma ReturnedNameIsClean(e: Entry, rest: string, i: nat)
    requires '"' !in e.name && '"' !in e.value && ClosesAtLineEnds(Line(e) + ("\n" + rest))
    requires 6 + |e.name| <= i <= FindBreak(Line(e) + ("\n" + rest), 0, false, NO_COMMENT).at
    requires Tokens((Line(e) + ("\n" + rest))[..i], 0, ARENA_SIZE, MAX_STRING_TOKENS, false) == ["seta", e.name, e.value]
    ensures CleanWord(e.name)
  {
    var tail := "\n" + rest;
    var text := Line(e) + tail;
    var line := text[..i];
    LineShape(e, tail);
    assert line[..5] == text[..5];
    AfterSeta(line);
    var more := Tokens(line, 5, ARENA_SIZE - 5, MAX_STRING_TOKENS - 1, false);
    assert more == ["seta", e.name, e.value][1..] == [e.name, e.value];
    hide Line, CleanWord, TokenAt, ClosesAtLineEnds;
    var s := SkipBlank(line, 5);
    SameFromStart(line, 5, ARENA_SIZE - 5, MAX_STRING_TOKENS - 1);
    assert s < i && more[0] == TokenAt(line, s, false).0 == e.name;
    NotFromQuote(e, rest, i, s);
    WordIsClean(line, s);
  }

  /** The name token of such a line does not start with a quote. */
  lemma NotFromQuote(e: Entry, rest: string, i: nat, s: nat)
    requires '"' !in e.name && '"' !in e.value && ClosesAtLineEnds(Line(e) + ("\n" + rest))
    requires 6 + |e.name| <= i <= FindBreak(Line(e) + ("\n" + rest), 0, false, NO_COMMENT).at
    requires s == SkipBlank((Line(e) + ("\n" + rest))[..i], 5) < i
    requires TokenAt((Line(e) + ("\n" + rest))[..i], s, false).0 == e.name
    requires |Tokens((Line(e) + ("\n" + rest))[..i], s, ARENA_SIZE - 5, MAX_STRING_TOKENS - 1, false)| == 2
    ensures (Line(e) + ("\n" + rest))[s] != '"'
  {
    hide *;
    var tail := "\n" + rest;
    var a, p := FirstNonBlank(e.name, 0), FirstLineEnd(e.name);
    NonBlankOfLine(e, tail, i);
    SkipFromNonBlank((Line(e) + tail)[..i], 5);
    if p < a {
      LineEndInName(e, tail, p);
    } else if a == |e.name| {
      assert forall k :: 0 <= k < |e.value| ==> e.value[k] in e.value;
      BlankNameEndsWithLine(e, rest);
      QuoteAlone(e, tail, i, s);
    } else {
      NotFromLaterQuote(e, tail, i, s, a);
    }
  }

  /** With something in the name that is not blank, the token could only start at a quote that closes. */
  lemma NotFromLaterQuote(e: Entry, tail: string, i: nat, s: nat, a: nat)
    requires '"' !in e.name && '"' !in e.value && ClosesAtLineEnds(Line(e) + tail)
    requires a < |e.name| && !IsBlank(e.name[a]) && forall k :: 0 <= k < a ==> IsBlank(e.name[k]) && e.name[k] !in {'\n', '\r'}
    requires 6 + |e.name| <= i <= FindBreak(Line(e) + tail, 0, false, NO_COMMENT).at
    requires s == SkipBlank((Line(e) + tail)[..i], 5 + a) < i
    requires TokenAt((Line(e) + tail)[..i], s, false).0 == e.name
    ensures (Line(e) + tail)[s] != '"'
  {
    var text := Line(e) + tail;
    StartsWithoutLineEnd(e.name, a);
    hide *;
    if text[s] == '"' {
      StopAtComment(e, tail, i, a);
      AfterStar(e, tail, a, i);
      NotFromClosingQuote(text, i, s, e.name);
    }
  }

  lemma StartsWithoutLineEnd(name: string, a: nat)
    requires a < |name| && !IsBlank(name[a]) && forall k :: 0 <= k < a ==> name[k] !in {'\n', '\r'}
    ensures name != "" && name[0] != '\n'
  {
    assert IsBlank('\n');
  }

  /** Where the line goes on after its first word. */
  lemma NonBlankOfLine(e: Entry, tail: string, i: nat)
    requires 6 + |e.name| < i <= |Line(e) + tail| || 6 + |e.name| == i
    ensures i <= |Line(e) + tail|
    ensures (var a := FirstNonBlank(e.name, 0);
             FirstNonBlank((Line(e) + tail)[..i], 5) == if a < |e.name| then 5 + a else 6 + |e.name|)
  {
    var n, line := |e.name|, (Line(e) + tail)[..i];
    LineShape(e, tail);
    hide Line;
    var a := FirstNonBlank(e.name, 0);
    forall k | 5 <= k < 5 + n
      ensures line[k] == e.name[k - 5]
    {
      assert line[k] == (Line(e) + tail)[5..5 + n][k - 5];
    }
    FirstNonBlankIs(line, 5, if a < n then 5 + a else 6 + n);
  }

  lemma FirstNonBlankIs(text: string, i: nat, a: nat)
    requires i <= a <= |text| && (a < |text| ==> !IsBlank(text[a])) && forall k :: i <= k < a ==> IsBlank(text[k])
    ensures FirstNonBlank(text, i) == a
  {
    hide FirstNonBlank;
  }

  /** If the tokenizer stops at a quote, the name opened with a star comment. */
  lemma StopAtComment(e: Entry, tail: string, i: nat, a: nat)
    requires a < |e.name| && !IsBlank(e.name[a]) && '"' !in e.name && 6 + |e.name| <= i <= |Line(e) + tail|
    requires (var s := SkipBlank((Line(e) + tail)[..i], 5 + a); s < i && (Line(e) + tail)[s] == '"')
    ensures Pair(Line(e) + tail, 5 + a, '/', '*')
  {
    var text := Line(e) + tail;
    LineShape(e, tail);
    assert text[5 + a] == text[5..5 + |e.name|][a] == e.name[a] && e.name[a] in e.name;
  }

  /** Starting at its value's quote and ending with it, a line has one more token at most. */
  lemma QuoteAlone(e: Entry, tail: string, i: nat, s: nat)
    requires '"' !in e.name && '"' !in e.value && 6 + |e.name| <= s < i <= |Line(e)|
    requires s == SkipBlank((Line(e) + tail)[..i], 6 + |e.name|)
    ensures |Tokens((Line(e) + tail)[..i], s, ARENA_SIZE - 5, MAX_STRING_TOKENS - 1, false)| <= 1
  {
    var close, line := 7 + |e.name| + |e.value|, (Line(e) + tail)[..i];
    LineShape(e, tail);
    assert line[6 + |e.name|] == '"';
    forall k | 0 <= k < i
      ensures line[k] == '"' <==> k == 6 + |e.name| || k == close
    {
      QuotesOfLine(e, tail, k);
    }
    assert s == 6 + |e.name|;
    hide Line, Tokens;
    QuotedIsAlone(line, s, close, ARENA_SIZE - 5, MAX_STRING_TOKENS - 1);
  }

  lemma SameFromStart(text: string, i: nat, room: nat, slots: nat)
    requires i <= |text|
    ensures SkipBlank(text, SkipBlank(text, i)) == SkipBlank(text, i)
    ensures Tokens(text, i, room, slots, false) == Tokens(text, SkipBlank(text, i), room, slots, false)
  {
  }

  /** The first semicolon of a clean word ends the command. */
  lemma SemicolonCuts(e: Entry, tail: string, p: nat)
    requires CleanWord(e.name) && p < |e.name| && e.name[p] == ';' && forall k :: 0 <= k < p ==> e.name[k] != ';'
    ensures FindBreak(Line(e) + tail, 0, false, NO_COMMENT) == Break(5 + p, NO_COMMENT)
  {
    var text := Line(e) + tail;
    LineShape(e, tail);
    CleanIsPlain(e.name);
    PlainUpToQuote(e, tail, p);
    assert text[5 + p] == text[5..5 + |e.name|][p] == ';';
    hide Line, CleanWord, PlainAt;
    ScanPlain(text, 0, 5 + p);
    assert !OpensComment(text, 5 + p);
  }

  lemma CleanIsPlain(name: string)
    requires CleanWord(name)
    ensures forall k :: 0 <= k < |name| ==> name[k] !in {'"', '\n', '\r'}
    ensures forall i: nat :: i < |name| ==> !OpensComment(name, i)
  {
    assert forall k :: 0 <= k < |name| ==> name[k] in name;
  }

  /** The first line end inside the value ends the command, quotes or not. */
  lemma LineEndCuts(e: Entry, tail: string, p: nat)
    requires GoodName(e.name) && '"' !in e.value && p < |e.value| && e.value[p] in {'\n', '\r'}
    requires forall k :: 0 <= k < p ==> e.value[k] !in {'\n', '\r'}
    ensures FindBreak(Line(e) + tail, 0, false, NO_COMMENT) == Break(7 + |e.name| + p, NO_COMMENT)
  {
    hide Line, FindBreak, PlainAt, QuotedAt;
    var text, n := Line(e) + tail, |e.name|;
    LineShape(e, tail);
    NothingStopsTheName(e.name);
    assert forall k :: 0 <= k < |e.value| ==> e.value[k] in e.value;
    PlainUpToQuote(e, tail, n);
    hide GoodName;
    ValueInLine(e, tail, p);
    ScanToLineEnd(text, 6 + n, 7 + n + p);
  }

  lemma CutLine(e: Entry, tail: string, p: nat)
    requires p <= |e.value|
    ensures (Line(e) + tail)[..7 + |e.name| + p] == "seta " + e.name + " \"" + e.value[..p]
  {
  }

  lemma ScanToLineEnd(text: string, a: nat, j: nat)
    requires a < j < |text| && text[a] == '"' && text[j] in {'\n', '\r'}
    requires forall k: nat :: k < a ==> PlainAt(text, k)
    requires forall k: nat :: a < k < j ==> QuotedAt(text, k)
    ensures FindBreak(text, 0, false, NO_COMMENT) == Break(j, NO_COMMENT)
  {
    ScanPlain(text, 0, a);
    assert FindBreak(text, a, false, NO_COMMENT) == FindBreak(text, a + 1, true, NO_COMMENT);
    ScanQuoted(text, a + 1, j);
  }

  // ---- the first entry ----

  /** How much of the text the first command takes. */
  function FirstLength(text: string): nat {
    var at := FindBreak(text, 0, false, NO_COMMENT).at;
    if at >= MAX_CMD_LINE - 1 then MAX_CMD_LINE - 1 else at
  }

  /** If the first command of a text gives the first entry's tokens, that entry is good. */
  lemma FirstIsGood(e: Entry, rest: string)
    requires e.Fits() && '"' !in e.name && '"' !in e.value && ClosesAtLineEnds(Line(e) + ("\n" + rest))
    requires (var text := Line(e) + ("\n" + rest);
              Tokens(text[..FirstLength(text)], 0, ARENA_SIZE, MAX_STRING_TOKENS, false) == ["seta", e.name, e.value])
    ensures GoodName(e.name) && GoodValue(e.value)
  {
    var tail := "\n" + rest;
    var text := Line(e) + tail;
    var i := FirstLength(text);
    hide FindBreak, Line, Tokens, CleanWord, ClosesAtLineEnds;
    if i <= 5 + |e.name| {
      CutInNameLoses(e, tail, i);
    }
    ReturnedNameIsClean(e, rest, i);
    if ';' in e.name {
      var p := FirstOf(e.name, {';'});
      SemicolonCuts(e, tail, p);
    }
    if '\n' in e.value || '\r' in e.value {
      var p := FirstOf(e.value, {'\n', '\r'});
      LineEndCuts(e, tail, p);
      CutLine(e, tail, p);
      LineTokens(Entry(e.name, e.value[..p]), text[..i], ARENA_SIZE, MAX_STRING_TOKENS);
    }
  }

  // ---- whole configs ----

  predicate QuoteFree(entries: seq<Entry>) {
    forall e :: e in entries ==> '"' !in e.name && '"' !in e.value
  }

  predicate AllFit(entries: seq<Entry>) {
    forall e :: e in entries ==> e.Fits()
  }

  lemma LineHasTwoQuotes(e: Entry)
    requires '"' !in e.name && '"' !in e.value
    ensures Quotes(Line(e) + "\n", |Line(e) + "\n"|) == 2
  {
    var line := Line(e) + "\n";
    assert line == "seta " + e.name + " \"" + e.value + "\"" + "\n";
    assert line[..|line|] == line;
    assert multiset("seta ")['"'] == 0 && multiset(" \"")['"'] == 1 && multiset("\"")['"'] == 1 && multiset("\n")['"'] == 0;
    assert multiset(e.name)['"'] == 0 && multiset(e.value)['"'] == 0;
  }

  /** In the text of a config without stray quotes every quote that closes is at a line end. */
  lemma {:induction false} ConfigClosesAtLineEnds(entries: seq<Entry>)
    requires QuoteFree(entries)
    ensures ClosesAtLineEnds(ConfigText(entries) + "\n")
  {
    if entries == [] {
      assert ConfigText(entries) + "\n" == "\n";
    } else {
      var e := entries[0];
      assert e in entries;
      ConfigClosesAtLineEnds(entries[1..]);
      LineClosesAtLineEnds(e, ConfigText(entries[1..]) + "\n");
      TextOfFirst(entries);
    }
  }

  lemma TextOfFirst(entries: seq<Entry>)
    requires entries != []
    ensures ConfigText(entries) + "\n" == Line(entries[0]) + ("\n" + (ConfigText(entries[1..]) + "\n"))
  {
    hide Line;
  }

  lemma LineClosesAtLineEnds(e: Entry, rest: string)
    requires '"' !in e.name && '"' !in e.value && ClosesAtLineEnds(rest)
    ensures ClosesAtLineEnds(Line(e) + ("\n" + rest))
  {
    var front, open := Line(e) + "\n", 6 + |e.name|;
    LineHasTwoQuotes(e);
    NoQuotesBefore(e, "\n", open);
    LineShape(e, "\n");
    assert front[|front| - 1] == '\n';
    forall k | 0 <= k < |front|
      ensures front[k] == '"' <==> k == open || k == |front| - 2
    {
      if k < |front| - 1 {
        QuotesOfLine(e, "\n", k);
      }
    }
    assert Line(e) + ("\n" + rest) == front + rest;
    hide Line, Quotes;
    FrontClosesAtLineEnds(front, rest, open);
  }

  lemma FrontClosesAtLineEnds(front: string, rest: string, open: nat)
    requires 2 <= |front| && open < |front| && front[|front| - 1] == '\n' && ClosesAtLineEnds(rest)
    requires forall k :: 0 <= k < |front| ==> (front[k] == '"' <==> k == open || k == |front| - 2)
    requires Quotes(front, open) == 0 && Quotes(front, |front|) == 2
    ensures ClosesAtLineEnds(front + rest)
  {
    var text, m := front + rest, |front|;
    assert text[..open] == front[..open];
    hide Quotes;
    forall k: nat | k < |text| && text[k] == '"' && Quotes(text, k) % 2 == 1
      ensures k + 1 < |text| && text[k + 1] == '\n'
    {
      if k >= m {
        ClosesBehind(front, rest, k - m);
      }
    }
  }

  lemma ClosesBehind(front: string, rest: string, k: nat)
    requires ClosesAtLineEnds(rest) && Quotes(front, |front|) == 2 && k < |rest| && rest[k] == '"'
    requires Quotes(front + rest, |front| + k) % 2 == 1
    ensures k + 1 < |rest| && (front + rest)[|front| + k + 1] == '\n'
  {
    assert (front + rest)[..|front| + k] == front + rest[..k] && front[..|front|] == front;
    assert Quotes(front + rest, |front| + k) == Quotes(front, |front|) + Quotes(rest, k);
    hide Quotes;
  }

  /** What comes back has no quotes. */
  lemma ReturnedIsQuoteFree(entries: seq<Entry>)
    requires Executed(ConfigText(entries) + "\n") == Triples(entries) + [[]]
    ensures QuoteFree(entries)
  {
    var lines := Commands(ConfigText(entries) + "\n", NO_COMMENT);
    hide Tokens, Commands, Arguments, Triples, ConfigText;
    ArgumentsLength(lines);
    forall k | 0 <= k < |entries|
      ensures '"' !in entries[k].name && '"' !in entries[k].value
    {
      TripleAt(entries, k);
      ArgumentsAt(lines, k);
      var e, tokens := entries[k], Arguments(lines)[k];
      assert tokens == (Triples(entries) + [[]])[k] == ["seta", e.name, e.value];
      assert e.name == tokens[1] && e.value == tokens[2];
      TokensHaveNoQuotes(lines[k], 0, ARENA_SIZE, MAX_STRING_TOKENS, e.name);
      TokensHaveNoQuotes(lines[k], 0, ARENA_SIZE, MAX_STRING_TOKENS, e.value);
    }
  }

  lemma {:induction false} TripleAt(entries: seq<Entry>, k: nat)
    requires k < |entries|
    ensures |Triples(entries)| == |entries| && Triples(entries)[k] == ["seta", entries[k].name, entries[k].value]
  {
    if k > 0 {
      TripleAt(entries[1..], k - 1);
    } else if |entries| > 1 {
      TripleAt(entries[1..], 0);
    } else {
      assert entries[1..] == [];
    }
  }

  lemma {:induction false} OnlyGoodConfigsReturn(entries: seq<Entry>)
    requires AllFit(entries) && QuoteFree(entries)
    requires Executed(ConfigText(entries) + "\n") == Triples(entries) + [[]]
    ensures AllGood(entries)
  {
    if entries != [] {
      var e, rest := entries[0], ConfigText(entries[1..]) + "\n";
      assert e in entries;
      TextOfFirst(entries);
      ConfigClosesAtLineEnds(entries);
      FirstArguments(Line(e) + ("\n" + rest));
      TriplesStep(entries);
      hide Line, Tokens, FindBreak, FirstLength, ClosesAtLineEnds, GoodName, GoodValue, Executed, ConfigText, Triples;
      FirstIsGood(e, rest);
      GoodFirstStepsOver(e, rest);
      SameBehindFirst(["seta", e.name, e.value], Executed(rest), Triples(entries[1..]) + [[]]);
      OnlyGoodConfigsReturn(entries[1..]);
    }
  }

  lemma SameBehindFirst(first: seq<string>, a: seq<seq<string>>, b: seq<seq<string>>)
    requires [first] + a == [first] + b
    ensures a == b
  {
    assert a == ([first] + a)[1..] && b == ([first] + b)[1..];
  }

  /** The first arguments a text is executed with are those of its first command. */
  lemma FirstArguments(text: string)
    requires text != ""
    ensures Executed(text) != []
    ensures FirstLength(text) <= |text|
    ensures Executed(text)[0] == Tokens(text[..FirstLength(text)], 0, ARENA_SIZE, MAX_STRING_TOKENS, false)
  {
    hide FindBreak, Tokens;
    assert Commands(text, NO_COMMENT)[0] == FirstCommand(text, NO_COMMENT).line;
  }

  lemma GoodFirstStepsOver(e: Entry, rest: string)
    requires GoodName(e.name) && GoodValue(e.value) && e.Fits()
    ensures Executed(Line(e) + ("\n" + rest)) == [["seta", e.name, e.value]] + Executed(rest)
  {
    hide Line, Tokens, FirstCommand, CleanWord, Commands, Arguments;
    assert Line(e) + ("\n" + rest) == Line(e) + "\n" + rest;
    GoodLineIsOneCommand(e, rest);
    CommandsOfLine(Line(e), rest);
    LineTokens(e, Line(e), ARENA_SIZE, MAX_STRING_TOKENS);
    ArgumentsOfFirst(Line(e), Commands(rest, NO_COMMENT));
  }

  lemma ArgumentsOfFirst(line: string, more: seq<string>)
    ensures Arguments([line] + more) == [Tokens(line, 0, ARENA_SIZE, MAX_STRING_TOKENS, false)] + Arguments(more)
  {
    hide Tokens;
    assert ([line] + more)[1..] == more;
  }

  /**
   * A config of entries that the writer does not skip comes back, in order and followed by an empty
   * command, exactly when every entry is good: its name is a clean word without a semicolon, and its
   * value has no quote or line end.
   */
  lemma ConfigRoundTripsIff(entries: seq<Entry>)
    requires AllFit(entries)
    ensures Executed(ConfigText(entries) + "\n") == Triples(entries) + [[]] <==> AllGood(entries)
  {
    hide Executed, ConfigText, Triples, GoodName, GoodValue;
    if Executed(ConfigText(entries) + "\n") == Triples(entries) + [[]] {
      ReturnedIsQuoteFree(entries);
      OnlyGoodConfigsReturn(entries);
    }
    if AllGood(entries) {
      GoodConfigRoundTrips(entries);
    }
  }

  // ---- names that variables can have ----

  /** A value that survives, and of a name that can be registered what it takes to survive. */
  predicate Survives(e: Entry) {
    && e.name != "" && (forall c :: c in e.name ==> !IsBlank(c))
    && (forall i: nat :: i < |e.name| ==> !OpensComment(e.name, i))
    && forall c :: c in e.value ==> c != '"' && c != '\n' && c != '\r'
  }

  /**
   * For variables that can be registered, whose names have no quote and no semicolon anyway: a config
   * comes back exactly when every name is non-empty, has no blank and opens no comment, and every value
   * has no quote and no line end.
   */
  lemma RegisteredRoundTripIff(entries: seq<Entry>)
    requires AllFit(entries) && forall e :: e in entries ==> CvarIndex.ValidName(e.name)
    ensures Executed(ConfigText(entries) + "\n") == Triples(entries) + [[]] <==> forall e :: e in entries ==> Survives(e)
  {
    ConfigRoundTripsIff(entries);
    hide Executed, ConfigText, Triples;
    forall e | e in entries
      ensures GoodName(e.name) && GoodValue(e.value) <==> Survives(e)
    {
      assert CvarIndex.ValidName(e.name);
    }
  }

  lemma ExampleIsBad(name: string, value: string)
    requires name == "a//b" && value == "1"
    ensures (var e := Entry(name, value); CvarIndex.ValidName(name) && e.Fits() && !Survives(e))
  {
    assert |name| == 4 && |value| == 1;
    assert name[1] == '/' && name[2] == '/';
    assert OpensComment(name, 1);
  }

  lemma TriplesOfOne(e: Entry)
    ensures Triples([e]) + [[]] == [["seta", e.name, e.value], []]
  {
    assert [e][1..] == [];
    assert Triples([]) == [];
  }

  /** A name that can be registered and is lost. */
  lemma CommentInNameIsLost()
    ensures (var e := Entry("a//b", "1");
             CvarIndex.ValidName(e.name) && e.Fits() && Executed(ConfigText([e]) + "\n") != [["seta", "a//b", "1"], []])
  {
    var e := Entry("a//b", "1");
    TriplesOfOne(e);
    hide Executed, ConfigText, Triples, Survives, Entry.Fits, CvarIndex.ValidName;
    ExampleIsBad("a//b", "1");
    RegisteredRoundTripIff([e]);
    assert e in [e];
  }
}
