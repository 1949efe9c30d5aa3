/**
 * The command tokenizer (cmd.c). Nested calls share one character arena and one list of token
 * pointers; each call takes the free end and the matching end call gives it back.
 */
module Tokenizer {
  import opened Ascii
  import opened CommandText

  const MAX_STRING_TOKENS := 1024
  const MAX_TOKENIZE_STRINGS := 32
  const ARENA_SIZE := 8192 + MAX_STRING_TOKENS

  // ---- what the tokens of a text are ----

  /** Characters up to the space separate tokens. */
  predicate IsBlank(c: char) {
    c <= ' '
  }

  predicate OpensComment(text: string, i: nat) {
    Pair(text, i, '/', '/') || Pair(text, i, '/', '*')
  }

  /** The first place from `i` on where a star comment closes. */
  function CommentEnd(text: string, i: nat): (e: nat)
    requires i <= |text|
    ensures i <= e <= |text|
    ensures e < |text| ==> Pair(text, e, '*', '/')
    decreases |text| - i
  {
    if i == |text| || Pair(text, i, '*', '/') then i else CommentEnd(text, i + 1)
  }

  /** The start of the next token; the end of the text if there is none. */
  function SkipBlank(text: string, i: nat): (s: nat)
    requires i <= |text|
    ensures i <= s <= |text|
    ensures s < |text| ==> !IsBlank(text[s]) && !OpensComment(text, s)
    decreases |text| - i
  {
    if i == |text| || Pair(text, i, '/', '/') then |text|
    else if Pair(text, i, '/', '*') then
      var e := CommentEnd(text, i);
      if e == |text| then |text| else SkipBlank(text, e + 2)
    else if IsBlank(text[i]) then SkipBlank(text, i + 1)
    else i
  }

  function QuoteEnd(text: string, i: nat): (e: nat)
    requires i <= |text|
    ensures i <= e <= |text|
    ensures '"' !in text[i..e]
    ensures e < |text| ==> text[e] == '"'
    decreases |text| - i
  {
    if i == |text| || text[i] == '"' then i else QuoteEnd(text, i + 1)
  }

  predicate EndsWord(text: string, i: nat, ignoreQuotes: bool)
    requires i < |text|
  {
    IsBlank(text[i]) || (!ignoreQuotes && text[i] == '"') || OpensComment(text, i)
  }

  function WordEnd(text: string, i: nat, ignoreQuotes: bool): (e: nat)
    requires i <= |text|
    ensures i <= e <= |text|
    ensures forall k :: i <= k < e ==> !EndsWord(text, k, ignoreQuotes)
    ensures e < |text| ==> EndsWord(text, e, ignoreQuotes)
    decreases |text| - i
  {
    if i == |text| || EndsWord(text, i, ignoreQuotes) then i else WordEnd(text, i + 1, ignoreQuotes)
  }

  predicate IsQuoted(text: string, s: nat, ignoreQuotes: bool) {
    s < |text| && !ignoreQuotes && text[s] == '"'
  }

  /** The token that starts at `s`, and where the text goes on after it. */
  function TokenAt(text: string, s: nat, ignoreQuotes: bool): (r: (string, nat))
    requires s < |text| && !IsBlank(text[s]) && !OpensComment(text, s)
    ensures s < r.1 <= |text|
  {
    if IsQuoted(text, s, ignoreQuotes) then
      var e := QuoteEnd(text, s + 1);
      (text[s + 1..e], if e == |text| then e else e + 1)
    else
      var e := WordEnd(text, s, ignoreQuotes);
      (text[s..e], e)
  }

  /**
   * The tokens of the text from `i` on, as far as there are slots and room for them. A token takes
   * its characters and a NUL, and must leave two characters of room.
   */
  function Tokens(text: string, i: nat, room: nat, slots: nat, ignoreQuotes: bool): seq<string>
    requires i <= |text|
    decreases |text| - i
  {
    var s := SkipBlank(text, i);
    if slots == 0 || s == |text| then []
    else
      var (token, next) := TokenAt(text, s, ignoreQuotes);
      if |token| + 3 > room then []
      else [token] + Tokens(text, next, room - |token| - 1, slots - 1, ignoreQuotes)
  }

  // ---- the layout of the arena ----

  /** Where the token after `tokens` starts. */
  function Offset(tokens: seq<string>): nat {
    if tokens == [] then 0 else Offset(tokens[..|tokens| - 1]) + |tokens[|tokens| - 1]| + 1
  }

  function Flatten(frames: seq<seq<string>>): seq<string> {
    if frames == [] then [] else Flatten(frames[..|frames| - 1]) + frames[|frames| - 1]
  }

  lemma {:induction false} OffsetMonotone(tokens: seq<string>, k: nat)
    requires k <= |tokens|
    ensures Offset(tokens[..k]) <= Offset(tokens)
    ensures k < |tokens| ==> Offset(tokens[..k]) + |tokens[k]| + 1 <= Offset(tokens)
  {
    if k == |tokens| {
      assert tokens[..k] == tokens;
    } else {
      var init := tokens[..|tokens| - 1];
      assert init[..k] == tokens[..k];
      OffsetMonotone(init, k);
    }
  }

  /** Token `k` lies at its pointer and is closed by a NUL. */
  ghost predicate TokenInArena(arena: string, argv: seq<int>, tokens: seq<string>, k: nat)
    requires k < |tokens| && |tokens| < |argv|
  {
    var at := Offset(tokens[..k]);
    && argv[k] == at
    && at + |tokens[k]| < |arena|
    && arena[at..at + |tokens[k]|] == tokens[k]
    && arena[at + |tokens[k]|] == '\0'
    && IsCString(tokens[k])
  }

  /** The live tokens lie one after the other from the start of the arena, and the next pointer is the free end. */
  ghost predicate Layout(arena: string, argv: seq<int>, tokens: seq<string>) {
    && |arena| == ARENA_SIZE && |argv| == MAX_STRING_TOKENS && |tokens| < MAX_STRING_TOKENS
    && (forall k: nat :: k < |tokens| ==> TokenInArena(arena, argv, tokens, k))
    && (argv[|tokens|] == Offset(tokens) || (tokens == [] && argv[0] == -1))
    && Offset(tokens) + 2 <= ARENA_SIZE
  }

  lemma TokenKept(arena: string, arena': string, argv: seq<int>, argv': seq<int>, tokens: seq<string>, more: seq<string>, k: nat)
    requires k < |tokens| && TokenInArenaSafe(arena, argv, tokens, k)
    requires |arena'| == |arena| && Offset(tokens) <= |arena|
    requires forall j :: 0 <= j < Offset(tokens) ==> arena'[j] == arena[j]
    requires tokens <= more && |tokens| <= |more| < |argv'| && argv'[k] == argv[k]
    ensures TokenInArena(arena', argv', more, k)
  {
    OffsetMonotone(tokens, k);
    hide Offset, IsCString;
    assert more[..k] == tokens[..k] && more[k] == tokens[k];
    var at := Offset(tokens[..k]);
    SameSlice(arena, arena', at, at + |tokens[k]|);
  }

  lemma SameSlice(arena: string, arena': string, at: nat, end: nat)
    requires at <= end <= |arena| == |arena'| && forall j :: at <= j < end ==> arena'[j] == arena[j]
    ensures arena'[at..end] == arena[at..end]
  {
  }

  ghost predicate TokenInArenaSafe(arena: string, argv: seq<int>, tokens: seq<string>, k: nat) {
    k < |tokens| && |tokens| < |argv| && TokenInArena(arena, argv, tokens, k)
  }

  /** Writing beyond the free end disturbs no token. */
  lemma LayoutKept(arena: string, arena': string, argv: seq<int>, tokens: seq<string>)
    requires Layout(arena, argv, tokens) && |arena'| == |arena|
    requires forall j :: 0 <= j < Offset(tokens) ==> arena'[j] == arena[j]
    ensures Layout(arena', argv, tokens)
  {
    hide TokenInArena, Offset;
    forall k: nat | k < |tokens|
      ensures TokenInArena(arena', argv, tokens, k)
    {
      TokenKept(arena, arena', argv, argv, tokens, tokens, k);
    }
  }

  lemma OffsetAppend(tokens: seq<string>, token: string)
    ensures Offset(tokens + [token]) == Offset(tokens) + |token| + 1
  {
    assert (tokens + [token])[..|tokens|] == tokens;
  }

  lemma NewToken(arena: string, argv: seq<int>, tokens: seq<string>, token: string)
    requires |tokens| + 1 < |argv| && IsCString(token) && argv[|tokens|] == Offset(tokens)
    requires Offset(tokens) + |token| < |arena|
    requires arena[Offset(tokens)..Offset(tokens) + |token|] == token && arena[Offset(tokens) + |token|] == '\0'
    ensures TokenInArena(arena, argv, tokens + [token], |tokens|)
  {
    hide Offset, IsCString;
    assert (tokens + [token])[..|tokens|] == tokens && (tokens + [token])[|tokens|] == token;
  }

  /** A token written at the free end and closed by a NUL becomes the last token. */
  lemma LayoutExtended(arena: string, argv: seq<int>, argv': seq<int>, tokens: seq<string>, token: string)
    requires Layout(arena, argv, tokens) && IsCString(token)
    requires |tokens| + 1 < MAX_STRING_TOKENS && Offset(tokens) + |token| + 3 <= ARENA_SIZE
    requires arena[Offset(tokens)..Offset(tokens) + |token|] == token && arena[Offset(tokens) + |token|] == '\0'
    requires argv' == argv[|tokens| := Offset(tokens)][|tokens| + 1 := Offset(tokens) + |token| + 1]
    ensures Layout(arena, argv', tokens + [token])
  {
    hide TokenInArena, Offset;
    OffsetAppend(tokens, token);
    var more := tokens + [token];
    NewToken(arena, argv', tokens, token);
    forall k: nat | k < |tokens|
      ensures TokenInArena(arena, argv', more, k)
    {
      TokenKept(arena, arena, argv, argv', tokens, more, k);
    }
  }

  /** Blanks and comments only. */
  predicate HasNoToken(text: string) {
    SkipBlank(text, 0) == |text|
  }

  // ---- the tokenizer ----

  datatype Outcome = Done | TooManyStrings | FatalNullFree

  class CommandTokenizer {
    const arena: array<char>
    const argv: array<int>
    const argcList: array<nat>
    var currentString: nat
    var argc: nat
    /** The tokens of every live string, outermost first. */
    ghost var frames: seq<seq<string>>

    ghost predicate Valid()
      reads this, arena, argv, argcList
    {
      && argcList.Length == MAX_TOKENIZE_STRINGS
      && |frames| == currentString <= MAX_TOKENIZE_STRINGS
      && argc == |Flatten(frames)|
      && (forall i :: 0 <= i < |frames| ==> argcList[i] == |frames[i]|)
      && Layout(arena[..], argv[..], Flatten(frames))
    }

    /** The static storage of the C file: all pointers are null. */
    constructor ()
      ensures Valid() && frames == [] && fresh(arena) && fresh(argv) && fresh(argcList)
    {
      arena := new char[ARENA_SIZE](_ => '\0');
      argv := new int[MAX_STRING_TOKENS](_ => -1);
      argcList := new nat[MAX_TOKENIZE_STRINGS](_ => 0);
      currentString, argc, frames := 0, 0, [];
    }

    /** Skip blanks and comments. */
    static method FindToken(text: string, i: nat) returns (s: nat)
      requires i <= |text|
      ensures s == SkipBlank(text, i)
    {
      s := i;
      while true
        invariant s <= |text| && SkipBlank(text, s) == SkipBlank(text, i)
        decreases |text| - s
      {
        while s < |text| && IsBlank(text[s])
          invariant s <= |text| && SkipBlank(text, s) == SkipBlank(text, i)
        {
          assert !OpensComment(text, s);
          s := s + 1;
        }
        if s == |text| {
          return;
        }
        if Pair(text, s, '/', '/') {
          return |text|;
        }
        if Pair(text, s, '/', '*') {
          ghost var open := s;
          while s < |text| && !Pair(text, s, '*', '/')
            invariant open <= s <= |text| && CommentEnd(text, s) == CommentEnd(text, open)
          {
            s := s + 1;
          }
          if s == |text| {
            return;
          }
          s := s + 2;
        } else {
          return;
        }
      }
    }

    /** Copy the characters of a token as long as there is room for one and a NUL. */
    method CopyToken(text: string, from: nat, out: nat, room: nat, quoted: bool, ignoreQuotes: bool)
      returns (pos: nat, left: nat)
      requires from <= |text| && 1 <= room && out + room == arena.Length
      modifies arena
      ensures var e := if quoted then QuoteEnd(text, from) else WordEnd(text, from, ignoreQuotes);
              var n := if e - from <= room - 1 then e - from else room - 1;
              pos == from + n && left == room - n
      ensures forall j :: out <= j < out + (pos - from) ==> arena[j] == text[from + (j - out)]
      ensures forall j :: 0 <= j < out || out + (pos - from) <= j < arena.Length ==> arena[j] == old(arena[j])
    {
      hide WordEnd, EndsWord;
      pos, left := from, room;
      ghost var e := if quoted then QuoteEnd(text, from) else WordEnd(text, from, ignoreQuotes);
      while pos < |text| && left > 1 && (if quoted then text[pos] != '"' else !EndsWord(text, pos, ignoreQuotes))
        invariant from <= pos <= e && left == room - (pos - from) && left >= 1
        invariant forall j :: out <= j < out + (pos - from) ==> arena[j] == text[from + (j - out)]
        invariant forall j :: 0 <= j < out || out + (pos - from) <= j < arena.Length ==> arena[j] == old(arena[j])
      {
        arena[out + (pos - from)] := text[pos];
        pos, left := pos + 1, left - 1;
      }
    }

    /**
     * Put one token at the free end. Returns false when the token would leave less than two
     * characters of room; the arena then still holds the tokens it held.
     */
    method StoreToken(text: string, s: nat, ignoreQuotes: bool, tokens0: nat, out: nat, room: nat,
                      ghost tokens: seq<string>)
      returns (ok: bool, next: nat)
      requires IsCString(text) && s < |text| && !IsBlank(text[s]) && !OpensComment(text, s)
      requires Layout(arena[..], argv[..], tokens) && |tokens| == tokens0
      requires out == Offset(tokens) && out + room == ARENA_SIZE
      requires tokens0 + 1 < MAX_STRING_TOKENS || |TokenAt(text, s, ignoreQuotes).0| + 3 > room
      modifies arena, argv
      ensures ok <==> |TokenAt(text, s, ignoreQuotes).0| + 3 <= room
      ensures Layout(arena[..], argv[..], if ok then tokens + [TokenAt(text, s, ignoreQuotes).0] else tokens)
      ensures ok ==> next == TokenAt(text, s, ignoreQuotes).1
      ensures argv.Length > 0 && argv[0] == if tokens0 == 0 then out else old(argv[0])
    {
      hide TokenInArena, Offset, Layout, QuoteEnd, WordEnd, IsBlank, OpensComment;
      ghost var token := TokenAt(text, s, ignoreQuotes).0;
      ghost var arena0, argv0 := arena[..], argv[..];
      LayoutSizes(arena0, argv0, tokens);
      argv[tokens0] := out;
      var quoted := !ignoreQuotes && text[s] == '"';
      var from := if quoted then s + 1 else s;
      ghost var e := if quoted then QuoteEnd(text, from) else WordEnd(text, from, ignoreQuotes);
      assert TokenAt(text, s, ignoreQuotes) == (text[from..e], if quoted && e < |text| then e + 1 else e);
      hide TokenAt;
      var pos, left := CopyToken(text, from, out, room, quoted, ignoreQuotes);
      arena[out + (pos - from)] := '\0';
      left := left - 1;
      if left < 2 {
        FreeEndOnly(arena0, arena[..], argv0, argv[..], tokens);
        return false, pos;
      }
      assert pos == e;
      CopiedSlice(arena[..], out, text, from, e);
      argv[tokens0 + 1] := out + (pos - from) + 1;
      LayoutKept(arena0, arena[..], argv0, tokens);
      LayoutExtended(arena[..], argv0, argv[..], tokens, token);
      return true, if quoted && pos < |text| then pos + 1 else pos;
    }

    lemma CopiedSlice(arena: string, out: nat, text: string, from: nat, e: nat)
      requires from <= e <= |text| && out + (e - from) <= |arena|
      requires forall j :: out <= j < out + (e - from) ==> arena[j] == text[from + (j - out)]
      ensures arena[out..out + (e - from)] == text[from..e]
    {
    }

    lemma LayoutSizes(arena: string, argv: seq<int>, tokens: seq<string>)
      requires Layout(arena, argv, tokens)
      ensures |arena| == ARENA_SIZE && |argv| == MAX_STRING_TOKENS > |tokens| && Offset(tokens) + 2 <= ARENA_SIZE
    {
    }

    /** The first pointer is null only while no token is laid out. */
    lemma NullIsAtStart(arena: string, argv: seq<int>, tokens: seq<string>)
      requires Layout(arena, argv, tokens)
      ensures argv[0] == -1 <==> argv[|tokens|] == -1
      ensures argv[0] == -1 ==> tokens == []
    {
      assert tokens != [] ==> TokenInArena(arena, argv, tokens, 0) && tokens[..0] == [];
    }

    lemma FreeEndOnly(arena: string, arena': string, argv: seq<int>, argv': seq<int>, tokens: seq<string>)
      requires Layout(arena, argv, tokens) && |arena'| == |arena|
      requires forall j :: 0 <= j < Offset(tokens) ==> arena'[j] == arena[j]
      requires argv' == argv[|tokens| := Offset(tokens)]
      ensures Layout(arena', argv', tokens)
    {
      hide TokenInArena, Offset;
      forall k: nat | k < |tokens|
        ensures TokenInArena(arena', argv', tokens, k)
      {
        TokenKept(arena, arena', argv, argv', tokens, tokens, k);
      }
    }

    /** Cmd_TokenizeStringInternal: append the tokens of a text to those already laid out. */
    method TokenizeInternal(text: string, ignoreQuotes: bool, argc0: nat, at: nat, ghost tokens0: seq<string>)
      returns (count: nat)
      requires IsCString(text) && Layout(arena[..], argv[..], tokens0)
      requires argc0 == |tokens0| && at == Offset(tokens0) && argv.Length > 0
      requires argc0 + |Tokens(text, 0, ARENA_SIZE - at, MAX_STRING_TOKENS - argc0, ignoreQuotes)| < MAX_STRING_TOKENS
      modifies arena, argv
      ensures var more := Tokens(text, 0, ARENA_SIZE - at, MAX_STRING_TOKENS - argc0, ignoreQuotes);
              Layout(arena[..], argv[..], tokens0 + more) && count == argc0 + |more|
      ensures argv.Length > 0 && (argv[0] == -1 <==> old(argv[0] == -1) && HasNoToken(text))
    {
      hide TokenInArena, Offset, Layout, Tokens, TokenAt, SkipBlank, IsCString;
      LayoutSizes(arena[..], argv[..], tokens0);
      ghost var all := Tokens(text, 0, ARENA_SIZE - at, MAX_STRING_TOKENS - argc0, ignoreQuotes);
      ghost var tokens := tokens0;
      var i: nat, out: nat, room: nat := 0, at, ARENA_SIZE - at;
      count := argc0;
      while true
        invariant i <= |text| && out + room == ARENA_SIZE && count == |tokens| && out == Offset(tokens)
        invariant count < MAX_STRING_TOKENS && Layout(arena[..], argv[..], tokens)
        invariant tokens0 + all == tokens + Tokens(text, i, room, MAX_STRING_TOKENS - count, ignoreQuotes)
        invariant if i == 0 && argv[0] == old(argv[0]) then true else argv[0] != -1 && !HasNoToken(text)
        decreases |text| - i
      {
        var s := FindToken(text, i);
        TokensStep(text, i, room, MAX_STRING_TOKENS - count, ignoreQuotes);
        if s == |text| {
          break;
        }
        ghost var token := TokenAt(text, s, ignoreQuotes).0;
        NullIsAtStart(arena[..], argv[..], tokens);
        var ok, next := StoreToken(text, s, ignoreQuotes, count, out, room, tokens);
        if !ok {
          break;
        }
        OffsetAppend(tokens, token);
        Regroup(tokens, token, Tokens(text, next, room - |token| - 1, MAX_STRING_TOKENS - count - 1, ignoreQuotes));
        tokens := tokens + [token];
        LayoutSizes(arena[..], argv[..], tokens);
        FreePointer(arena[..], argv[..], tokens);
        count := count + 1;
        i, out, room := next, argv[count], ARENA_SIZE - argv[count];
      }
      assert tokens == tokens0 + all;
    }

    lemma Regroup(tokens: seq<string>, token: string, rest: seq<string>)
      ensures tokens + ([token] + rest) == tokens + [token] + rest
    {
    }

    lemma TokensStep(text: string, i: nat, room: nat, slots: nat, ignoreQuotes: bool)
      requires i <= |text| && slots > 0
      ensures var s := SkipBlank(text, i);
              && s <= |text|
              && (s == |text| ==> Tokens(text, i, room, slots, ignoreQuotes) == [])
              && (s < |text| ==>
                    && !IsBlank(text[s]) && !OpensComment(text, s)
                    && var (token, next) := TokenAt(text, s, ignoreQuotes);
                       && i <= s < next <= |text|
                       && Tokens(text, i, room, slots, ignoreQuotes)
                       == if |token| + 3 > room then []
                          else [token] + Tokens(text, next, room - |token| - 1, slots - 1, ignoreQuotes))
    {
    }

    lemma FreePointer(arena: string, argv: seq<int>, tokens: seq<string>)
      requires Layout(arena, argv, tokens)
      ensures argv[|tokens|] == Offset(tokens) || (tokens == [] && argv[0] == -1)
      ensures tokens != [] || argv[|tokens|] != -1 ==> argv[|tokens|] == Offset(tokens) >= 0
      ensures tokens == [] ==> Offset(tokens) == 0
    {
    }

    /** What a new call would add to the given live strings. */
    static function NewFrame(frames: seq<seq<string>>, text: string, ignoreQuotes: bool): seq<string>
      requires Offset(Flatten(frames)) <= ARENA_SIZE && |Flatten(frames)| <= MAX_STRING_TOKENS
    {
      var tokens := Flatten(frames);
      Tokens(text, 0, ARENA_SIZE - Offset(tokens), MAX_STRING_TOKENS - |tokens|, ignoreQuotes)
    }

    /** The first free pointer is null. */
    ghost predicate FreeIsNull()
      requires Valid()
      reads this, arena, argv, argcList
    {
      argv[argc] == -1
    }

    /** No text with a token has ever been tokenized. */
    ghost predicate Untouched()
      requires Valid()
      reads this, arena, argv, argcList
    {
      argv[0] == -1
    }

    /**
     * Cmd_TokenizeString2. The live tokens must stay below MAX_STRING_TOKENS: on reaching it the
     * routine stores a free pointer one past the pointer list.
     */
    method TokenizeString(text: string, ignoreQuotes: bool) returns (outcome: Outcome)
      requires Valid() && IsCString(text)
      requires Offset(Flatten(frames)) <= ARENA_SIZE
      requires |Flatten(frames)| + |NewFrame(frames, text, ignoreQuotes)| < MAX_STRING_TOKENS
      modifies this, arena, argv, argcList
      ensures Valid()
      ensures outcome == TooManyStrings <==> old(currentString) == MAX_TOKENIZE_STRINGS
      ensures outcome == FatalNullFree <==>
                0 < old(currentString) < MAX_TOKENIZE_STRINGS && old(FreeIsNull())
      ensures frames == if outcome == Done then old(frames) + [NewFrame(old(frames), text, ignoreQuotes)] else old(frames)
      ensures old(FreeIsNull()) <==> old(Untouched())
      ensures Untouched() <==> old(Untouched()) && (outcome == Done ==> HasNoToken(text))
    {
      hide TokenInArena, Offset, Layout, Tokens, IsCString;
      ghost var tokens := Flatten(frames);
      LayoutSizes(arena[..], argv[..], tokens);
      FreePointer(arena[..], argv[..], tokens);
      NullIsAtStart(arena[..], argv[..], tokens);
      if currentString < MAX_TOKENIZE_STRINGS {
        var at := 0;
        if currentString > 0 {
          if argv[argc] == -1 {
            return FatalNullFree;
          }
          at := argv[argc];
        }
        assert at == Offset(tokens);
        PushFrame(text, ignoreQuotes, at);
        outcome := Done;
      } else {
        outcome := TooManyStrings;
      }
    }

    /** The successful part: lay out the new tokens at the free end and count them as one more string. */
    method PushFrame(text: string, ignoreQuotes: bool, at: nat)
      requires Valid() && IsCString(text) && currentString < MAX_TOKENIZE_STRINGS
      requires at == Offset(Flatten(frames)) <= ARENA_SIZE
      requires |Flatten(frames)| + |NewFrame(frames, text, ignoreQuotes)| < MAX_STRING_TOKENS
      modifies this, arena, argv, argcList
      ensures Valid() && frames == old(frames) + [NewFrame(old(frames), text, ignoreQuotes)]
      ensures Untouched() <==> old(Untouched()) && HasNoToken(text)
    {
      hide TokenInArena, Offset, Layout, Tokens, IsCString;
      ghost var frame := NewFrame(frames, text, ignoreQuotes);
      FlattenAppend(frames, frame);
      hide Flatten;
      LayoutSizes(arena[..], argv[..], Flatten(frames));
      var count := TokenizeInternal(text, ignoreQuotes, argc, at, Flatten(frames));
      argcList[currentString] := count - argc;
      argc := count;
      currentString := currentString + 1;
      frames := frames + [frame];
    }

    lemma FlattenAppend(frames: seq<seq<string>>, frame: seq<string>)
      ensures Flatten(frames + [frame]) == Flatten(frames) + frame
    {
      assert (frames + [frame])[..|frames|] == frames;
    }

    /** Cmd_EndTokenizedString; returns false where the routine raises a fatal error. */
    method EndTokenizedString() returns (ok: bool)
      requires Valid()
      modifies this`currentString, this`argc, this`frames
      ensures Valid()
      ensures ok <==> old(frames) != []
      ensures frames == if ok then old(frames)[..|old(frames)| - 1] else old(frames)
      ensures Untouched() <==> old(Untouched())
    {
      if currentString <= 0 {
        return false;
      }
      LayoutPrefix(arena[..], argv[..], Flatten(frames[..|frames| - 1]), frames[|frames| - 1]);
      hide Layout;
      currentString := currentString - 1;
      if currentString < MAX_TOKENIZE_STRINGS {
        argc := argc - argcList[currentString];
      }
      frames := frames[..|frames| - 1];
      ok := true;
    }

    /** Dropping the last tokens leaves the first of them as the free end. */
    lemma LayoutPrefix(arena: string, argv: seq<int>, kept: seq<string>, dropped: seq<string>)
      requires Layout(arena, argv, kept + dropped)
      ensures Layout(arena, argv, kept)
    {
      var tokens := kept + dropped;
      hide Offset;
      assert tokens[..|kept|] == kept;
      OffsetMonotone(tokens, |kept|);
      if dropped == [] {
        assert tokens == kept;
      } else {
        assert TokenInArena(arena, argv, tokens, |kept|);
      }
      forall k: nat | k < |kept|
        ensures TokenInArena(arena, argv, kept, k)
      {
        assert TokenInArena(arena, argv, tokens, k);
        assert tokens[..k] == kept[..k];
      }
    }

    /** Cmd_Argc: the tokens of the innermost live string. */
    method Argc() returns (n: nat)
      requires Valid()
      ensures n == if frames == [] then 0 else |frames[|frames| - 1]|
    {
      if currentString == 0 {
        return 0;
      }
      n := argcList[currentString - 1];
    }

    /** Cmd_Argv: a token of the innermost live string, read out of the arena up to its NUL. */
    method Argv(arg: nat) returns (token: string)
      requires Valid()
      ensures token == if frames != [] && arg < |frames[|frames| - 1]| then frames[|frames| - 1][arg] else ""
    {
      token := "";
      var cmdArgc := Argc();
      if cmdArgc <= arg {
        return;
      }
      var final := argc - cmdArgc + arg;
      ghost var tokens := Flatten(frames);
      assert tokens[final] == frames[|frames| - 1][arg];
      assert TokenInArena(arena[..], argv[..], tokens, final);
      hide Flatten, Offset, Layout;
      var at := argv[final];
      ghost var want := tokens[final];
      assert arena[at + |want|] == '\0';
      assert forall j :: 0 <= j < |want| ==> arena[at + j] == want[j] by {
        assert forall j :: 0 <= j < |want| ==> arena[..][at..at + |want|][j] == want[j];
      }
      var i := at;
      while arena[i] != '\0'
        invariant at <= i <= at + |want| && token == want[..i - at]
        decreases at + |want| - i
      {
        token := token + [arena[i]];
        i := i + 1;
      }
      assert want[..|want|] == want;
    }

    // ---- nested use ----

    /** The strings are C strings, the nesting is not too deep, and there are free token slots throughout. */
    ghost predicate Fits(frames: seq<seq<string>>, run: Run)
      decreases run
    {
      match run
      case Nothing => true
      case Call(text, ignoreQuotes, inner, rest) =>
        && IsCString(text) && |frames| < MAX_TOKENIZE_STRINGS
        && Offset(Flatten(frames)) <= ARENA_SIZE
        && |Flatten(frames)| <= MAX_STRING_TOKENS
        && |Flatten(frames)| + |NewFrame(frames, text, ignoreQuotes)| < MAX_STRING_TOKENS
        && Fits(frames + [NewFrame(frames, text, ignoreQuotes)], inner)
        && Fits(frames, rest)
    }

    lemma UntouchedMeans()
      requires Valid()
      ensures currentString == |frames| && (FreeIsNull() <==> Untouched()) && (argc > 0 ==> !Untouched())
    {
      NullIsAtStart(arena[..], argv[..], Flatten(frames));
    }

    /**
     * Any balanced run of tokenize and end calls leaves every string that was live before it exactly
     * as it was, so the outer argument count and arguments read the same. `ok` is false exactly if some
     * call was nested before any text with a token had ever been tokenized, which is a fatal error.
     */
    method Perform(run: Run) returns (ok: bool)
      requires Valid() && Fits(frames, run)
      modifies this, arena, argv, argcList
      ensures Valid()
      ensures ok ==> frames == old(frames)
      ensures ok <==> !(old(Untouched()) && Raises(Calls(run, |old(frames)|)))
      ensures ok ==> (Untouched() <==> old(Untouched()) && AllBlank(Calls(run, |old(frames)|)))
      ensures old(argc) > 0 ==> ok
      decreases run
    {
      hide *;
      UntouchedMeans();
      CallsOf(run, |frames|);
      match run
      case Nothing => ok := true;
      case Call(text, ignoreQuotes, inner, rest) =>
        ghost var outer := frames;
        FitsCall(frames, run);
        ghost var frame := NewFrame(frames, text, ignoreQuotes);
        var outcome := TokenizeString(text, ignoreQuotes);
        if outcome != Done {
          return false;
        }
        ok := Perform(inner);
        if !ok {
          return;
        }
        LastDropped(outer, frame);
        ok := EndTokenizedString();
        assert ok && frames == outer;
        ok := Perform(rest);
    }

    lemma LastDropped(outer: seq<seq<string>>, frame: seq<string>)
      ensures (outer + [frame])[..|outer + [frame]| - 1] == outer && |outer + [frame]| == |outer| + 1
    {
    }

    lemma FitsCall(frames: seq<seq<string>>, run: Run)
      requires Fits(frames, run) && run.Call?
      ensures IsCString(run.text) && |frames| < MAX_TOKENIZE_STRINGS
      ensures Offset(Flatten(frames)) <= ARENA_SIZE && |Flatten(frames)| <= MAX_STRING_TOKENS
      ensures (var frame := NewFrame(frames, run.text, run.ignoreQuotes);
               && |Flatten(frames)| + |frame| < MAX_STRING_TOKENS
               && Fits(frames + [frame], run.inner) && Fits(frames, run.rest))
    {
    }
  }

  /** A tokenize call, with the number of strings that are live when it is made. */
  datatype Made = Made(live: nat, text: string)

  /** The calls of a run in the order in which they are made. */
  function Calls(run: Run, live: nat): seq<Made>
    decreases run
  {
    match run
    case Nothing => []
    case Call(text, _, inner, rest) => [Made(live, text)] + (Calls(inner, live + 1) + Calls(rest, live))
  }

  predicate AllBlank(calls: seq<Made>) {
    forall i :: 0 <= i < |calls| ==> HasNoToken(calls[i].text)
  }

  /** Some call is nested, and no text before it has a token. */
  predicate Raises(calls: seq<Made>) {
    exists k :: 0 <= k < |calls| && calls[k].live > 0 && AllBlank(calls[..k])
  }

  lemma RaisesStep(live: nat, text: string, inner: seq<Made>, rest: seq<Made>)
    ensures (var calls := [Made(live, text)] + (inner + rest);
             && (Raises(calls) <==> live > 0 || (HasNoToken(text) && (Raises(inner) || (AllBlank(inner) && Raises(rest)))))
             && (AllBlank(calls) <==> HasNoToken(text) && AllBlank(inner) && AllBlank(rest)))
  {
    BlankConcat([Made(live, text)], inner + rest);
    BlankConcat(inner, rest);
    assert AllBlank([Made(live, text)]) <==> HasNoToken(text) by {
      assert [Made(live, text)][0] == Made(live, text);
    }
    RaisesConcat([Made(live, text)], inner + rest);
    RaisesConcat(inner, rest);
    RaisesOne(Made(live, text));
  }

  lemma CallsOf(run: Run, live: nat)
    ensures run.Nothing? ==> !Raises(Calls(run, live)) && AllBlank(Calls(run, live))
    ensures run.Call? ==>
              (var inner, rest, blank := Calls(run.inner, live + 1), Calls(run.rest, live), HasNoToken(run.text);
               && (Raises(Calls(run, live)) <==>
                     live > 0 || (blank && (Raises(inner) || (AllBlank(inner) && Raises(rest)))))
               && (AllBlank(Calls(run, live)) <==> blank && AllBlank(inner) && AllBlank(rest)))
  {
    if run.Call? {
      RaisesStep(live, run.text, Calls(run.inner, live + 1), Calls(run.rest, live));
    }
  }

  lemma BlankConcat(a: seq<Made>, b: seq<Made>)
    ensures AllBlank(a + b) <==> AllBlank(a) && AllBlank(b)
  {
    hide HasNoToken;
    if AllBlank(a + b) {
      assert forall i :: 0 <= i < |a| ==> a[i] == (a + b)[i];
      assert forall i :: 0 <= i < |b| ==> b[i] == (a + b)[|a| + i];
    }
  }

  lemma RaisesOne(call: Made)
    ensures Raises([call]) <==> call.live > 0
  {
    if call.live > 0 {
      assert AllBlank([call][..0]);
    }
  }

  lemma RaisesConcat(a: seq<Made>, b: seq<Made>)
    ensures Raises(a + b) <==> Raises(a) || (AllBlank(a) && Raises(b))
  {
    hide AllBlank;
    if Raises(a) {
      var k :| 0 <= k < |a| && a[k].live > 0 && AllBlank(a[..k]);
      assert (a + b)[..k] == a[..k];
    }
    if AllBlank(a) && Raises(b) {
      var k :| 0 <= k < |b| && b[k].live > 0 && AllBlank(b[..k]);
      assert (a + b)[..|a| + k] == a + b[..k];
      BlankConcat(a, b[..k]);
      assert (a + b)[|a| + k] == b[k];
    }
    if Raises(a + b) {
      var k :| 0 <= k < |a + b| && (a + b)[k].live > 0 && AllBlank((a + b)[..k]);
      if k < |a| {
        assert (a + b)[..k] == a[..k];
      } else {
        assert (a + b)[..k] == a + b[..k - |a|];
        BlankConcat(a, b[..k - |a|]);
        assert b[k - |a|].live > 0;
      }
    }
  }

  /** A balanced run: nothing, or a call, what happens before its end, the end, and what follows. */
  datatype Run = Nothing | Call(text: string, ignoreQuotes: bool, inner: Run, rest: Run)
}
