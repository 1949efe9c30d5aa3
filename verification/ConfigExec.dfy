/** The round trip of a config with the command buffer and the tokenizer themselves. */
module ConfigExec {
  import opened Ascii
  import opened CommandBuffer
  import opened CommandText
  import opened Tokenizer
  import opened ConfigRoundTrip

  lemma OuterFrame(line: string)
    ensures Flatten([]) == [] && Offset(Flatten([])) == 0
    ensures CommandTokenizer.NewFrame([], line, false) == Tokens(line, 0, ARENA_SIZE, MAX_STRING_TOKENS, false)
  {
  }

  /** Read all arguments of the innermost live string. */
  method ReadArguments(tokenizer: CommandTokenizer) returns (args: seq<string>)
    requires tokenizer.Valid() && tokenizer.frames != []
    ensures args == tokenizer.frames[|tokenizer.frames| - 1]
  {
    hide CommandTokenizer.Valid;
    ghost var frame := tokenizer.frames[|tokenizer.frames| - 1];
    var argc := tokenizer.Argc();
    args := [];
    for i := 0 to argc
      invariant args == frame[..i]
    {
      var arg := tokenizer.Argv(i);
      args := args + [arg];
    }
    assert frame[..|frame|] == frame;
  }

  /**
   * Cmd_ExecuteString as far as its arguments: tokenize, read them back, end. Strings of outer commands
   * may be live; they are left as they were.
   */
  method ExecuteString(tokenizer: CommandTokenizer, line: string) returns (args: seq<string>)
    requires tokenizer.Valid() && IsCString(line) && Offset(Flatten(tokenizer.frames)) <= ARENA_SIZE
    requires |tokenizer.frames| < MAX_TOKENIZE_STRINGS && (tokenizer.frames == [] || !tokenizer.FreeIsNull())
    requires |Flatten(tokenizer.frames)| + |CommandTokenizer.NewFrame(tokenizer.frames, line, false)| < MAX_STRING_TOKENS
    modifies tokenizer, tokenizer.arena, tokenizer.argv, tokenizer.argcList
    ensures tokenizer.Valid() && tokenizer.frames == old(tokenizer.frames)
    ensures args == CommandTokenizer.NewFrame(old(tokenizer.frames), line, false)
  {
    ghost var outer := tokenizer.frames;
    assert tokenizer.currentString == |outer|;
    hide Tokens, Flatten, Offset, CommandTokenizer.Valid, CommandTokenizer.NewFrame, CommandTokenizer.FreeIsNull, IsCString;
    var outcome := tokenizer.TokenizeString(line, false);
    args := ReadArguments(tokenizer);
    var ok := tokenizer.EndTokenizedString();
    assert (outer + [args])[..|outer|] == outer;
  }

  lemma {:induction false} ConfigTextIsCString(entries: seq<Entry>)
    requires forall e :: e in entries ==> IsCString(e.name) && IsCString(e.value)
    ensures IsCString(ConfigText(entries))
    ensures forall line :: line in Lines(entries) ==> IsCString(line)
  {
    if entries != [] {
      assert entries[0] in entries;
      ConfigTextIsCString(entries[1..]);
    }
  }

  lemma {:induction false} TriplesAreShort(entries: seq<Entry>, i: nat)
    requires i <= |entries|
    ensures |Triples(entries)| == |entries| && |(Triples(entries) + [[]])[i]| <= 3
  {
    if entries != [] {
      TriplesAreShort(entries[1..], if i > 0 then i - 1 else 0);
    }
  }

  /** Execute lines one after the other. */
  method ExecuteLines(tokenizer: CommandTokenizer, lines: seq<string>) returns (argvs: seq<seq<string>>)
    requires tokenizer.Valid() && tokenizer.frames == []
    requires forall line :: line in lines ==> IsCString(line)
    requires forall args :: args in Arguments(lines) ==> |args| < MAX_STRING_TOKENS
    modifies tokenizer, tokenizer.arena, tokenizer.argv, tokenizer.argcList
    ensures argvs == Arguments(lines)
  {
    hide Tokens, Arguments, CommandTokenizer.Valid, CommandTokenizer.NewFrame, Flatten, Offset, IsCString;
    argvs := [];
    ArgumentsLength(lines);
    for i := 0 to |lines|
      invariant tokenizer.Valid() && tokenizer.frames == []
      invariant argvs == Arguments(lines)[..i]
    {
      ArgumentsAt(lines, i);
      assert lines[i] in lines && Arguments(lines)[i] in Arguments(lines);
      OuterFrame(lines[i]);
      var args := ExecuteString(tokenizer, lines[i]);
      argvs := argvs + [args];
    }
    assert Arguments(lines)[..|lines|] == Arguments(lines);
  }

  /** The commands pending are ones the tokenizer can take. */
  predicate CanRun(pending: string) {
    && (forall line :: line in Commands(pending, NO_COMMENT) ==> IsCString(line))
    && (forall args :: args in Executed(pending) ==> |args| < MAX_STRING_TOKENS)
  }

  lemma {:induction false} ArgumentsConcat(a: seq<string>, b: seq<string>)
    ensures Arguments(a + b) == Arguments(a) + Arguments(b)
  {
    hide Tokens;
    if a == [] {
      assert a + b == b;
    } else {
      assert (a + b)[1..] == a[1..] + b;
      ArgumentsConcat(a[1..], b);
    }
  }

  /** A saved config in front of pending text: its lines, an empty one, and then what was pending. */
  lemma SavedConfigRuns(entries: seq<Entry>, pending: string)
    requires AllGood(entries) && (forall e :: e in entries ==> IsCString(e.value)) && CanRun(pending)
    ensures IsCString(ConfigText(entries))
    ensures Executed(ConfigText(entries) + "\n" + pending) == Triples(entries) + [[]] + Executed(pending)
    ensures CanRun(ConfigText(entries) + "\n" + pending)
  {
    hide Tokens, Commands, Line;
    GoodConfigSplits(entries, pending);
    ArgumentsOfLines(entries);
    ArgumentsConcat(Lines(entries) + [""], Commands(pending, NO_COMMENT));
    forall e | e in entries
      ensures IsCString(e.name) && IsCString(e.value)
    {
      assert CleanWord(e.name);
    }
    ConfigTextIsCString(entries);
    forall args | args in Triples(entries) + [[]]
      ensures |args| <= 3
    {
      var i :| 0 <= i < |Triples(entries) + [[]]| && (Triples(entries) + [[]])[i] == args;
      TriplesAreShort(entries, 0);
      TriplesAreShort(entries, i);
    }
  }

  /**
   * Write the archived variables, insert the file in front of whatever is pending, run the buffer for one
   * frame, and collect the arguments: the triples of all saved variables come first. While a wait is
   * pending nothing runs, and the file stays in front.
   */
  method SaveAndExec(vars: seq<Cvar>, buffer: Buffer, tokenizer: CommandTokenizer) returns (argvs: seq<seq<string>>)
    requires buffer.Valid() && CanRun(buffer.Contents())
    requires tokenizer.Valid() && tokenizer.frames == []
    requires buffer.data != tokenizer.arena && buffer.initial != tokenizer.arena
    requires AllGood(Saved(vars)) && forall e :: e in Saved(vars) ==> IsCString(e.value)
    modifies buffer, buffer.data, tokenizer, tokenizer.arena, tokenizer.argv, tokenizer.argcList
    ensures old(buffer.wait) == 0 ==> argvs == Triples(Saved(vars)) + [[]] + Executed(old(buffer.Contents()))
    ensures old(buffer.wait) > 0 ==> argvs == []
    ensures buffer.Valid()
    ensures Pending(buffer.Contents(), buffer.wait)
         == if old(buffer.wait) == 0 then Pending("", 0)
            else Pending(ConfigText(Saved(vars)) + "\n" + old(buffer.Contents()), old(buffer.wait) - 1)
  {
    assert Arguments([]) == [];
    ghost var pending, text := buffer.Contents(), ConfigText(Saved(vars)) + "\n" + buffer.Contents();
    SavedConfigRuns(Saved(vars), pending);
    CanRunMeans(text);
    hide AllGood, Saved, ConfigText, Commands, Arguments, Triples, Tokens, CanRun, CommandTokenizer.Valid, Buffer.Contents;
    var file := WriteVariables(vars);
    var lines := InsertAndExecute(buffer, file);
    argvs := ExecuteLines(tokenizer, lines);
  }

  lemma CanRunMeans(text: string)
    requires CanRun(text)
    ensures forall line :: line in Commands(text, NO_COMMENT) ==> IsCString(line)
    ensures forall args :: args in Arguments(Commands(text, NO_COMMENT)) ==> |args| < MAX_STRING_TOKENS
  {
    hide Commands, Arguments, IsCString;
  }

  /** Insert a file and run the buffer for one frame. */
  method InsertAndExecute(buffer: Buffer, file: string) returns (lines: seq<string>)
    requires buffer.Valid() && IsCString(file)
    modifies buffer, buffer.data
    ensures buffer.Valid() && (buffer.data == old(buffer.data) || buffer.data == buffer.initial || fresh(buffer.data))
    ensures (var text := file + "\n" + old(buffer.Contents());
             if old(buffer.wait) == 0
             then lines == Commands(text, NO_COMMENT) && Pending(buffer.Contents(), buffer.wait) == Pending("", 0)
             else lines == [] && Pending(buffer.Contents(), buffer.wait) == Pending(text, old(buffer.wait) - 1))
  {
    hide Commands, Buffer.Contents;
    var ok := buffer.InsertText(file, true);
    PlainRun(buffer.Contents(), NO_COMMENT);
    lines := buffer.Execute([]);
  }
}
