/**
 * Writing archived variables to a config (cvar.c) and executing that config (cmd.c): what comes back
 * out of the command pipeline is what was written.
 */
module ConfigRoundTrip {
  import opened Ascii
  import opened CommandBuffer
  import opened CommandText
  import opened Tokenizer

  const CVAR_ARCHIVE := 1

  /** A variable with its value and latched value already converted to text. */
  datatype Cvar = Cvar(name: string, value: string, latched: string, flags: nat)

  datatype Entry = Entry(name: string, value: string) {
    predicate Fits() {
      |name| + |value| + 10 <= MAX_CMD_LINE
    }
  }

  // ---- writing ----

  /** A config line without its line end. */
  function Line(e: Entry): string {
    "seta " + e.name + " \"" + e.value + "\""
  }

  function ConfigText(entries: seq<Entry>): string {
    if entries == [] then "" else Line(entries[0]) + "\n" + ConfigText(entries[1..])
  }

  lemma {:induction false} ConfigTextConcat(a: seq<Entry>, b: seq<Entry>)
    ensures ConfigText(a + b) == ConfigText(a) + ConfigText(b)
  {
    if a == [] {
      assert a + b == b;
    } else {
      assert (a + b)[1..] == a[1..] + b;
      ConfigTextConcat(a[1..], b);
    }
  }

  /** The latched value, if there is one, is what is saved. */
  function EntryOf(v: Cvar): Entry {
    Entry(v.name, if v.latched != "" then v.latched else v.value)
  }

  predicate IsSaved(v: Cvar) {
    v.flags % 2 == CVAR_ARCHIVE && EntryOf(v).Fits()
  }

  function Saved(vars: seq<Cvar>): seq<Entry> {
    if vars == [] then []
    else Saved(vars[..|vars| - 1]) + if IsSaved(vars[|vars| - 1]) then [EntryOf(vars[|vars| - 1])] else []
  }

  lemma SavedStep(vars: seq<Cvar>, i: nat)
    requires i < |vars|
    ensures Saved(vars[..i + 1]) == if IsSaved(vars[i]) then Saved(vars[..i]) + [EntryOf(vars[i])] else Saved(vars[..i])
  {
    assert vars[..i + 1][..i] == vars[..i];
  }

  /** An archived variable gives an entry of its name and its latched value, or its value if none is latched, if the line fits. */
  predicate GivesEntry(v: Cvar, e: Entry) {
    && v.flags % 2 == 1 && e.name == v.name
    && e.value == (if v.latched == "" then v.value else v.latched) && |e.name| + |e.value| <= 8182
  }

  /** An entry is saved exactly when some variable gives it. */
  lemma {:induction false} SavedIff(vars: seq<Cvar>, e: Entry)
    ensures e in Saved(vars) <==> exists v :: v in vars && GivesEntry(v, e)
  {
    if vars != [] {
      hide Saved, IsSaved, EntryOf, GivesEntry;
      var init, last := vars[..|vars| - 1], vars[|vars| - 1];
      SavedIff(init, e);
      SavedStep(vars, |init|);
      SavedAsGiven(last, e);
      assert vars[..|vars|] == vars && vars == init + [last];
    }
  }

  lemma SavedAsGiven(v: Cvar, e: Entry)
    ensures GivesEntry(v, e) <==> IsSaved(v) && e == EntryOf(v)
  {
  }

  /** The saved entries are in the order of the variables, and one for each. */
  lemma {:induction false} SavedInOrder(a: seq<Cvar>, b: seq<Cvar>)
    ensures Saved(a + b) == Saved(a) + Saved(b)
  {
    if b == [] {
      assert a + b == a;
    } else {
      var init := b[..|b| - 1];
      assert (a + b)[..|a + b| - 1] == a + init;
      SavedInOrder(a, init);
    }
  }

  /** Cvar_WriteVariables: one line per archived variable, skipping those too long for the line buffer. */
  method WriteVariables(vars: seq<Cvar>) returns (file: string)
    ensures file == ConfigText(Saved(vars))
  {
    file := "";
    for i := 0 to |vars|
      invariant file == ConfigText(Saved(vars[..i]))
    {
      var v := vars[i];
      SavedStep(vars, i);
      if v.flags % 2 == CVAR_ARCHIVE {
        var value := if v.latched != "" then v.latched else v.value;
        if |v.name| + |value| + 10 > MAX_CMD_LINE {
          continue;
        }
        ConfigTextConcat(Saved(vars[..i]), [EntryOf(v)]);
        OneLine(EntryOf(v));
        file := file + ("seta " + v.name + " \"" + value + "\"\n");
      }
    }
    assert vars[..|vars|] == vars;
  }

  lemma OneLine(e: Entry)
    ensures ConfigText([e]) == "seta " + e.name + " \"" + e.value + "\"\n"
  {
    assert ConfigText([e][1..]) == "";
  }

  // ---- names and values that survive ----

  /** What the tokenizer takes as one unquoted token. */
  predicate CleanWord(name: string) {
    && name != ""
    && (forall c :: c in name ==> !IsBlank(c) && c != '"')
    && forall i: nat :: i < |name| ==> !OpensComment(name, i)
  }

  predicate GoodName(name: string) {
    CleanWord(name) && ';' !in name
  }

  predicate GoodValue(value: string) {
    forall c :: c in value ==> c != '"' && c != '\n' && c != '\r'
  }

  // ---- splitting ----

  /** Nothing that matters to the splitter outside quotes. */
  predicate PlainAt(text: string, k: nat) {
    k < |text| && text[k] !in {'"', ';', '\n', '\r'} && !OpensComment(text, k)
  }

  predicate QuotedAt(text: string, k: nat) {
    k < |text| && text[k] !in {'"', '\n', '\r'}
  }

  lemma {:induction false} ScanPlain(text: string, i: nat, j: nat)
    requires i <= j <= |text| && forall k: nat :: i <= k < j ==> PlainAt(text, k)
    ensures FindBreak(text, i, false, NO_COMMENT) == FindBreak(text, j, false, NO_COMMENT)
    decreases j - i
  {
    if i < j {
      assert PlainAt(text, i);
      ScanPlain(text, i + 1, j);
    }
  }

  lemma {:induction false} ScanQuoted(text: string, i: nat, j: nat)
    requires i <= j <= |text| && forall k: nat :: i <= k < j ==> QuotedAt(text, k)
    ensures FindBreak(text, i, true, NO_COMMENT) == FindBreak(text, j, true, NO_COMMENT)
    decreases j - i
  {
    if i < j {
      assert QuotedAt(text, i);
      ScanQuoted(text, i + 1, j);
    }
  }

  /** The text of a line: its fixed characters and where name and value lie. */
  lemma LineShape(e: Entry, rest: string)
    ensures var text, n, v := Line(e) + rest, |e.name|, |e.value|;
            && |Line(e)| == n + v + 8
            && text[..5] == "seta " && text[5..5 + n] == e.name && text[5 + n] == ' ' && text[6 + n] == '"'
            && text[7 + n..7 + n + v] == e.value && text[7 + n + v] == '"'
            && text[8 + n + v..] == rest
  {
  }

  /** Up to the opening quote nothing breaks the line if nothing in the name does. */
  lemma PlainUpToQuote(e: Entry, rest: string, p: nat)
    requires p <= |e.name|
    requires forall k :: 0 <= k < p ==> e.name[k] !in {'"', ';', '\n', '\r'}
    requires forall i: nat :: i < |e.name| ==> !OpensComment(e.name, i)
    ensures var text := Line(e) + rest;
            && (forall k: nat :: k < 5 + p ==> PlainAt(text, k))
            && (p == |e.name| ==> PlainAt(text, 5 + p))
  {
    var text := Line(e) + rest;
    LineShape(e, rest);
    assert text[0] == 's' && text[1] == 'e' && text[2] == 't' && text[3] == 'a' && text[4] == ' ';
    forall k: nat | k < 5 + p
      ensures PlainAt(text, k)
    {
      if k >= 5 {
        assert text[k] == e.name[k - 5];
        assert !OpensComment(e.name, k - 5);
        assert k + 1 < 5 + |e.name| ==> text[k + 1] == e.name[k - 4];
      }
    }
  }

  /** Plain text, a quoted stretch, and a line end: the line end is where the command stops. */
  lemma ScanLine(text: string, a: nat, b: nat)
    requires a < b && b + 1 < |text| && text[a] == '"' && text[b] == '"' && text[b + 1] == '\n'
    requires forall k: nat :: k < a ==> PlainAt(text, k)
    requires forall k: nat :: a < k < b ==> QuotedAt(text, k)
    ensures FindBreak(text, 0, false, NO_COMMENT) == Break(b + 1, NO_COMMENT)
  {
    ScanPlain(text, 0, a);
    assert FindBreak(text, a, false, NO_COMMENT) == FindBreak(text, a + 1, true, NO_COMMENT);
    ScanQuoted(text, a + 1, b);
    assert FindBreak(text, b, true, NO_COMMENT) == FindBreak(text, b + 1, false, NO_COMMENT);
  }

  lemma ValueIsQuoted(value: string, text: string, at: nat, p: nat)
    requires p <= |value| && at + |value| <= |text| && text[at..at + |value|] == value
    requires forall k :: 0 <= k < p ==> value[k] !in {'"', '\n', '\r'}
    ensures forall k: nat :: at <= k < at + p ==> QuotedAt(text, k)
    ensures p < |value| ==> text[at + p] == value[p]
  {
    assert p < |value| ==> text[at..at + |value|][p] == value[p];
    forall k: nat | at <= k < at + p
      ensures QuotedAt(text, k)
    {
      assert text[k] == value[k - at];
    }
  }

  lemma NothingStopsTheName(name: string)
    requires GoodName(name)
    ensures forall k :: 0 <= k < |name| ==> name[k] !in {'"', ';', '\n', '\r'}
    ensures forall i: nat :: i < |name| ==> !OpensComment(name, i)
  {
    assert forall k :: 0 <= k < |name| ==> name[k] in name;
  }

  /** A good line is split off whole. */
  lemma GoodLineIsOneCommand(e: Entry, rest: string)
    requires GoodName(e.name) && GoodValue(e.value) && e.Fits()
    ensures FirstCommand(Line(e) + "\n" + rest, NO_COMMENT) == Split(Line(e), rest, NO_COMMENT)
  {
    hide Line, FindBreak, PlainAt, QuotedAt, GoodName;
    var tail := "\n" + rest;
    var text, n, v := Line(e) + tail, |e.name|, |e.value|;
    assert Line(e) + "\n" + rest == text;
    LineShape(e, tail);
    NothingStopsTheName(e.name);
    assert forall k :: 0 <= k < v ==> e.value[k] in e.value;
    PlainUpToQuote(e, tail, n);
    ValueIsQuoted(e.value, text, 7 + n, v);
    ScanLine(text, 6 + n, 7 + n + v);
    LineCutOut(text, Line(e), rest);
  }

  lemma LineCutOut(text: string, line: string, rest: string)
    requires text == line + ("\n" + rest)
    ensures text[..|line|] == line && |text| > |line| && text[|line| + 1..] == rest
  {
  }

  function Lines(entries: seq<Entry>): seq<string> {
    if entries == [] then [] else [Line(entries[0])] + Lines(entries[1..])
  }

  predicate AllGood(entries: seq<Entry>) {
    forall e :: e in entries ==> GoodName(e.name) && GoodValue(e.value) && e.Fits()
  }

  /**
   * A config of good entries, with the line end that inserting adds and whatever was pending behind it,
   * splits into its lines, an empty one, and what is pending.
   */
  lemma {:induction false} GoodConfigSplits(entries: seq<Entry>, pending: string)
    requires AllGood(entries)
    ensures Commands(ConfigText(entries) + "\n" + pending, NO_COMMENT)
         == Lines(entries) + [""] + Commands(pending, NO_COMMENT)
  {
    hide FirstCommand, Line;
    if entries == [] {
      assert ConfigText(entries) + "\n" + pending == "\n" + pending;
      EmptyCommand(pending);
    } else {
      var e, rest := entries[0], ConfigText(entries[1..]) + "\n" + pending;
      assert ConfigText(entries) + "\n" + pending == Line(e) + "\n" + rest;
      assert e in entries;
      GoodLineIsOneCommand(e, rest);
      GoodConfigSplits(entries[1..], pending);
      CommandsOfLine(Line(e), rest);
      hide Commands, ConfigText, AllGood;
      assert Lines(entries) == [Line(e)] + Lines(entries[1..]);
      assert Lines(entries) + [""] + Commands(pending, NO_COMMENT)
          == [Line(e)] + (Lines(entries[1..]) + [""] + Commands(pending, NO_COMMENT));
    }
  }

  lemma CommandsOfLine(line: string, rest: string)
    requires FirstCommand(line + "\n" + rest, NO_COMMENT) == Split(line, rest, NO_COMMENT)
    ensures Commands(line + "\n" + rest, NO_COMMENT) == [line] + Commands(rest, NO_COMMENT)
  {
    hide FirstCommand;
  }

  lemma EmptyCommand(pending: string)
    ensures Commands("\n" + pending, NO_COMMENT) == [""] + Commands(pending, NO_COMMENT)
  {
    var text := "\n" + pending;
    assert FindBreak(text, 0, false, NO_COMMENT) == Break(0, NO_COMMENT);
    assert text[..0] == "" && text[1..] == pending;
    hide FindBreak;
  }

  // ---- tokenizing a line ----

  lemma {:induction false} WordEndAt(text: string, i: nat, e: nat)
    requires i <= e < |text| && EndsWord(text, e, false)
    requires forall k :: i <= k < e ==> !EndsWord(text, k, false)
    ensures WordEnd(text, i, false) == e
    decreases e - i
  {
    if i < e {
      WordEndAt(text, i + 1, e);
    }
  }

  lemma {:induction false} QuoteEndAt(text: string, i: nat, e: nat)
    requires i <= e <= |text| && (e < |text| ==> text[e] == '"')
    requires forall k :: i <= k < e ==> text[k] != '"'
    ensures QuoteEnd(text, i) == e
    decreases e - i
  {
    if i < e {
      QuoteEndAt(text, i + 1, e);
    }
  }

  /** A word alone up to a blank is one token. */
  lemma OneWord(text: string, i: nat, e: nat, room: nat, slots: nat)
    requires i < e < |text| && IsBlank(text[e]) && slots > 0 && e - i + 3 <= room
    requires forall k :: i <= k < e ==> !EndsWord(text, k, false)
    ensures Tokens(text, i, room, slots, false) == [text[i..e]] + Tokens(text, e + 1, room - (e - i) - 1, slots - 1, false)
  {
    assert !EndsWord(text, i, false);
    WordEndAt(text, i, e);
    assert TokenAt(text, i, false) == (text[i..e], e);
    assert SkipBlank(text, e) == SkipBlank(text, e + 1) by {
      assert !OpensComment(text, e);
    }
  }

  /** From the opening quote on, the rest of the line is one token, whether or not the quote is closed. */
  lemma LastQuoted(text: string, i: nat, e: nat, room: nat, slots: nat)
    requires i < e <= |text| <= e + 1 && text[i] == '"' && (e < |text| ==> text[e] == '"') && slots > 0 && e - i + 2 <= room
    requires forall k :: i < k < e ==> text[k] != '"'
    ensures Tokens(text, i, room, slots, false) == [text[i + 1..e]]
  {
    QuoteEndAt(text, i + 1, e);
    assert TokenAt(text, i, false) == (text[i + 1..e], |text|);
  }

  /** A line, or a line without its closing quote. */
  predicate IsLine(e: Entry, line: string) {
    line == "seta " + e.name + " \"" + e.value || line == Line(e)
  }

  lemma PartsOfLine(e: Entry, line: string)
    requires IsLine(e, line)
    ensures var n, v := |e.name|, |e.value|;
            && 7 + n + v <= |line| <= 8 + n + v
            && line[..5] == "seta " && line[0..4] == "seta"
            && line[5..5 + n] == e.name && line[5 + n] == ' ' && line[6 + n] == '"'
            && line[7 + n..7 + n + v] == e.value && (7 + n + v < |line| ==> line[7 + n + v] == '"')
  {
  }

  lemma SetaIsWord(line: string)
    requires 5 <= |line| && line[..5] == "seta "
    ensures (forall k :: 0 <= k < 4 ==> !EndsWord(line, k, false)) && IsBlank(line[4])
  {
    assert line[0] == 's' && line[1] == 'e' && line[2] == 't' && line[3] == 'a' && line[4] == ' ';
  }

  lemma NameIsWord(name: string, line: string)
    requires CleanWord(name) && 6 + |name| <= |line| && line[5..5 + |name|] == name && line[5 + |name|] == ' '
    ensures |name| > 0 && IsBlank(line[5 + |name|])
    ensures forall k :: 5 <= k < 5 + |name| ==> !EndsWord(line, k, false)
  {
    var n := |name|;
    forall k: nat | 5 <= k < 5 + n
      ensures !EndsWord(line, k, false)
    {
      assert line[k] == name[k - 5] && name[k - 5] in name;
      assert !OpensComment(name, k - 5);
      assert k + 1 < 5 + n ==> line[k + 1] == name[k - 4];
    }
  }

  /** A line with a clean name, its value closed or cut short: three tokens. */
  lemma LineTokens(e: Entry, line: string, room: nat, slots: nat)
    requires CleanWord(e.name) && '"' !in e.value && IsLine(e, line)
    requires |e.name| + |e.value| + 9 <= room && slots >= 3
    ensures Tokens(line, 0, room, slots, false) == ["seta", e.name, e.value]
  {
    hide IsLine, Line, CleanWord, EndsWord, Tokens;
    var n, v := |e.name|, |e.value|;
    PartsOfLine(e, line);
    SetaIsWord(line);
    NameIsWord(e.name, line);
    NoQuoteInside(e.value, line, 7 + n);
    ThreeTokens(line, 5 + n, 7 + n + v, room, slots);
  }

  /** Two words and a quoted rest. */
  lemma ThreeTokens(line: string, a: nat, b: nat, room: nat, slots: nat)
    requires 5 < a && a + 2 <= b <= |line| <= b + 1
    requires forall k :: 0 <= k < 4 ==> !EndsWord(line, k, false)
    requires IsBlank(line[4]) && IsBlank(line[a]) && line[a + 1] == '"' && (b < |line| ==> line[b] == '"')
    requires forall k :: 5 <= k < a ==> !EndsWord(line, k, false)
    requires forall k :: a + 2 <= k < b ==> line[k] != '"'
    requires b + 2 <= room && slots >= 3
    ensures Tokens(line, 0, room, slots, false) == [line[0..4], line[5..a], line[a + 2..b]]
  {
    hide EndsWord, Tokens, IsBlank;
    OneWord(line, 0, 4, room, slots);
    OneWord(line, 5, a, room - 5, slots - 1);
    LastQuoted(line, a + 1, b, room - a - 1, slots - 2);
  }

  lemma NoQuoteInside(value: string, line: string, at: nat)
    requires '"' !in value && at + |value| <= |line| && line[at..at + |value|] == value
    ensures forall k :: at <= k < at + |value| ==> line[k] != '"'
  {
    forall k: nat | at <= k < at + |value|
      ensures line[k] != '"'
    {
      assert line[k] == value[k - at] && value[k - at] in value;
    }
  }

  function Triples(entries: seq<Entry>): seq<seq<string>> {
    if entries == [] then [] else [["seta", entries[0].name, entries[0].value]] + Triples(entries[1..])
  }

  lemma {:induction false} TriplesConcat(a: seq<Entry>, b: seq<Entry>)
    ensures Triples(a + b) == Triples(a) + Triples(b)
  {
    if a == [] {
      assert a + b == b;
    } else {
      assert (a + b)[1..] == a[1..] + b;
      TriplesConcat(a[1..], b);
    }
  }

  /** What one more variable adds to what comes back: its name and latched value, or its value if none is latched. */
  lemma VariableComesBack(vars: seq<Cvar>, v: Cvar)
    ensures (var shown := if v.latched == "" then v.value else v.latched;
             Triples(Saved(vars + [v]))
             == if v.flags % 2 == 1 && |v.name| + |shown| <= 8182 then Triples(Saved(vars)) + [["seta", v.name, shown]]
                else Triples(Saved(vars)))
  {
    var shown := if v.latched == "" then v.value else v.latched;
    assert (vars + [v])[..|vars|] == vars && (vars + [v])[|vars|] == v && (vars + [v])[..|vars| + 1] == vars + [v];
    SavedStep(vars + [v], |vars|);
    if IsSaved(v) {
      TriplesConcat(Saved(vars), [Entry(v.name, shown)]);
      assert [Entry(v.name, shown)][1..] == [];
      assert Triples([Entry(v.name, shown)]) == [["seta", v.name, shown]];
    }
  }

  /** The arguments every line of a command text is executed with. */
  function Arguments(lines: seq<string>): seq<seq<string>> {
    if lines == [] then []
    else [Tokens(lines[0], 0, ARENA_SIZE, MAX_STRING_TOKENS, false)] + Arguments(lines[1..])
  }

  lemma {:induction false} ArgumentsAt(lines: seq<string>, i: nat)
    requires i < |lines|
    ensures |Arguments(lines)| == |lines|
    ensures Arguments(lines)[i] == Tokens(lines[i], 0, ARENA_SIZE, MAX_STRING_TOKENS, false)
  {
    hide Tokens;
    if i > 0 {
      ArgumentsAt(lines[1..], i - 1);
    } else if |lines| > 1 {
      ArgumentsAt(lines[1..], 0);
    } else {
      assert lines[1..] == [];
    }
  }

  lemma {:induction false} ArgumentsLength(lines: seq<string>)
    ensures |Arguments(lines)| == |lines|
  {
    if lines != [] {
      ArgumentsLength(lines[1..]);
    }
  }

  lemma TriplesStep(entries: seq<Entry>)
    requires entries != []
    ensures Triples(entries) + [[]] == [["seta", entries[0].name, entries[0].value]] + (Triples(entries[1..]) + [[]])
  {
  }

  lemma StepOver(entries: seq<Entry>)
    requires entries != []
    ensures Arguments(Lines(entries) + [""])
         == [Tokens(Line(entries[0]), 0, ARENA_SIZE, MAX_STRING_TOKENS, false)] + Arguments(Lines(entries[1..]) + [""])
  {
    hide Tokens, Line;
    var first, rest := Line(entries[0]), Lines(entries[1..]) + [""];
    assert Lines(entries) + [""] == [first] + rest;
    hide Lines, Triples;
    assert ([first] + rest)[1..] == rest;
  }

  lemma {:induction false} ArgumentsOfLines(entries: seq<Entry>)
    requires AllGood(entries)
    ensures Arguments(Lines(entries) + [""]) == Triples(entries) + [[]]
  {
    if entries == [] {
      assert Lines(entries) + [""] == [""] && [""][1..] == [];
      assert Arguments([""][1..]) == [];
    } else {
      var e := entries[0];
      assert e in entries;
      hide Tokens, Line, CleanWord, GoodValue, Lines, Triples, Arguments;
      LineTokens(e, Line(e), ARENA_SIZE, MAX_STRING_TOKENS);
      StepOver(entries);
      TriplesStep(entries);
      ArgumentsOfLines(entries[1..]);
    }
  }

  /** What executing a config text leads to: the argument lists, in order. */
  function Executed(text: string): seq<seq<string>> {
    Arguments(Commands(text, NO_COMMENT))
  }

  /** The round trip: good entries come back as they were written, in order, followed by an empty command. */
  lemma GoodConfigRoundTrips(entries: seq<Entry>)
    requires AllGood(entries)
    ensures Executed(ConfigText(entries) + "\n") == Triples(entries) + [[]]
  {
    assert ConfigText(entries) + "\n" + "" == ConfigText(entries) + "\n";
    GoodConfigSplits(entries, "");
    assert Lines(entries) + [""] + Commands("", NO_COMMENT) == Lines(entries) + [""];
    ArgumentsOfLines(entries);
  }
}
