/** What the command buffer's text means (cmd.c): where commands end, and what running the text leads to. */
module CommandText {
  import opened Script

  const MAX_CMD_LINE := 8192

  // ---- where one command ends ----

  /** Comment state that survives from one line to the next within one run of the buffer. */
  datatype Comment = Comment(star: bool, slash: bool)

  datatype Break = Break(at: nat, comment: Comment)

  predicate Pair(text: string, i: nat, a: char, b: char) {
    i + 1 < |text| && text[i] == a && text[i + 1] == b
  }

  /** What the character at `i`, outside quotes, does to the comment state. */
  function CommentAt(text: string, i: nat, c: Comment): Comment {
    if !c.star && Pair(text, i, '/', '/') then c.(slash := true)
    else if !c.slash && Pair(text, i, '/', '*') then c.(star := true)
    else if c.star && Pair(text, i, '*', '/') then c.(star := false)
    else c
  }

  /** The character at `i` closes a star comment, which also ends the command. */
  predicate ClosesComment(text: string, i: nat, c: Comment) {
    && c.star && Pair(text, i, '*', '/')
  }

  /** Scan from `i`; `odd` is the parity of the quotes seen so far. */
  function FindBreak(text: string, i: nat, odd: bool, c: Comment): (b: Break)
    requires i <= |text|
    ensures i <= b.at <= |text|
    decreases |text| - i
  {
    if i == |text| then Break(i, c)
    else
      var inQuotes := (text[i] == '"') != odd;
      if !inQuotes && ClosesComment(text, i, c) then Break(i + 1, c.(star := false))
      else
        var c1 := if inQuotes then c else CommentAt(text, i, c);
        if !inQuotes && !c1.slash && !c1.star && text[i] == ';' then Break(i, c1)
        else if !c1.star && (text[i] == '\n' || text[i] == '\r') then Break(i, c1.(slash := false))
        else FindBreak(text, i + 1, inQuotes, c1)
  }

  /** One command: the line executed, the text left, and the comment state. */
  datatype Split = Split(line: string, rest: string, comment: Comment)

  function FirstCommand(text: string, c: Comment): (r: Split)
    ensures text != "" ==> |r.rest| < |text|
  {
    var b := FindBreak(text, 0, false, c);
    var i := if b.at >= MAX_CMD_LINE - 1 then MAX_CMD_LINE - 1 else b.at;
    Split(text[..i], if i == |text| then "" else text[i + 1..], b.comment)
  }

  /** A command is what comes before its break, cut to what a line buffer of 8192 characters holds. */
  lemma CommandFits(text: string, c: Comment)
    ensures (var line := FirstCommand(text, c).line;
             && |line| <= 8191 && line <= text
             && (|line| < 8191 ==> |line| == FindBreak(text, 0, false, c).at)
             && (|line| == 8191 ==> FindBreak(text, 0, false, c).at >= 8191))
  {
    hide FindBreak;
  }

  function Commands(text: string, c: Comment): seq<string>
    decreases |text|
  {
    if text == "" then []
    else
      var first := FirstCommand(text, c);
      [first.line] + Commands(first.rest, first.comment)
  }

  const NO_COMMENT := Comment(false, false)

  // ---- the same, without a scan ----

  /** The number of quotes among the first `k` characters. */
  ghost function Quotes(text: string, k: nat): nat
    requires k <= |text|
  {
    multiset(text[..k])['"']
  }

  /** The character at `k` is not within quotes; a closing quote counts as outside. */
  ghost predicate IsOutside(text: string, k: nat)
    requires k < |text|
  {
    Quotes(text, k + 1) % 2 == 0
  }

  ghost predicate Opens(text: string, k: nat, second: char)
    requires k < |text|
  {
    IsOutside(text, k) && Pair(text, k, '/', second)
  }

  /** The first comment opener outside quotes comes before `k` and has this second character. */
  ghost predicate InComment(text: string, k: nat, second: char)
    requires k <= |text|
  {
    exists j: nat :: j < k && Opens(text, j, second) && NothingOpens(text, j)
  }

  ghost predicate NothingOpens(text: string, k: nat)
    requires k <= |text|
  {
    forall i: nat :: i < k ==> !Opens(text, i, '/') && !Opens(text, i, '*')
  }

  /** The characters that end a command: an outside semicolon, a line end, and the end of a star comment. */
  ghost predicate Separates(text: string, k: nat)
    requires k < |text|
  {
    || (text[k] == ';' && IsOutside(text, k) && NothingOpens(text, k))
    || (text[k] in {'\n', '\r'} && !InComment(text, k, '*'))
    || EndsComment(text, k)
  }

  ghost predicate EndsComment(text: string, k: nat)
    requires k < |text|
  {
    IsOutside(text, k) && Pair(text, k, '*', '/') && InComment(text, k, '*')
  }

  ghost predicate IsFirstSeparator(text: string, k: nat) {
    && k <= |text|
    && (forall i: nat :: i < k ==> !Separates(text, i))
    && (k < |text| ==> Separates(text, k))
  }

  lemma QuotesStep(text: string, k: nat)
    requires k < |text|
    ensures Quotes(text, k + 1) == Quotes(text, k) + if text[k] == '"' then 1 else 0
  {
    assert text[..k + 1] == text[..k] + [text[k]];
  }

  lemma OpensStep(text: string, k: nat)
    requires k < |text|
    ensures NothingOpens(text, k + 1) <==> NothingOpens(text, k) && !Opens(text, k, '/') && !Opens(text, k, '*')
    ensures InComment(text, k + 1, '*') <==> InComment(text, k, '*') || (NothingOpens(text, k) && Opens(text, k, '*'))
    ensures InComment(text, k + 1, '/') <==> InComment(text, k, '/') || (NothingOpens(text, k) && Opens(text, k, '/'))
  {
    hide Opens;
  }

  /** The scan's state before `k` says how many quotes and which first opener it has passed. */
  ghost predicate Scanned(text: string, k: nat, odd: bool, c: Comment) {
    k <= |text| && odd == (Quotes(text, k) % 2 == 1) && CommentBefore(text, k, c)
  }

  ghost predicate CommentBefore(text: string, k: nat, c: Comment)
    requires k <= |text|
  {
    && c.star == InComment(text, k, '*') && c.slash == InComment(text, k, '/')
    && (!c.star && !c.slash <==> NothingOpens(text, k))
    && !(c.star && c.slash)
  }

  lemma CommentStep(text: string, k: nat, c: Comment)
    requires k < |text| && CommentBefore(text, k, c)
    ensures !IsOutside(text, k) ==> CommentBefore(text, k + 1, c)
    ensures IsOutside(text, k) && !EndsComment(text, k) ==> CommentBefore(text, k + 1, CommentAt(text, k, c))
  {
    OpensStep(text, k);
    hide InComment, NothingOpens, IsOutside;
  }

  lemma SeparatesIff(text: string, k: nat, c: Comment)
    requires k < |text| && CommentBefore(text, k, c)
    ensures EndsComment(text, k) <==> IsOutside(text, k) && ClosesComment(text, k, c)
    ensures !IsOutside(text, k) ==> (Separates(text, k) <==> !c.star && text[k] in {'\n', '\r'})
    ensures IsOutside(text, k) && !EndsComment(text, k) ==>
              (var c1 := CommentAt(text, k, c);
               Separates(text, k) <==> (!c1.star && text[k] in {'\n', '\r'}) || (!c1.star && !c1.slash && text[k] == ';'))
  {
    hide InComment, NothingOpens, IsOutside;
  }

  /** One step of the scan. */
  lemma ScanStep(text: string, k: nat, odd: bool, c: Comment) returns (odd': bool, c': Comment)
    requires k < |text| && Scanned(text, k, odd, c)
    ensures if Separates(text, k) then FindBreak(text, k, odd, c).at == if EndsComment(text, k) then k + 1 else k
            else Scanned(text, k + 1, odd', c') && FindBreak(text, k, odd, c) == FindBreak(text, k + 1, odd', c')
  {
    odd' := (text[k] == '"') != odd;
    c' := if odd' then c else CommentAt(text, k, c);
    QuotesStep(text, k);
    assert odd' == (Quotes(text, k + 1) % 2 == 1) == !IsOutside(text, k);
    CommentStep(text, k, c);
    SeparatesIff(text, k, c);
    assert EndsComment(text, k) ==> Separates(text, k);
    hide Separates, EndsComment, CommentBefore, ClosesComment, CommentAt, Quotes, IsOutside;
  }

  lemma {:induction false} ScanFindsFirst(text: string, k: nat, odd: bool, c: Comment) returns (e: nat)
    requires Scanned(text, k, odd, c) && forall i: nat :: i < k ==> !Separates(text, i)
    ensures IsFirstSeparator(text, e)
    ensures FindBreak(text, k, odd, c).at == if e < |text| && EndsComment(text, e) then e + 1 else e
    decreases |text| - k
  {
    assert k <= |text|;
    hide Separates, Scanned, EndsComment;
    if k == |text| || Separates(text, k) {
      e := k;
    }
    if k < |text| {
      var odd', c' := ScanStep(text, k, odd, c);
      hide FindBreak;
      if !Separates(text, k) {
        e := ScanFindsFirst(text, k + 1, odd', c');
      }
    }
  }

  /**
   * The scan stops at the first separator: before it, or before the slash that ends a star comment.
   * Without a separator it stops at the end of the text.
   */
  lemma BreakIsFirstSeparator(text: string) returns (e: nat)
    ensures IsFirstSeparator(text, e)
    ensures FindBreak(text, 0, false, NO_COMMENT).at == if e < |text| && EndsComment(text, e) then e + 1 else e
  {
    assert text[..0] == "";
    assert Scanned(text, 0, false, NO_COMMENT);
    e := ScanFindsFirst(text, 0, false, NO_COMMENT);
  }

  /** A scan that stops before the end of the text leaves no comment open. */
  lemma {:induction false} BreakLeavesNoComment(text: string, i: nat, odd: bool, c: Comment)
    requires i <= |text| && !(c.star && c.slash)
    ensures FindBreak(text, i, odd, c).at < |text| ==> FindBreak(text, i, odd, c).comment == NO_COMMENT
    decreases |text| - i
  {
    if i < |text| {
      var inQuotes := (text[i] == '"') != odd;
      BreakLeavesNoComment(text, i + 1, inQuotes, if inQuotes then c else CommentAt(text, i, c));
    }
  }

  // ---- nothing is lost ----

  /** The character dropped after each command: the separator, or the one at which an over-long command is cut. */
  function Dropped(text: string, c: Comment): seq<string>
    decreases |text|
  {
    if text == "" then []
    else
      var first := FirstCommand(text, c);
      [text[|first.line|..|text| - |first.rest|]] + Dropped(first.rest, first.comment)
  }

  function Joined(lines: seq<string>, dropped: seq<string>): string
    requires |lines| == |dropped|
  {
    if lines == [] then "" else lines[0] + dropped[0] + Joined(lines[1..], dropped[1..])
  }

  /** The commands and the dropped characters make up the text; only the last command may have none dropped. */
  lemma {:induction false} CommandsRebuildText(text: string, c: Comment)
    ensures |Commands(text, c)| == |Dropped(text, c)|
    ensures Joined(Commands(text, c), Dropped(text, c)) == text
    ensures forall i :: 0 <= i < |Dropped(text, c)| ==> |Dropped(text, c)[i]| <= 1
    ensures forall i :: 0 <= i < |Dropped(text, c)| - 1 ==> |Dropped(text, c)[i]| == 1
    decreases |text|
  {
    if text != "" {
      hide FirstCommand, Joined, Commands, Dropped;
      var first := FirstCommand(text, c);
      FirstRebuilds(text, c);
      FirstStep(text, c);
      var dropped := text[|first.line|..|text| - |first.rest|];
      var lines, others := Commands(first.rest, first.comment), Dropped(first.rest, first.comment);
      CommandsRebuildText(first.rest, first.comment);
      JoinedStep(first.line, dropped, lines, others);
      EachDropsOne(first.rest, first.comment, dropped);
    }
  }

  lemma JoinedStep(line: string, dropped: string, lines: seq<string>, others: seq<string>)
    requires |lines| == |others|
    ensures Joined([line] + lines, [dropped] + others) == line + dropped + Joined(lines, others)
  {
  }

  lemma FirstStep(text: string, c: Comment)
    requires text != ""
    ensures (var first := FirstCommand(text, c);
             && |first.rest| < |text| && |first.line| <= |text| - |first.rest|
             && Commands(text, c) == [first.line] + Commands(first.rest, first.comment)
             && Dropped(text, c) == [text[|first.line|..|text| - |first.rest|]] + Dropped(first.rest, first.comment))
  {
    FirstRebuilds(text, c);
    hide FirstCommand;
  }

  lemma EachDropsOne(rest: string, c: Comment, dropped: string)
    requires |dropped| <= 1 && (rest != "" ==> |dropped| == 1)
    requires forall i :: 0 <= i < |Dropped(rest, c)| ==> |Dropped(rest, c)[i]| <= 1
    requires forall i :: 0 <= i < |Dropped(rest, c)| - 1 ==> |Dropped(rest, c)[i]| == 1
    ensures (var all := [dropped] + Dropped(rest, c);
             && (forall i :: 0 <= i < |all| ==> |all[i]| <= 1)
             && (forall i :: 0 <= i < |all| - 1 ==> |all[i]| == 1))
  {
    assert rest == "" ==> Dropped(rest, c) == [];
    hide Dropped;
  }

  lemma FirstRebuilds(text: string, c: Comment)
    requires text != ""
    ensures (var first := FirstCommand(text, c);
             var n := |first.line|;
             && |first.rest| < |text| && n <= |text| - |first.rest| <= n + 1
             && (first.rest != "" ==> |text| - |first.rest| == n + 1)
             && text == first.line + text[n..|text| - |first.rest|] + first.rest)
  {
    hide FindBreak;
  }

  // ---- commands that change the buffer while it runs ----

  datatype Action = Insert(text: string) | Append(text: string) | Wait(frames: nat)

  /** The text still to run, and the frames still to wait. */
  datatype Pending = Pending(text: string, wait: nat)

  function Act(p: Pending, a: Action): Pending {
    match a
    case Insert(t) => p.(text := t + "\n" + p.text)
    case Append(t) => p.(text := p.text + t)
    case Wait(n) => p.(wait := n)
  }

  function ActAll(p: Pending, actions: seq<Action>): Pending {
    if actions == [] then p else Act(ActAll(p, actions[..|actions| - 1]), actions[|actions| - 1])
  }

  /** One frame: the lines executed and what is then pending. The script says what each command in turn does. */
  function Run(p: Pending, c: Comment, script: seq<seq<Action>>): (seq<string>, Pending)
    decreases |script|, |p.text|
  {
    if p.text == "" then ([], p)
    else if p.wait > 0 then ([], p.(wait := p.wait - 1))
    else
      var first := FirstCommand(p.text, c);
      var next := ActAll(p.(text := first.rest), Head(script));
      var (lines, end) := Run(next, first.comment, Tail(script));
      ([first.line] + lines, end)
  }

  /** Commands that leave the buffer alone are all executed. */
  lemma {:induction false} PlainRun(text: string, c: Comment)
    ensures Run(Pending(text, 0), c, []) == (Commands(text, c), Pending("", 0))
    decreases |text|
  {
    if text != "" {
      hide FirstCommand;
      PlainRun(FirstCommand(text, c).rest, FirstCommand(text, c).comment);
    }
  }

  lemma InsertStep(text: string, c: Comment, inserted: string, script: seq<seq<Action>>)
    requires text != "" && script != [] && script[0] == [Insert(inserted)]
    ensures (var first := FirstCommand(text, c);
             var later := Run(Pending(inserted + "\n" + first.rest, 0), first.comment, script[1..]);
             Run(Pending(text, 0), c, script) == ([first.line] + later.0, later.1))
  {
    hide FirstCommand;
    var p := Pending(FirstCommand(text, c).rest, 0);
    assert script[0][..0] == [];
    assert ActAll(p, script[0]) == Act(p, Insert(inserted));
  }

  // ---- texts one behind the other ----

  /** Every command of the text ends within it, so none goes on into what follows. */
  predicate EachEnds(text: string, c: Comment)
    decreases |text|
  {
    || text == ""
    || (FindBreak(text, 0, false, c).at < |text| && EachEnds(FirstCommand(text, c).rest, FirstCommand(text, c).comment))
  }

  /** A break within the text is not moved by what follows. */
  lemma {:induction false} BreakStays(text: string, more: string, i: nat, odd: bool, c: Comment)
    requires i <= |text| && FindBreak(text, i, odd, c).at < |text|
    ensures FindBreak(text + more, i, odd, c) == FindBreak(text, i, odd, c)
    decreases |text| - i
  {
    var all, inQuotes := text + more, (text[i] == '"') != odd;
    assert all[i] == text[i];
    if i + 1 < |text| {
      assert all[i + 1] == text[i + 1];
    }
    var c1 := if inQuotes then c else CommentAt(text, i, c);
    if FindBreak(text, i, odd, c) == FindBreak(text, i + 1, inQuotes, c1) {
      BreakStays(text, more, i + 1, inQuotes, c1);
    }
  }

  lemma FirstStays(text: string, more: string, c: Comment)
    requires FindBreak(text, 0, false, c).at < |text| && !(c.star && c.slash)
    ensures (var first, all := FirstCommand(text, c), FirstCommand(text + more, c);
             && all == Split(first.line, first.rest + more, NO_COMMENT)
             && first.comment == NO_COMMENT)
  {
    BreakStays(text, more, 0, false, c);
    BreakLeavesNoComment(text, 0, false, c);
    hide FindBreak;
    var at := FindBreak(text, 0, false, c).at;
    CutWithin(text, more, if at >= MAX_CMD_LINE - 1 then MAX_CMD_LINE - 1 else at);
  }

  lemma CutWithin(text: string, more: string, i: nat)
    requires i < |text|
    ensures (text + more)[..i] == text[..i] && (text + more)[i + 1..] == text[i + 1..] + more
  {
  }

  /** The commands of a text whose commands end within it are followed by those of the rest. */
  lemma {:induction false} CommandsConcat(text: string, more: string, c: Comment)
    requires EachEnds(text, c) && !(c.star && c.slash) && (text == "" ==> c == NO_COMMENT)
    ensures Commands(text + more, c) == Commands(text, c) + Commands(more, NO_COMMENT)
    decreases |text|
  {
    if text == "" {
      assert text + more == more;
    } else {
      FirstStays(text, more, c);
      hide FirstCommand, FindBreak;
      var first := FirstCommand(text, c);
      CommandsConcat(first.rest, more, NO_COMMENT);
      assert [first.line] + (Commands(first.rest, NO_COMMENT) + Commands(more, NO_COMMENT))
          == [first.line] + Commands(first.rest, NO_COMMENT) + Commands(more, NO_COMMENT);
    }
  }

  /** A text that ends with a line end and opens no star comment is of this kind. */
  lemma {:induction false} LinesEnd(text: string, c: Comment)
    requires text == "" || text[|text| - 1] == '\n' || text[|text| - 1] == '\r'
    requires (forall i: nat :: !Pair(text, i, '/', '*')) && !c.star
    ensures EachEnds(text, c)
    decreases |text|
  {
    if text != "" {
      BreakBeforeEnd(text, 0, false, c);
      BreakLeavesNoComment(text, 0, false, c);
      hide FindBreak;
      var first := FirstCommand(text, c);
      forall i: nat
        ensures !Pair(first.rest, i, '/', '*')
      {
        assert !Pair(text, i + (|text| - |first.rest|), '/', '*');
      }
      LinesEnd(first.rest, first.comment);
    }
  }

  lemma {:induction false} BreakBeforeEnd(text: string, i: nat, odd: bool, c: Comment)
    requires i < |text| && (text[|text| - 1] == '\n' || text[|text| - 1] == '\r')
    requires (forall k: nat :: !Pair(text, k, '/', '*')) && !c.star
    ensures FindBreak(text, i, odd, c).at < |text|
    decreases |text| - i
  {
    if i + 1 < |text| {
      var inQuotes := (text[i] == '"') != odd;
      BreakBeforeEnd(text, i + 1, inQuotes, if inQuotes then c else CommentAt(text, i, c));
    }
  }

  lemma {:induction false} NeverBoth(text: string, i: nat, odd: bool, c: Comment)
    requires i <= |text| && !(c.star && c.slash)
    ensures var b := FindBreak(text, i, odd, c).comment; !(b.star && b.slash)
    decreases |text| - i
  {
    if i < |text| {
      var inQuotes := (text[i] == '"') != odd;
      NeverBoth(text, i + 1, inQuotes, if inQuotes then c else CommentAt(text, i, c));
    }
  }

  /** What a command inserts is executed next: first all its commands, then those of what was pending. */
  lemma InsertedRunsNext(text: string, c: Comment, inserted: string)
    requires text != "" && !(c.star && c.slash) && EachEnds(inserted + "\n", FirstCommand(text, c).comment)
    ensures (var first := FirstCommand(text, c);
             Run(Pending(text, 0), c, [[Insert(inserted)]])
             == ([first.line] + (Commands(inserted + "\n", first.comment) + Commands(first.rest, NO_COMMENT)), Pending("", 0)))
  {
    NeverBoth(text, 0, false, c);
    InsertStep(text, c, inserted, [[Insert(inserted)]]);
    var first := FirstCommand(text, c);
    hide FirstCommand, FindBreak, Run, Commands, EachEnds;
    CommandsConcat(inserted + "\n", first.rest, first.comment);
    PlainRun(inserted + "\n" + first.rest, first.comment);
  }

  /** What a command appends is executed last, behind all commands of what was pending. */
  lemma AppendedRunsLast(text: string, c: Comment, appended: string)
    requires text != "" && !(c.star && c.slash)
    requires EachEnds(text, c)
    ensures Run(Pending(text, 0), c, [[Append(appended)]])
         == (Commands(text, c) + Commands(appended, NO_COMMENT), Pending("", 0))
  {
    var first := FirstCommand(text, c);
    FirstStays(text, "", c);
    var p := Pending(first.rest, 0);
    assert [Append(appended)][..0] == [];
    assert ActAll(p, [Append(appended)]) == Act(p, Append(appended));
    hide FirstCommand, FindBreak, ActAll;
    CommandsConcat(first.rest, appended, NO_COMMENT);
    PlainRun(first.rest + appended, NO_COMMENT);
    assert [first.line] + (Commands(first.rest, NO_COMMENT) + Commands(appended, NO_COMMENT))
        == [first.line] + Commands(first.rest, NO_COMMENT) + Commands(appended, NO_COMMENT);
  }

  /** `n` frames one after the other, with commands that leave the buffer alone. */
  function Frames(p: Pending, n: nat): (seq<string>, Pending)
    decreases n
  {
    if n == 0 then ([], p)
    else
      var (lines, next) := Run(p, NO_COMMENT, []);
      var (more, end) := Frames(next, n - 1);
      (lines + more, end)
  }

  /** Waiting only delays: after the frames waited for, the text runs as if there had been no wait. */
  lemma {:induction false} WaitOnlyDelays(text: string, wait: nat)
    requires text != ""
    ensures Frames(Pending(text, wait), wait + 1) == (Commands(text, NO_COMMENT), Pending("", 0))
  {
    hide Commands;
    if wait == 0 {
      PlainRun(text, NO_COMMENT);
      assert Frames(Pending("", 0), 0) == ([], Pending("", 0));
      assert Commands(text, NO_COMMENT) + [] == Commands(text, NO_COMMENT);
    } else {
      WaitOnlyDelays(text, wait - 1);
      var r := Commands(text, NO_COMMENT);
      assert Run(Pending(text, wait), NO_COMMENT, []) == ([], Pending(text, wait - 1));
      assert [] + r == r;
    }
  }

  /**
   * A command that waits ends its frame, which counts as the first one waited for; with a wait of 0, or
   * nothing behind it, the frame goes on as if it had not waited.
   */
  lemma WaitStopsTheFrame(text: string, c: Comment, frames: nat)
    requires text != ""
    ensures (var first := FirstCommand(text, c);
             Run(Pending(text, 0), c, [[Wait(frames)]])
             == if frames == 0 then ([first.line] + Commands(first.rest, first.comment), Pending("", 0))
                else if first.rest == "" then ([first.line], Pending("", frames))
                else ([first.line], Pending(first.rest, frames - 1)))
  {
    hide FirstCommand, Commands;
    var first := FirstCommand(text, c);
    var p := Pending(first.rest, 0);
    assert [Wait(frames)][..0] == [];
    assert ActAll(p, [Wait(frames)]) == Act(p, Wait(frames)) == Pending(first.rest, frames);
    assert Tail([[Wait(frames)]]) == [] && Head([[Wait(frames)]]) == [Wait(frames)];
    hide ActAll;
    if frames == 0 {
      PlainRun(first.rest, first.comment);
    } else {
      assert Run(Pending(first.rest, frames), first.comment, []).0 == [];
    }
    assert [first.line] + [] == [first.line];
  }

  /** The rest then runs, whole and once, in the frame after those waited for. */
  lemma RestRunsAfterWait(text: string, c: Comment, frames: nat)
    requires text != "" && frames > 0 && FirstCommand(text, c).rest != ""
    ensures (var first := FirstCommand(text, c);
             var (lines, left) := Run(Pending(text, 0), c, [[Wait(frames)]]);
             && lines == [first.line]
             && Frames(left, frames) == (Commands(first.rest, NO_COMMENT), Pending("", 0)))
  {
    WaitStopsTheFrame(text, c, frames);
    hide FirstCommand, Commands, Run, Frames;
    var rest := FirstCommand(text, c).rest;
    WaitOnlyDelays(rest, frames - 1);
  }

  /** While frames are waited for nothing runs, and the text stays. */
  lemma {:induction false} NothingRunsMeanwhile(text: string, wait: nat, k: nat)
    requires text != "" && k <= wait
    ensures Frames(Pending(text, wait), k) == ([], Pending(text, wait - k))
    decreases k
  {
    if k > 0 {
      NothingRunsMeanwhile(text, wait - 1, k - 1);
      var none: seq<string> := [];
      assert none + none == none;
    }
  }
}
