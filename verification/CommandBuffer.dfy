/** The command buffer (cmd.c): appending, inserting in front, and splitting into command lines. */
module CommandBuffer {
  import opened Ascii
  import opened CommandText
  import opened Script

  const MAX_CMD_BUFFER := 1024

  // ---- the buffer ----

  class Buffer {
    /** cmd_text_buf, the storage used until the text outgrows it. */
    const initial: array<char>
    var data: array<char>
    var cursize: nat
    var wait: nat

    ghost predicate Valid()
      reads this
    {
      initial.Length == MAX_CMD_BUFFER && cursize <= data.Length
    }

    ghost function Contents(): string
      requires Valid()
      reads this, data
    {
      data[..cursize]
    }

    /** Cbuf_Init. */
    constructor ()
      ensures Valid() && Contents() == "" && wait == 0 && fresh(initial) && data == initial
    {
      initial := new char[MAX_CMD_BUFFER];
      data, cursize, wait := initial, 0, 0;
    }

    /** Make room for `len` more characters; `allocates` says whether the allocation succeeds. */
    method Grow(len: nat, allocates: bool) returns (ok: bool)
      requires Valid()
      modifies this`data
      ensures Valid() && Contents() == old(Contents())
      ensures data == old(data) || fresh(data)
      ensures ok <==> cursize + len <= old(data.Length) || allocates
      ensures ok ==> cursize + len <= data.Length
    {
      if len + cursize > data.Length {
        if !allocates {
          return false;
        }
        var newBuf := new char[len + cursize];
        for i := 0 to cursize
          invariant data == old(data) && newBuf[..i] == data[..i]
        {
          newBuf[i] := data[i];
        }
        data := newBuf;
      }
      ok := true;
    }

    /** Com_Memcpy into the buffer. */
    method CopyAt(at: nat, text: string)
      requires at + |text| <= data.Length
      modifies data
      ensures data[..] == old(data[..at]) + text + old(data[at + |text|..])
    {
      for i := 0 to |text|
        invariant data[..at + i] == old(data[..at]) + text[..i]
        invariant data[at + i..] == old(data[at + i..])
      {
        data[at + i] := text[i];
      }
      assert text[..|text|] == text;
      assert data[..] == data[..at + |text|] + data[at + |text|..];
    }

    /** The in-place move of the live text, last character first because the two places overlap. */
    method MoveUp(len: nat)
      requires Valid() && cursize + len <= data.Length
      modifies data
      ensures data[len..cursize + len] == old(Contents())
    {
      ghost var was := Contents();
      var i: nat := cursize;
      while i > 0
        invariant i <= cursize
        invariant forall j :: 0 <= j < i ==> data[j] == was[j]
        invariant forall j :: i + len <= j < cursize + len ==> data[j] == was[j - len]
      {
        i := i - 1;
        data[i + len] := data[i];
      }
      ghost var now := data[len..cursize + len];
      assert forall j :: 0 <= j < |was| ==> now[j] == was[j];
    }

    /** Cbuf_AddText: append, without adding a line end. */
    method AddText(text: string, allocates: bool) returns (ok: bool)
      requires Valid() && IsCString(text)
      modifies this`data, this`cursize, data
      ensures Valid() && (data == old(data) || fresh(data))
      ensures ok <==> old(cursize) + |text| + 1 <= old(data.Length) || allocates
      ensures Contents() == if ok then old(Contents()) + text else old(Contents())
    {
      ok := Grow(|text| + 1, allocates);
      if ok {
        ghost var was := Contents();
        CopyAt(cursize, text);
        cursize := cursize + |text|;
        assert data[..cursize] == was + text;
      }
    }

    /** Cbuf_InsertText: put the text and a line end in front of what is there. */
    method InsertText(text: string, allocates: bool) returns (ok: bool)
      requires Valid() && IsCString(text)
      modifies this`data, this`cursize, data
      ensures Valid() && (data == old(data) || fresh(data))
      ensures ok <==> old(cursize) + |text| + 1 <= old(data.Length) || allocates
      ensures Contents() == if ok then text + "\n" + old(Contents()) else old(Contents())
    {
      ok := Grow(|text| + 1, allocates);
      if ok {
        Prepend(text);
      }
    }

    /** Move the live text up, copy the new text in, and close it with a line end. */
    method Prepend(text: string)
      requires Valid() && cursize + |text| + 1 <= data.Length
      modifies this`cursize, data
      ensures Valid() && Contents() == text + "\n" + old(Contents())
    {
      var len := |text| + 1;
      ghost var was := Contents();
      MoveUp(len);
      ghost var moved := data[..];
      assert moved[len..len + |was|] == was;
      CopyAt(0, text);
      data[len - 1] := '\n';
      assert data[..] == (text + moved[|text|..])[|text| := '\n'];
      Assemble(moved, text, was);
      cursize := cursize + len;
      assert data[..cursize] == data[..][..cursize];
    }

    lemma Assemble(moved: string, text: string, was: string)
      requires |text| + 1 + |was| <= |moved| && moved[|text| + 1..|text| + 1 + |was|] == was
      ensures (text + moved[|text|..])[|text| := '\n'][..|text| + 1 + |was|] == text + "\n" + was
    {
    }

    /** The scan of Cbuf_Execute for the end of the first command. */
    method ScanCommand(comment: Comment) returns (i: nat, c: Comment)
      requires Valid()
      ensures FindBreak(Contents(), 0, false, comment) == Break(i, c)
    {
      var star, slash := comment.star, comment.slash;
      ghost var text := Contents();
      var quotes := 0;
      i := 0;
      while i < cursize
        invariant i <= cursize
        invariant FindBreak(text, 0, false, comment) == FindBreak(text, i, quotes % 2 == 1, Comment(star, slash))
      {
        if data[i] == '"' {
          quotes := quotes + 1;
        }
        if quotes % 2 == 0 {
          if i < cursize - 1 {
            if !star && data[i] == '/' && data[i + 1] == '/' {
              slash := true;
            } else if !slash && data[i] == '/' && data[i + 1] == '*' {
              star := true;
            } else if star && data[i] == '*' && data[i + 1] == '/' {
              star := false;
              i := i + 1;
              break;
            }
          }
          if !slash && !star && data[i] == ';' {
            break;
          }
        }
        if !star && (data[i] == '\n' || data[i] == '\r') {
          slash := false;
          break;
        }
        i := i + 1;
      }
      c := Comment(star, slash);
    }

    /** Take the first command out of the buffer and move the rest down. */
    method TakeCommand(comment: Comment) returns (line: string, c: Comment)
      requires Valid() && cursize > 0
      modifies this`cursize, data
      ensures Valid()
      ensures (var r := FirstCommand(old(Contents()), comment);
               line == r.line && c == r.comment && Contents() == r.rest)
    {
      ghost var text := Contents();
      var i;
      i, c := ScanCommand(comment);
      if i >= MAX_CMD_LINE - 1 {
        i := MAX_CMD_LINE - 1;
      }
      line := data[..i];
      assert line == text[..i];
      if i == cursize {
        cursize := 0;
      } else {
        i := i + 1;
        cursize := cursize - i;
        MoveDown(i);
        assert data[..cursize] == text[i..];
      }
    }

    /** The overlapping move towards the start. */
    method MoveDown(n: nat)
      requires cursize + n <= data.Length
      modifies data
      ensures data[..cursize] == old(data[n..n + cursize])
    {
      for j := 0 to cursize
        invariant data[..j] == old(data[n..n + j])
        invariant data[j..] == old(data[j..])
      {
        data[j] := data[j + n];
      }
    }

    /** What the command just executed does to the buffer; its allocations succeed. */
    method Perform(actions: seq<Action>)
      requires Valid() && forall a :: a in actions ==> a.Wait? || IsCString(a.text)
      modifies this`data, this`cursize, this`wait, data
      ensures Valid() && (data == old(data) || fresh(data))
      ensures Pending(Contents(), wait) == ActAll(Pending(old(Contents()), old(wait)), actions)
    {
      hide IsCString;
      for i := 0 to |actions|
        invariant Valid() && (data == old(data) || fresh(data))
        invariant Pending(Contents(), wait) == ActAll(Pending(old(Contents()), old(wait)), actions[..i])
      {
        assert actions[..i + 1][..i] == actions[..i];
        match actions[i] {
          case Insert(text) => var ok := InsertText(text, true);
          case Append(text) => var ok := AddText(text, true);
          case Wait(frames) => wait := frames;
        }
      }
      assert actions[..|actions|] == actions;
    }

    lemma RunStep(p: Pending, c: Comment, script: seq<seq<Action>>, lines: seq<string>)
      requires p.text != "" && p.wait == 0
      ensures (var first := FirstCommand(p.text, c);
               var next := Run(ActAll(p.(text := first.rest), Head(script)), first.comment, Tail(script));
               && ActAll(p.(text := first.rest), []) == p.(text := first.rest)
               && Run(p, c, script).1 == next.1
               && lines + Run(p, c, script).0 == lines + [first.line] + next.0)
    {
      hide FirstCommand;
      assert ActAll(p.(text := FirstCommand(p.text, c).rest), []) == p.(text := FirstCommand(p.text, c).rest);
      hide ActAll;
    }

    lemma RunStops(p: Pending, c: Comment, script: seq<seq<Action>>)
      ensures p.text == "" ==> Run(p, c, script) == ([], p)
      ensures p.text != "" && p.wait > 0 ==> Run(p, c, script) == ([], p.(wait := p.wait - 1))
    {
    }

    /**
     * Cbuf_Execute: `lines` are the command lines in the order they are executed. The script says what
     * each of them in turn does to the buffer; beyond its end they leave the buffer alone.
     */
    method Execute(script: seq<seq<Action>>) returns (lines: seq<string>)
      requires Valid() && forall k, a :: 0 <= k < |script| && a in script[k] ==> a.Wait? || IsCString(a.text)
      modifies this`data, this`cursize, this`wait, data
      ensures Valid() && (data == old(data) || data == initial || fresh(data))
      ensures (lines, Pending(Contents(), wait)) == Run(Pending(old(Contents()), old(wait)), NO_COMMENT, script)
    {
      hide FindBreak, FirstCommand, Run, ActAll, IsCString;
      lines := [];
      var comment := NO_COMMENT;
      var k := 0;
      ghost var all := Run(Pending(Contents(), wait), comment, script);
      assert script[0..] == script;
      while cursize != 0
        invariant Valid() && (data == old(data) || fresh(data)) && k <= |script|
        invariant all.0 == lines + Run(Pending(Contents(), wait), comment, script[k..]).0
        invariant all.1 == Run(Pending(Contents(), wait), comment, script[k..]).1
        decreases |script| - k, cursize
      {
        ghost var p := Pending(Contents(), wait);
        if wait > 0 {
          RunStops(p, comment, script[k..]);
          wait := wait - 1;
          assert lines + [] == lines;
          assert all == (lines, Pending(Contents(), wait));
          break;
        }
        RunStep(p, comment, script[k..], lines);
        var line;
        line, comment := TakeCommand(comment);
        lines := lines + [line];
        if k < |script| {
          assert Head(script[k..]) == script[k] && Tail(script[k..]) == script[k + 1..];
          Perform(script[k]);
          k := k + 1;
        } else {
          assert ActAll(Pending(Contents(), wait), []) == Pending(Contents(), wait);
        }
      }
      if cursize == 0 {
        assert Contents() == "";
        RunStops(Pending(Contents(), wait), comment, script[k..]);
        assert lines + [] == lines;
        assert all == (lines, Pending("", wait));
        if data != initial {
          data := initial;
        }
        assert Contents() == "";
      }
    }
  }
}
