/** The file search path (filesystem.c): adding game directories and packs, removing single entries. */
module SearchPath {
  import opened Ascii

  const MAX_OSPATH := 256
  const MAX_QPATH := 64

  /** What a string becomes in a field of `size` characters. */
  function Truncate(s: string, size: nat): (t: string)
    requires size > 0
    ensures |t| < size && t <= s && (|s| < size ==> t == s) && (|s| >= size ==> |t| == size - 1)
  {
    if |s| < size then s else s[..size - 1]
  }

  // ---- the elements of the path ----

  datatype Content = Dir(path: string, gamedir: string) | Pack(basename: string, gamename: string)

  datatype Element = Element(content: Content, localized: bool, langIndex: int)

  /** Two directories with the same path and game directory, or two packs with the same base name. */
  predicate Clash(a: Content, b: Content) {
    match (a, b)
    case (Dir(p, g), Dir(p', g')) => SameIgnoringCase(p, p') && SameIgnoringCase(g, g')
    case (Pack(n, _), Pack(n', _)) => SameIgnoringCase(n, n')
    case _ => false
  }

  lemma ClashIsTransitive(a: Content, b: Content, c: Content)
    requires Clash(a, b) && Clash(b, c)
    ensures Clash(a, c)
  {
  }

  lemma ClashIsSymmetric(a: Content, b: Content)
    ensures Clash(a, b) == Clash(b, a)
  {
  }

  /** All entries that are not localized come before all that are. */
  predicate LocalizedLast(es: seq<Element>) {
    forall i, j :: 0 <= i < j < |es| && es[i].localized ==> es[j].localized
  }

  predicate NoClash(es: seq<Element>) {
    forall i, j :: 0 <= i < j < |es| ==> !Clash(es[i].content, es[j].content)
  }

  predicate WellFormed(es: seq<Element>) {
    LocalizedLast(es) && NoClash(es)
  }

  predicate IsFree(es: seq<Element>, c: Content) {
    forall i :: 0 <= i < |es| ==> !Clash(es[i].content, c)
  }

  // ---- what the operations do ----

  function FirstLocalized(es: seq<Element>): (at: nat)
    ensures at <= |es|
    ensures forall i :: 0 <= i < at ==> !es[i].localized
    ensures at < |es| ==> es[at].localized
  {
    if es == [] || es[0].localized then 0 else 1 + FirstLocalized(es[1..])
  }

  /** Localized entries go in front of the localized ones, others to the very front. */
  function Insert(es: seq<Element>, e: Element): (more: seq<Element>)
    ensures |more| == |es| + 1
  {
    var at := if e.localized then FirstLocalized(es) else 0;
    es[..at] + [e] + es[at..]
  }

  function Remove(es: seq<Element>, at: nat): (less: seq<Element>)
    requires at < |es|
    ensures |less| == |es| - 1
  {
    es[..at] + es[at + 1..]
  }

  /** The first entry that clashes, or the length. */
  function FirstClash(es: seq<Element>, c: Content): (at: nat)
    ensures at <= |es|
    ensures forall i :: 0 <= i < at ==> !Clash(es[i].content, c)
    ensures at < |es| ==> Clash(es[at].content, c)
  {
    if es == [] || Clash(es[0].content, c) then 0 else 1 + FirstClash(es[1..], c)
  }

  /** Without its ending .iwd in any letter case. */
  function BaseName(file: string): string {
    var name := Truncate(file, MAX_OSPATH);
    if |name| > 4 && SameIgnoringCase(name[|name| - 4..], ".iwd") then name[..|name| - 4] else name
  }

  /** A name loses the four characters of its ending exactly if something is left in front of it; the case is not looked at. */
  lemma BaseNameDropsEnding(stem: string, ending: string)
    requires |stem| + |ending| < 256 && |ending| == 4
    ensures BaseName(stem + ending)
         == if |stem| > 0 && ending[0] == '.' && ending[1] in {'i', 'I'} && ending[2] in {'w', 'W'} && ending[3] in {'d', 'D'}
            then stem else stem + ending
  {
    var file := stem + ending;
    assert file[|file| - 4..] == ending && file[..|file| - 4] == stem;
    SameIgnoringCaseIff(ending, ".iwd");
    hide SameIgnoringCase;
    assert (forall i :: 0 <= i < 4 ==> SameLetter(ending[i], ".iwd"[i]))
      <==> SameLetter(ending[0], '.') && SameLetter(ending[1], 'i') && SameLetter(ending[2], 'w') && SameLetter(ending[3], 'd');
  }

  lemma ShortBaseName(file: string)
    requires |file| <= 4
    ensures BaseName(file) == file
  {
  }

  /** A pack file that could be loaded. */
  datatype Iwd = Iwd(file: string, localized: bool, langIndex: int)

  function PackElement(iwd: Iwd, dir: string): Element {
    Element(Pack(BaseName(iwd.file), Truncate(dir, MAX_OSPATH)), iwd.localized, iwd.langIndex)
  }

  /** A new pack takes the place of an old one with the same base name. */
  function AddPack(es: seq<Element>, e: Element): seq<Element> {
    var at := FirstClash(es, e.content);
    Insert(if at < |es| then Remove(es, at) else es, e)
  }

  function AddPacks(es: seq<Element>, dir: string, iwds: seq<Iwd>): seq<Element>
    decreases |iwds|
  {
    if iwds == [] then es else AddPacks(AddPack(es, PackElement(iwds[0], dir)), dir, iwds[1..])
  }

  /** A request to add a game directory, with what the disk holds for it. */
  datatype Request = Request(path: string, dirNoLocal: string, localized: bool, index: int, language: string,
                             hasContent: bool, iwds: seq<Iwd>)

  function GameDir(r: Request): string {
    Truncate(if r.localized then r.dirNoLocal + "/" + r.language else r.dirNoLocal, MAX_QPATH)
  }

  function DirElement(r: Request): Element {
    Element(Dir(Truncate(r.path, MAX_OSPATH), Truncate(GameDir(r), MAX_OSPATH)), r.localized, r.index)
  }

  /** The directory is not there yet, going by the path as it was asked for. */
  predicate IsNew(es: seq<Element>, r: Request) {
    IsFree(es, Dir(r.path, GameDir(r)))
  }

  predicate Adds(es: seq<Element>, r: Request) {
    IsNew(es, r) && (r.localized ==> r.hasContent)
  }

  function AddDirectory(es: seq<Element>, r: Request): seq<Element> {
    if !Adds(es, r) then es else AddPacks(Insert(es, DirElement(r)), GameDir(r), r.iwds)
  }

  /**
   * Asked for a directory, the list stays as it is if an entry has its path and game directory, or if it is
   * localized and has no content; otherwise it is put in the list and then its packs are.
   */
  lemma DirectoryIsAddedIff(es: seq<Element>, r: Request)
    requires r.iwds == []
    ensures (var there := exists e :: e in es && e.content.Dir? && SameIgnoringCase(e.content.path, r.path)
                                      && SameIgnoringCase(e.content.gamedir, GameDir(r));
             AddDirectory(es, r) == if there || (r.localized && !r.hasContent) then es else Insert(es, DirElement(r)))
  {
    hide SameIgnoringCase, Insert, GameDir;
    if e :| e in es && e.content.Dir? && SameIgnoringCase(e.content.path, r.path) && SameIgnoringCase(e.content.gamedir, GameDir(r)) {
      var i :| 0 <= i < |es| && es[i] == e;
      assert Clash(es[i].content, Dir(r.path, GameDir(r)));
    }
    if !IsNew(es, r) {
      var i :| 0 <= i < |es| && Clash(es[i].content, Dir(r.path, GameDir(r)));
      assert es[i] in es;
    }
  }

  /** The game directory of a request: the language is a directory below it, and 63 characters are kept. */
  lemma GameDirIs(r: Request)
    ensures (var full := if r.localized then r.dirNoLocal + "/" + r.language else r.dirNoLocal;
             && GameDir(r) <= full && (|full| <= 63 ==> GameDir(r) == full) && (|full| > 63 ==> |GameDir(r)| == 63))
  {
  }

  // ---- what they keep ----

  lemma InsertedAt(es: seq<Element>, e: Element, i: nat)
    requires i <= |es|
    ensures (var at := if e.localized then FirstLocalized(es) else 0;
             Insert(es, e)[i] == if i < at then es[i] else if i == at then e else es[i - 1])
  {
    hide FirstLocalized;
  }

  lemma InsertKeepsOrder(es: seq<Element>, e: Element)
    requires LocalizedLast(es)
    ensures LocalizedLast(Insert(es, e))
  {
    hide FirstLocalized, Insert;
    var more := Insert(es, e);
    forall i, j | 0 <= i < j < |more| && more[i].localized
      ensures more[j].localized
    {
      InsertedAt(es, e, i);
      InsertedAt(es, e, j);
      var at := if e.localized then FirstLocalized(es) else 0;
      if i == at && j > at + 1 && at < |es| {
        assert es[at].localized ==> es[j - 1].localized;
      }
    }
  }

  /** An insertion makes no clash exactly if the new entry clashes with none of the old. */
  /**
   * What is linked in comes first among its kind, localized or not, and behind no localized entry; the
   * others keep their order.
   */
  lemma NewestComesFirst(es: seq<Element>, e: Element) returns (at: nat)
    ensures at <= |es| && Insert(es, e)[at] == e
    ensures Insert(es, e)[..at] == es[..at] && Insert(es, e)[at + 1..] == es[at..]
    ensures forall i :: 0 <= i < at ==> !es[i].localized
    ensures !e.localized ==> at == 0
    ensures e.localized && at < |es| ==> es[at].localized
  {
    at := if e.localized then FirstLocalized(es) else 0;
    hide FirstLocalized;
  }

  lemma {:induction false} AddPacksConcat(es: seq<Element>, dir: string, a: seq<Iwd>, b: seq<Iwd>)
    ensures AddPacks(es, dir, a + b) == AddPacks(AddPacks(es, dir, a), dir, b)
    decreases |a|
  {
    if a == [] {
      assert a + b == b;
    } else {
      hide AddPack;
      assert (a + b)[1..] == a[1..] + b;
      AddPacksConcat(AddPack(es, PackElement(a[0], dir)), dir, a[1..], b);
    }
  }

  /** `e` stands at `at`: behind no localized entry, at the very front if it is not localized, and it clashes with no other. */
  predicate StandsFirst(es: seq<Element>, e: Element, at: nat) {
    && at < |es| && es[at] == e
    && (forall i :: 0 <= i < at ==> !es[i].localized) && (!e.localized ==> at == 0)
    && forall i :: 0 <= i < |es| && i != at ==> !Clash(es[i].content, e.content)
  }

  lemma FreeStandsFirst(es: seq<Element>, e: Element) returns (at: nat)
    requires IsFree(es, e.content)
    ensures StandsFirst(Insert(es, e), e, at)
  {
    hide Insert, Clash;
    at := NewestComesFirst(es, e);
    var more := Insert(es, e);
    forall i | 0 <= i < |more|
      ensures i < at ==> more[i] == es[i]
      ensures i > at ==> more[i] == es[i - 1]
    {
      if i < at {
        assert more[i] == more[..at][i];
      } else if i > at {
        assert more[i] == more[at + 1..][i - at - 1];
      }
    }
  }

  lemma AddedStandsFirst(es: seq<Element>, e: Element) returns (at: nat)
    requires NoClash(es)
    ensures StandsFirst(AddPack(es, e), e, at)
  {
    hide Insert, Remove, Clash, FirstClash, StandsFirst, NoClash;
    var k := FirstClash(es, e.content);
    if k < |es| {
      FreeAfterRemoval(es, e.content);
      at := FreeStandsFirst(Remove(es, k), e);
    } else {
      at := FreeStandsFirst(es, e);
    }
  }

  /** Of the packs of a directory the last one listed is found first among its kind, and no other of its base name is left. */
  lemma LastPackComesFirst(es: seq<Element>, dir: string, iwds: seq<Iwd>, iwd: Iwd) returns (at: nat)
    requires WellFormed(es)
    ensures StandsFirst(AddPacks(es, dir, iwds + [iwd]), PackElement(iwd, dir), at)
  {
    hide StandsFirst, AddPack, NoClash, LocalizedLast, PackElement;
    var before, e := AddPacks(es, dir, iwds), PackElement(iwd, dir);
    AddPacksConcat(es, dir, iwds, [iwd]);
    assert [iwd][1..] == [] && AddPacks(before, dir, [iwd]) == AddPack(before, e);
    AddPacksKeepsWellFormed(es, dir, iwds);
    at := AddedStandsFirst(before, e);
  }

  lemma InsertMakesNoClashIff(es: seq<Element>, e: Element)
    requires NoClash(es)
    ensures NoClash(Insert(es, e)) <==> IsFree(es, e.content)
  {
    hide FirstLocalized, Insert, Clash;
    var at, more := if e.localized then FirstLocalized(es) else 0, Insert(es, e);
    InsertedAt(es, e, at);
    if IsFree(es, e.content) {
      forall i, j | 0 <= i < j < |more|
        ensures !Clash(more[i].content, more[j].content)
      {
        InsertedAt(es, e, i);
        InsertedAt(es, e, j);
        if i == at {
          ClashIsSymmetric(e.content, es[j - 1].content);
        }
      }
    }
    if NoClash(more) {
      forall i | 0 <= i < |es|
        ensures !Clash(es[i].content, e.content)
      {
        var k := if i < at then i else i + 1;
        InsertedAt(es, e, k);
        ClashIsSymmetric(es[i].content, e.content);
      }
    }
  }

  lemma RemovedAt(es: seq<Element>, at: nat, i: nat)
    requires at < |es| && i < |es| - 1
    ensures Remove(es, at)[i] == if i < at then es[i] else es[i + 1]
  {
  }

  /** Removing any entry keeps the path well formed. */
  lemma RemoveKeepsWellFormed(es: seq<Element>, at: nat)
    requires WellFormed(es) && at < |es|
    ensures WellFormed(Remove(es, at))
  {
    hide Remove, Clash;
    var less := Remove(es, at);
    forall i, j | 0 <= i < j < |less|
      ensures less[i].localized ==> less[j].localized
      ensures !Clash(less[i].content, less[j].content)
    {
      RemovedAt(es, at, i);
      RemovedAt(es, at, j);
    }
  }

  /** At most one entry clashes with a given content, so after removing it the content is free. */
  lemma FreeAfterRemoval(es: seq<Element>, c: Content)
    requires NoClash(es) && FirstClash(es, c) < |es|
    ensures IsFree(Remove(es, FirstClash(es, c)), c)
  {
    hide Remove, Clash, FirstClash;
    var at := FirstClash(es, c);
    var less := Remove(es, at);
    forall i | 0 <= i < |less|
      ensures !Clash(less[i].content, c)
    {
      RemovedAt(es, at, i);
      if i >= at && Clash(es[i + 1].content, c) {
        ClashIsSymmetric(es[i + 1].content, c);
        ClashIsTransitive(es[at].content, c, es[i + 1].content);
      }
    }
  }

  lemma AddPackKeepsWellFormed(es: seq<Element>, e: Element)
    requires WellFormed(es)
    ensures WellFormed(AddPack(es, e)) && !IsFree(AddPack(es, e), e.content)
  {
    hide Insert, Remove, FirstClash, LocalizedLast, Clash, NoClash;
    var at := FirstClash(es, e.content);
    var rest := if at < |es| then Remove(es, at) else es;
    if at < |es| {
      assert WellFormed(es);
      RemoveKeepsWellFormed(es, at);
      FreeAfterRemoval(es, e.content);
    }
    InsertKeepsOrder(rest, e);
    InsertMakesNoClashIff(rest, e);
    InsertedIsThere(rest, e);
  }

  lemma InsertedIsThere(es: seq<Element>, e: Element)
    ensures exists i :: 0 <= i < |Insert(es, e)| && Insert(es, e)[i] == e
    ensures !IsFree(Insert(es, e), e.content)
  {
    InsertedAt(es, e, if e.localized then FirstLocalized(es) else 0);
  }

  lemma {:induction false} AddPacksKeepsWellFormed(es: seq<Element>, dir: string, iwds: seq<Iwd>)
    requires WellFormed(es)
    ensures WellFormed(AddPacks(es, dir, iwds))
    decreases |iwds|
  {
    if iwds != [] {
      hide WellFormed, AddPack;
      AddPackKeepsWellFormed(es, PackElement(iwds[0], dir));
      AddPacksKeepsWellFormed(AddPack(es, PackElement(iwds[0], dir)), dir, iwds[1..]);
    }
  }

  /** Two directory entries clash. */
  predicate DirsClash(es: seq<Element>) {
    exists i, j :: 0 <= i < j < |es| && es[i].content.Dir? && Clash(es[i].content, es[j].content)
  }

  lemma InsertKeepsDirsClash(es: seq<Element>, e: Element)
    requires DirsClash(es)
    ensures DirsClash(Insert(es, e))
  {
    hide Insert, FirstLocalized, Clash;
    var i, j :| 0 <= i < j < |es| && es[i].content.Dir? && Clash(es[i].content, es[j].content);
    var at := if e.localized then FirstLocalized(es) else 0;
    var i', j' := if i < at then i else i + 1, if j < at then j else j + 1;
    InsertedAt(es, e, i');
    InsertedAt(es, e, j');
  }

  /** A new directory entry next to one it clashes with. */
  lemma InsertMakesDirsClash(es: seq<Element>, e: Element)
    requires e.content.Dir? && !IsFree(es, e.content)
    ensures DirsClash(Insert(es, e))
  {
    hide Insert, FirstLocalized;
    var k :| 0 <= k < |es| && Clash(es[k].content, e.content);
    var at := if e.localized then FirstLocalized(es) else 0;
    var k' := if k < at then k else k + 1;
    InsertedAt(es, e, at);
    InsertedAt(es, e, k');
    ClashIsSymmetric(es[k].content, e.content);
    var more := Insert(es, e);
    hide Clash;
    if k < at {
      assert Clash(more[k'].content, more[at].content);
    } else {
      assert Clash(more[at].content, more[k'].content);
    }
  }

  lemma RemovePackKeepsDirsClash(es: seq<Element>, at: nat)
    requires DirsClash(es) && at < |es| && es[at].content.Pack?
    ensures DirsClash(Remove(es, at))
  {
    var i, j :| 0 <= i < j < |es| && es[i].content.Dir? && Clash(es[i].content, es[j].content);
    assert es[j].content.Dir?;
    hide Remove, Clash;
    var i', j' := if i < at then i else i - 1, if j < at then j else j - 1;
    RemovedAt(es, at, i');
    RemovedAt(es, at, j');
  }

  /** Packs come and go without mending a clash of directories. */
  lemma {:induction false} AddPacksKeepsDirsClash(es: seq<Element>, dir: string, iwds: seq<Iwd>)
    requires DirsClash(es)
    ensures DirsClash(AddPacks(es, dir, iwds))
    decreases |iwds|
  {
    if iwds != [] {
      var e := PackElement(iwds[0], dir);
      var at := FirstClash(es, e.content);
      assert at < |es| ==> es[at].content.Pack?;
      hide DirsClash, Insert, Remove, FirstClash, PackElement;
      if at < |es| {
        RemovePackKeepsDirsClash(es, at);
      }
      InsertKeepsDirsClash(if at < |es| then Remove(es, at) else es, e);
      AddPacksKeepsDirsClash(AddPack(es, e), dir, iwds[1..]);
    }
  }

  lemma DirsClashIsClash(es: seq<Element>)
    requires DirsClash(es)
    ensures !NoClash(es)
  {
  }

  /** The request leaves the list alone, or what it stores is new. */
  predicate StoresNew(es: seq<Element>, r: Request) {
    !Adds(es, r) || IsFree(es, DirElement(r).content)
  }

  /** Adding a directory keeps the search path well formed exactly if what it stores, if anything, is new. */
  lemma AddDirectoryWellFormedIff(es: seq<Element>, r: Request)
    requires WellFormed(es)
    ensures WellFormed(AddDirectory(es, r)) <==> StoresNew(es, r)
  {
    hide Insert, GameDir, Clash, NoClash, LocalizedLast, DirsClash, Adds, IsFree;
    var e := DirElement(r);
    if Adds(es, r) {
      InsertKeepsOrder(es, e);
      InsertMakesNoClashIff(es, e);
      if IsFree(es, e.content) {
        AddPacksKeepsWellFormed(Insert(es, e), GameDir(r), r.iwds);
      } else {
        InsertMakesDirsClash(es, e);
        AddPacksKeepsDirsClash(Insert(es, e), GameDir(r), r.iwds);
        DirsClashIsClash(AddDirectory(es, r));
      }
    }
  }

  /** With a path that fits its field, what is stored is what was looked for. */
  lemma FittingPathStoresNew(es: seq<Element>, r: Request)
    requires |r.path| < MAX_OSPATH
    ensures StoresNew(es, r)
  {
  }

  // ---- runs ----

  datatype Step = AddDir(request: Request) | AddIwd(iwd: Iwd, dir: string) | Shutdown(at: nat)

  function Apply(es: seq<Element>, step: Step): seq<Element> {
    match step
    case AddDir(r) => AddDirectory(es, r)
    case AddIwd(iwd, dir) => AddPack(es, PackElement(iwd, dir))
    case Shutdown(at) => if at < |es| then Remove(es, at) else es
  }

  function Run(es: seq<Element>, steps: seq<Step>): seq<Element>
    decreases |steps|
  {
    if steps == [] then es else Run(Apply(es, steps[0]), steps[1..])
  }

  /** The list is well formed now and after every step of the run. */
  predicate AlwaysWellFormed(es: seq<Element>, steps: seq<Step>)
    decreases |steps|
  {
    WellFormed(es) && (steps == [] || AlwaysWellFormed(Apply(es, steps[0]), steps[1..]))
  }

  /** Every directory the run adds is stored as something new. */
  predicate AllStoreNew(es: seq<Element>, steps: seq<Step>)
    decreases |steps|
  {
    || steps == []
    || ((steps[0].AddDir? ==> StoresNew(es, steps[0].request)) && AllStoreNew(Apply(es, steps[0]), steps[1..]))
  }

  lemma StepWellFormedIff(es: seq<Element>, step: Step)
    requires WellFormed(es)
    ensures WellFormed(Apply(es, step)) <==> (step.AddDir? ==> StoresNew(es, step.request))
  {
    hide WellFormed, AddDirectory, AddPack, Remove, StoresNew;
    match step {
      case AddDir(r) => AddDirectoryWellFormedIff(es, r);
      case AddIwd(iwd, dir) => AddPackKeepsWellFormed(es, PackElement(iwd, dir));
      case Shutdown(at) => if at < |es| { RemoveKeepsWellFormed(es, at); }
    }
  }

  /** A run of additions and removals keeps the search path well formed throughout exactly if every directory is stored as new. */
  lemma {:induction false} RunWellFormedIff(es: seq<Element>, steps: seq<Step>)
    requires WellFormed(es)
    ensures AlwaysWellFormed(es, steps) <==> AllStoreNew(es, steps)
    decreases |steps|
  {
    if steps != [] {
      hide WellFormed, Apply, StoresNew;
      StepWellFormedIff(es, steps[0]);
      var next := Apply(es, steps[0]);
      if WellFormed(next) {
        RunWellFormedIff(next, steps[1..]);
      }
    }
  }

  /** The caller's check: every directory path fits the field it is stored in. */
  predicate PathsFit(steps: seq<Step>) {
    forall i :: 0 <= i < |steps| && steps[i].AddDir? ==> |steps[i].request.path| < MAX_OSPATH
  }

  lemma {:induction false} FittingPathsStoreNew(es: seq<Element>, steps: seq<Step>)
    requires PathsFit(steps)
    ensures AllStoreNew(es, steps)
    decreases |steps|
  {
    if steps != [] {
      hide Apply, StoresNew;
      if steps[0].AddDir? {
        FittingPathStoresNew(es, steps[0].request);
      }
      FittingPathsStoreNew(Apply(es, steps[0]), steps[1..]);
    }
  }

  lemma {:induction false} AlwaysAtTheEnd(es: seq<Element>, steps: seq<Step>)
    requires AlwaysWellFormed(es, steps)
    ensures WellFormed(Run(es, steps))
    decreases |steps|
  {
    if steps != [] {
      hide WellFormed, Apply;
      AlwaysAtTheEnd(Apply(es, steps[0]), steps[1..]);
    }
  }

  /** Every run with fitting paths keeps the search path well formed. */
  lemma RunKeepsWellFormed(es: seq<Element>, steps: seq<Step>)
    requires WellFormed(es) && PathsFit(steps)
    ensures AlwaysWellFormed(es, steps) && WellFormed(Run(es, steps))
  {
    hide WellFormed, PathsFit, AllStoreNew, AlwaysWellFormed;
    FittingPathsStoreNew(es, steps);
    RunWellFormedIff(es, steps);
    AlwaysAtTheEnd(es, steps);
  }

  // ---- paths that do not fit ----

  predicate FitsField(c: Content) {
    c.Dir? ==> |c.path| < MAX_OSPATH
  }

  /** Directory paths as they can be stored. */
  predicate Stored(es: seq<Element>) {
    forall i :: 0 <= i < |es| ==> FitsField(es[i].content)
  }

  /** A path that does not fit is never found again. */
  lemma LongPathIsNew(es: seq<Element>, r: Request)
    requires Stored(es) && |r.path| >= MAX_OSPATH
    ensures IsNew(es, r)
  {
  }

  function Plain(path: string, dir: string): Request {
    Request(path, dir, false, 0, "", false, [])
  }

  /** Adding the same directory twice: the second time is without effect exactly if the path fits. */
  lemma AddedTwiceIff(es: seq<Element>, path: string, dir: string)
    requires WellFormed(es) && Stored(es)
    ensures WellFormed(Run(es, [AddDir(Plain(path, dir)), AddDir(Plain(path, dir))])) <==> |path| < MAX_OSPATH
  {
    var r := Plain(path, dir);
    var steps := [AddDir(r), AddDir(r)];
    var once := AddDirectory(es, r);
    var twice := AddDirectory(once, r);
    assert steps[1..] == [AddDir(r)] && steps[1..][1..] == [];
    assert Run(es, steps) == twice by {
      hide AddDirectory;
      assert Run(once, [AddDir(r)]) == Run(twice, []);
    }
    if |path| < MAX_OSPATH {
      hide AddDirectory, WellFormed, StoresNew;
      FittingPathStoresNew(es, r);
      FittingPathStoresNew(once, r);
      AddDirectoryWellFormedIff(es, r);
      AddDirectoryWellFormedIff(once, r);
    } else {
      hide Insert, Clash, GameDir, IsFree, DirsClash, NoClash, LocalizedLast, IsNew;
      LongPathIsNew(es, r);
      assert once == Insert(es, DirElement(r));
      InsertKeepsStored(es, DirElement(r));
      LongPathIsNew(once, r);
      assert twice == Insert(once, DirElement(r));
      InsertedIsThere(es, DirElement(r));
      InsertMakesDirsClash(once, DirElement(r));
      DirsClashIsClash(twice);
    }
  }

  lemma InsertKeepsStored(es: seq<Element>, e: Element)
    requires Stored(es) && FitsField(e.content)
    ensures Stored(Insert(es, e))
  {
    hide Insert, FirstLocalized, FitsField;
    forall i | 0 <= i < |Insert(es, e)|
      ensures FitsField(Insert(es, e)[i].content)
    {
      InsertedAt(es, e, i);
    }
  }

  lemma AddPackKeepsStored(es: seq<Element>, e: Element)
    requires Stored(es) && FitsField(e.content)
    ensures Stored(AddPack(es, e))
  {
    hide Insert, FirstClash, FitsField;
    var at := FirstClash(es, e.content);
    InsertKeepsStored(if at < |es| then Remove(es, at) else es, e);
  }

  lemma {:induction false} AddPacksKeepsStored(es: seq<Element>, dir: string, iwds: seq<Iwd>)
    requires Stored(es)
    ensures Stored(AddPacks(es, dir, iwds))
    decreases |iwds|
  {
    if iwds != [] {
      hide AddPack, Stored;
      AddPackKeepsStored(es, PackElement(iwds[0], dir));
      AddPacksKeepsStored(AddPack(es, PackElement(iwds[0], dir)), dir, iwds[1..]);
    }
  }

  /** Whatever is asked for, only paths that fit end up in the list. */
  lemma {:induction false} RunKeepsStored(es: seq<Element>, steps: seq<Step>)
    requires Stored(es)
    ensures Stored(Run(es, steps))
    decreases |steps|
  {
    if steps != [] {
      match steps[0] {
        case AddDir(r) =>
          if Adds(es, r) {
            hide Insert, GameDir;
            InsertKeepsStored(es, DirElement(r));
            AddPacksKeepsStored(Insert(es, DirElement(r)), GameDir(r), r.iwds);
          }
        case AddIwd(iwd, dir) => AddPackKeepsStored(es, PackElement(iwd, dir));
        case Shutdown(at) =>
      }
      hide Stored, Apply;
      RunKeepsStored(Apply(es, steps[0]), steps[1..]);
    }
  }

  // ---- the list ----

  class Node {
    const element: Element

    constructor (element: Element)
      ensures this.element == element
    {
      this.element := element;
    }
  }

  function Elements(nodes: seq<Node>): (es: seq<Element>)
    ensures |es| == |nodes| && forall i :: 0 <= i < |nodes| ==> es[i] == nodes[i].element
  {
    seq(|nodes|, i requires 0 <= i < |nodes| => nodes[i].element)
  }

  predicate CStrings(c: Content) {
    match c
    case Dir(path, gamedir) => IsCString(path) && IsCString(gamedir)
    case Pack(basename, _) => IsCString(basename)
  }

  class FileSystem {
    var searchpaths: seq<Node>
    /** fs_gamedir: the directory that files are written to. */
    var gamedir: string

    ghost predicate Valid()
      reads this
    {
      && (forall i, j :: 0 <= i < j < |searchpaths| ==> searchpaths[i] != searchpaths[j])
      && (forall i :: 0 <= i < |searchpaths| ==> CStrings(searchpaths[i].element.content))
    }

    constructor ()
      ensures Valid() && searchpaths == []
    {
      searchpaths, gamedir := [], "";
    }

    /** FS_ShutdownSearchpath: unlink one entry, if it is in the list. */
    method ShutdownSearchpath(clear: Node)
      requires Valid()
      modifies this`searchpaths
      ensures Valid()
      ensures clear !in old(searchpaths) ==> searchpaths == old(searchpaths)
      ensures forall k :: 0 <= k < |old(searchpaths)| && old(searchpaths)[k] == clear
                ==> Elements(searchpaths) == Remove(Elements(old(searchpaths)), k)
    {
      hide CStrings;
      var back := 0;
      while true
        invariant 0 <= back <= |searchpaths| && searchpaths == old(searchpaths)
        invariant forall i :: 0 <= i < back ==> searchpaths[i] != clear
        decreases |searchpaths| - back
      {
        if back == |searchpaths| {
          return;
        }
        if searchpaths[back] == clear {
          searchpaths := searchpaths[..back] + searchpaths[back + 1..];
          assert Elements(searchpaths) == Remove(Elements(old(searchpaths)), back);
          return;
        }
        back := back + 1;
      }
    }

    /** Link a new entry in where its kind belongs. */
    method Link(search: Node)
      requires Valid() && search !in searchpaths && CStrings(search.element.content)
      modifies this`searchpaths
      ensures Valid() && Elements(searchpaths) == Insert(Elements(old(searchpaths)), search.element)
    {
      hide CStrings, FirstLocalized;
      var prev := 0;
      if search.element.localized {
        while prev < |searchpaths| && !searchpaths[prev].element.localized
          invariant 0 <= prev <= |searchpaths|
          invariant forall i :: 0 <= i < prev ==> !searchpaths[i].element.localized
        {
          prev := prev + 1;
        }
        FirstLocalizedIs(Elements(searchpaths), prev);
      }
      ghost var es := Elements(searchpaths);
      searchpaths := searchpaths[..prev] + [search] + searchpaths[prev..];
      assert Elements(searchpaths) == es[..prev] + [search.element] + es[prev..];
    }

    lemma FirstLocalizedIs(es: seq<Element>, at: nat)
      requires at <= |es| && (forall i :: 0 <= i < at ==> !es[i].localized) && (at < |es| ==> es[at].localized)
      ensures FirstLocalized(es) == at
    {
      hide FirstLocalized;
    }

    /** The test whether a directory is there already. */
    method HasDirectory(path: string, dir: string) returns (found: bool)
      requires Valid() && IsCString(path) && IsCString(dir)
      ensures found <==> !IsFree(Elements(searchpaths), Dir(path, dir))
    {
      hide SameIgnoringCase;
      for i := 0 to |searchpaths|
        invariant forall j :: 0 <= j < i ==> !Clash(searchpaths[j].element.content, Dir(path, dir))
      {
        match searchpaths[i].element.content {
          case Dir(p, g) =>
            var c := Stricmp(p, path);
            if c == 0 {
              c := Stricmp(g, dir);
              if c == 0 {
                assert Clash(Elements(searchpaths)[i].content, Dir(path, dir));
                return true;
              }
            }
          case Pack(_, _) =>
        }
      }
      found := false;
    }

    /** Remove the first pack of the same base name, if there is one. */
    method ShutdownSameName(c: Content)
      requires Valid() && c.Pack? && CStrings(c)
      modifies this`searchpaths
      ensures Valid()
      ensures (var es := Elements(old(searchpaths));
               var at := FirstClash(es, c);
               Elements(searchpaths) == if at < |es| then Remove(es, at) else es)
    {
      hide SameIgnoringCase, Remove;
      for i := 0 to |searchpaths|
        invariant searchpaths == old(searchpaths) && Valid()
        invariant forall j :: 0 <= j < i ==> !Clash(searchpaths[j].element.content, c)
      {
        match searchpaths[i].element.content {
          case Pack(n, _) =>
            var r := Stricmp(n, c.basename);
            if r == 0 {
              FirstClashIs(Elements(searchpaths), c, i);
              ShutdownSearchpath(searchpaths[i]);
              return;
            }
          case Dir(_, _) =>
        }
      }
      FirstClashIs(Elements(searchpaths), c, |searchpaths|);
    }

    lemma FirstClashIs(es: seq<Element>, c: Content, at: nat)
      requires at <= |es| && (forall i :: 0 <= i < at ==> !Clash(es[i].content, c))
      requires at < |es| ==> Clash(es[at].content, c)
      ensures FirstClash(es, c) == at
    {
      hide FirstClash, Clash;
    }

    /** The loop of FS_AddIwdFilesForGameDirectory over the pack files that could be loaded. */
    method AddIwdFiles(dir: string, iwds: seq<Iwd>)
      requires Valid() && forall i :: 0 <= i < |iwds| ==> IsCString(iwds[i].file)
      modifies this`searchpaths
      ensures Valid() && Elements(searchpaths) == AddPacks(Elements(old(searchpaths)), dir, iwds)
    {
      hide CStrings, AddPack, PackElement, IsCString;
      for i := 0 to |iwds|
        invariant Valid()
        invariant AddPacks(Elements(searchpaths), dir, iwds[i..]) == AddPacks(Elements(old(searchpaths)), dir, iwds)
      {
        assert iwds[i..][1..] == iwds[i + 1..];
        AddIwdFile(dir, iwds[i]);
      }
    }

    method AddIwdFile(dir: string, iwd: Iwd)
      requires Valid() && IsCString(iwd.file)
      modifies this`searchpaths
      ensures Valid() && Elements(searchpaths) == AddPack(Elements(old(searchpaths)), PackElement(iwd, dir))
    {
      hide Insert, Remove, FirstClash;
      var pak := PackElement(iwd, dir);
      assert IsCString(BaseName(iwd.file));
      hide PackElement;
      ShutdownSameName(pak.content);
      var search := new Node(pak);
      Link(search);
    }

    /** FS_AddGameDirectory_Single. */
    method AddGameDirectorySingle(r: Request)
      requires Valid() && IsCString(r.path) && IsCString(r.dirNoLocal) && IsCString(r.language)
      requires forall i :: 0 <= i < |r.iwds| ==> IsCString(r.iwds[i].file)
      modifies this
      ensures Valid() && Elements(searchpaths) == AddDirectory(Elements(old(searchpaths)), r)
      ensures gamedir == if !r.localized && IsNew(Elements(old(searchpaths)), r) then GameDir(r) else old(gamedir)
      ensures old(WellFormed(Elements(searchpaths))) ==>
                (WellFormed(Elements(searchpaths)) <==> StoresNew(Elements(old(searchpaths)), r))
    {
      hide Insert, AddPacks, WellFormed, IsFree, StoresNew;
      if WellFormed(Elements(searchpaths)) {
        AddDirectoryWellFormedIff(Elements(searchpaths), r);
      }
      var dir;
      if r.localized {
        dir := Truncate(r.dirNoLocal + "/" + r.language, MAX_QPATH);
      } else {
        dir := Truncate(r.dirNoLocal, MAX_QPATH);
      }
      var found := HasDirectory(r.path, dir);
      if found {
        return;
      }
      if r.localized {
        if !r.hasContent {
          return;
        }
      } else {
        gamedir := Truncate(dir, 256);
      }
      var search := new Node(Element(Dir(Truncate(r.path, MAX_OSPATH), Truncate(dir, MAX_OSPATH)), r.localized, r.index));
      Link(search);
      AddIwdFiles(dir, r.iwds);
    }
  }
}
