/** The variable index (cvar.c): a static table, a list through it, and 512 hash chains through it. */
module CvarIndex {
  import opened Ascii
  import opened HashChain
  import opened MachineWord

  const MAX_CVARS := 8192
  const FILE_HASH_SIZE := 512

  const CVAR_ROM: bv16 := 64
  const CVAR_CHEAT: bv16 := 128
  const CVAR_USER_CREATED: bv16 := 16384

  datatype CvarType = Bool | Float | Vec2 | Vec3 | Vec4 | Int | Enum | String | Color

  function Common(a: bv16, b: bv16): bv16 {
    a & b
  }

  predicate HasFlag(flags: bv16, flag: bv16) {
    Common(flags, flag) != 0
  }

  function WithFlags(flags: bv16, more: bv16): bv16 {
    flags | more
  }

  function WithoutFlag(flags: bv16, flag: bv16): bv16 {
    flags & !flag
  }

  // ---- the hash ----

  function LetterSum(name: string): int {
    WeightedSum(Lower(name), |name|)
  }

  function Hash(name: string): (slot: nat)
    ensures slot < FILE_HASH_SIZE
  {
    And(LetterSum(name) % WORD, FILE_HASH_SIZE - 1)
  }

  /** generateHashValue. */
  method GenerateHashValue(name: string) returns (hash: nat)
    requires '\0' !in name
    ensures hash == Hash(name)
  {
    var sum, i := 0, 0;
    while i < |name|
      invariant i <= |name| && sum == WeightedSum(Lower(name), i)
    {
      var letter := ToLower(name[i]);
      sum := sum + Value(letter) * (i + 119);
      i := i + 1;
    }
    hash := And(sum % WORD, FILE_HASH_SIZE - 1);
  }

  /** The wrap-around of the sum does not show: the slot is the remainder of the sum itself. */
  lemma HashIsRemainder(name: string)
    ensures Hash(name) == LetterSum(name) % FILE_HASH_SIZE
  {
    hide LetterSum, IsPowerOfTwo, And;
    SizeIsPowerOfTwo();
    MaskIsRemainder(LetterSum(name) % WORD, FILE_HASH_SIZE);
  }

  lemma SizeIsPowerOfTwo()
    ensures IsPowerOfTwo(FILE_HASH_SIZE)
  {
    assert IsPowerOfTwo(1);
    hide IsPowerOfTwo;
    var n := 1;
    while n < FILE_HASH_SIZE
      invariant IsPowerOfTwo(n) && n in {1, 2, 4, 8, 16, 32, 64, 128, 256, 512}
      decreases FILE_HASH_SIZE - n
    {
      DoublePower(n);
      n := n * 2;
    }
  }

  /** Comparing upper-cases and hashing lower-cases, yet names that compare equal have the same hash. */
  lemma SameNameSameHash(a: string, b: string)
    requires SameIgnoringCase(a, b)
    ensures Hash(a) == Hash(b)
  {
    assert forall i :: 0 <= i < |a| ==> Lower(a)[i] == Lower(b)[i];
    SameLettersSameSum(Lower(a), Lower(b), |a|);
  }

  // ---- the variables as a list of entries ----

  /** The three texts of a string variable. */
  datatype Text = Text(current: string, reset: string, latched: string)

  const NO_TEXT := Text("", "", "")

  datatype Entry = Entry(name: string, kind: CvarType, flags: bv16, text: Text)

  function Wanted(entries: seq<Entry>, name: string): (wanted: seq<bool>)
    ensures |wanted| == |entries|
    ensures forall i :: 0 <= i < |entries| ==> wanted[i] == SameIgnoringCase(name, entries[i].name)
  {
    seq(|entries|, i requires 0 <= i < |entries| => SameIgnoringCase(name, entries[i].name))
  }

  function Slots(entries: seq<Entry>): (slots: seq<nat>)
    ensures |slots| == |entries| && forall i :: 0 <= i < |entries| ==> slots[i] == Hash(entries[i].name)
  {
    seq(|entries|, i requires 0 <= i < |entries| => Hash(entries[i].name))
  }

  /** The newest variable of that name in any letter case, or -1. */
  function Find(entries: seq<Entry>, name: string): (r: int)
    ensures -1 <= r < |entries|
    ensures r >= 0 ==> SameIgnoringCase(name, entries[r].name)
    ensures forall j :: r < j < |entries| ==> !SameIgnoringCase(name, entries[j].name)
  {
    LastTrue(Wanted(entries, name), |entries|)
  }

  /** No two variables have the same name. */
  ghost predicate Distinct(entries: seq<Entry>) {
    forall i, j :: 0 <= i < j < |entries| ==> !SameIgnoringCase(entries[i].name, entries[j].name)
  }

  /** The chain of the name's slot is enough. */
  lemma HitIsFind(entries: seq<Entry>, name: string)
    ensures LastWanted(Slots(entries), Wanted(entries, name), |entries|, Hash(name)) == Find(entries, name)
  {
    hide Hash, SameIgnoringCase, LastTrue, LastWanted;
    var at := LastTrue(Wanted(entries, name), |entries|);
    if at >= 0 {
      SameNameSameHash(name, entries[at].name);
    }
    ChainIsEnoughIff(Slots(entries), Wanted(entries, name), |entries|, Hash(name));
  }

  /** The first index in a list that is wanted, or -1. */
  function FirstWanted(list: seq<int>, wanted: seq<bool>): int
    requires forall i :: 0 <= i < |list| ==> 0 <= list[i] < |wanted|
  {
    if list == [] then -1
    else if wanted[list[0]] then list[0]
    else FirstWanted(list[1..], wanted)
  }

  /** The indices below `n`, newest first: what the list of all variables holds. */
  function Newest(n: nat): (list: seq<int>)
    ensures |list| == n && forall i :: 0 <= i < n ==> list[i] == n - 1 - i
  {
    if n == 0 then [] else [n - 1] + Newest(n - 1)
  }

  lemma {:induction false} ScanIsLastTrue(wanted: seq<bool>, n: nat)
    requires n <= |wanted|
    ensures FirstWanted(Newest(n), wanted) == LastTrue(wanted, n)
  {
    if n > 0 {
      hide Newest;
      assert Newest(n)[1..] == Newest(n - 1);
      ScanIsLastTrue(wanted, n - 1);
    }
  }

  // ---- registering, on the list of entries ----

  /** The first three return the variable; the others end the program. */
  datatype Outcome = Added(at: nat) | Replaced(at: nat) | Merged(at: nat) | InvalidVar | OtherType | TooMany {
    predicate Registered() {
      Added? || Replaced? || Merged?
    }
  }

  /** Cvar_ValidateString. */
  predicate ValidName(name: string) {
    '\\' !in name && '"' !in name && ';' !in name
  }

  /** What is asked for; `validValue` says whether the value passed its type's checks. */
  datatype Request = Request(name: string, kind: CvarType, flags: bv16, value: string, validValue: bool, cheating: bool)

  /** A variable set up from the request alone. */
  function FreshEntry(r: Request): Entry {
    Entry(r.name, r.kind, r.flags, if r.kind == String then Text(r.value, r.value, r.value) else NO_TEXT)
  }

  /** The new value only becomes the reset value; the latched one is taken now. */
  function MergedText(was: Text, r: Request): Text {
    if r.kind == String then Text(was.latched, r.value, was.latched) else NO_TEXT
  }

  /** A variable that a user made up gives way to one that users may not set. */
  predicate Replaces(r: Request, was: Entry) {
    && (HasFlag(r.flags, CVAR_ROM) || (HasFlag(r.flags, CVAR_CHEAT) && !r.cheating))
    && HasFlag(was.flags, CVAR_USER_CREATED)
  }

  /** Flags add up, but a variable the program registers is no longer a user's. */
  function MergedFlags(was: bv16, flags: bv16): bv16 {
    var kept := if HasFlag(was, CVAR_USER_CREATED) && !HasFlag(flags, CVAR_USER_CREATED)
                then WithoutFlag(was, CVAR_USER_CREATED) else was;
    WithFlags(kept, flags)
  }

  /** Registering the variable `was`, which is there already. */
  function Reregister(was: Entry, at: nat, r: Request): (Outcome, Entry) {
    if Replaces(r, was) then (Replaced(at), FreshEntry(r))
    else if was.kind != r.kind && !HasFlag(was.flags, CVAR_USER_CREATED) then (OtherType, was)
    else (Merged(at), Entry(was.name, r.kind, MergedFlags(was.flags, r.flags), MergedText(was.text, r)))
  }

  function Register(entries: seq<Entry>, r: Request): (Outcome, seq<Entry>) {
    var at := Find(entries, r.name);
    if !ValidName(r.name) || !r.validValue then (InvalidVar, entries)
    else if at < 0 then
      if |entries| >= MAX_CVARS then (TooMany, entries)
      else (Added(|entries|), entries + [FreshEntry(r)])
    else
      var (outcome, e) := Reregister(entries[at], at, r);
      (outcome, entries[at := e])
  }

  /** Registering never makes two variables of one name, and never more than there is room for. */
  lemma RegisterKeepsDistinct(entries: seq<Entry>, r: Request)
    requires Distinct(entries) && |entries| <= MAX_CVARS
    ensures Distinct(Register(entries, r).1) && |Register(entries, r).1| <= MAX_CVARS
  {
    hide Replaces, HasFlag, MergedFlags, MergedText, ValidName;
    var at := Find(entries, r.name);
    if at >= 0 {
      assert forall j :: 0 <= j < |entries| && j != at ==> !SameIgnoringCase(r.name, entries[j].name);
    }
  }

  /** After a registration the name leads to the variable registered, and every other name to what it led to. */
  lemma RegisteredIsFound(entries: seq<Entry>, r: Request, other: string)
    requires Distinct(entries) && Register(entries, r).0.Registered()
    ensures Find(Register(entries, r).1, r.name) == Register(entries, r).0.at
    ensures Register(entries, r).1[Register(entries, r).0.at].kind == r.kind
    ensures !SameIgnoringCase(other, r.name) ==> Find(Register(entries, r).1, other) == Find(entries, other)
    ensures forall j :: 0 <= j < |entries| && j != Register(entries, r).0.at ==> Register(entries, r).1[j] == entries[j]
  {
    hide Replaces, HasFlag, MergedFlags, MergedText, ValidName, Find;
    var at, entries' := Register(entries, r).0.at, Register(entries, r).1;
    assert SameIgnoringCase(r.name, entries'[at].name);
    assert forall j :: 0 <= j < |entries| && j != at ==> !SameIgnoringCase(r.name, entries[j].name);
    FindIs(entries', r.name, at);
    if !SameIgnoringCase(other, r.name) {
      assert !SameIgnoringCase(other, entries'[at].name);
      assert at < |entries| ==> !SameIgnoringCase(other, entries[at].name);
      FindIs(entries', other, Find(entries, other));
    }
  }

  lemma FindIs(entries: seq<Entry>, name: string, at: int)
    requires -1 <= at < |entries| && (at >= 0 ==> SameIgnoringCase(name, entries[at].name))
    requires forall j :: at < j < |entries| ==> !SameIgnoringCase(name, entries[j].name)
    ensures Find(entries, name) == at
  {
    hide SameIgnoringCase, LastTrue;
  }

  /**
   * A variable that is there is replaced exactly if it is a user's and the program now registers it as
   * read-only, or as a cheat while cheats are off.
   */
  lemma ReplacedIff(entries: seq<Entry>, r: Request)
    requires ValidName(r.name) && r.validValue && Find(entries, r.name) >= 0
    ensures Register(entries, r).0.Replaced?
       <==> && HasFlag(entries[Find(entries, r.name)].flags, CVAR_USER_CREATED)
            && (HasFlag(r.flags, CVAR_ROM) || (HasFlag(r.flags, CVAR_CHEAT) && !r.cheating))
  {
    hide HasFlag, Find, MergedFlags, MergedText;
  }

  /** A string variable that is there takes the requested value exactly if it is replaced or had that value latched. */
  lemma ValueIsSetIff(entries: seq<Entry>, r: Request)
    requires Find(entries, r.name) >= 0 && r.kind == String && Register(entries, r).0.Registered()
    ensures (var at := Find(entries, r.name);
             var after := Register(entries, r).1[at].text;
             && after.reset == r.value
             && after.current == after.latched
             && (after.current == r.value <==> Replaces(r, entries[at]) || entries[at].text.latched == r.value)
             && (!Replaces(r, entries[at]) ==> after.current == entries[at].text.latched))
  {
    hide HasFlag, Find, MergedFlags;
  }

  /** A variable that is added or replaced is as the request says; a string variable has the value in all three texts. */
  lemma SetUpAsRequested(entries: seq<Entry>, r: Request)
    requires Register(entries, r).0.Added? || Register(entries, r).0.Replaced?
    ensures (var e := Register(entries, r).1[Register(entries, r).0.at];
             && e.name == r.name && e.kind == r.kind && e.flags == r.flags
             && (r.kind == String ==> e.text.current == e.text.reset == e.text.latched == r.value))
  {
    hide Find, Replaces, MergedFlags, MergedText, ValidName;
  }

  /** Of a merged variable's flags: it is a user's exactly if registered as one; every other flag is kept or added. */
  lemma MergedFlagsAre(entries: seq<Entry>, r: Request, flag: bv16)
    requires Find(entries, r.name) >= 0 && Register(entries, r).0.Merged?
    ensures (var at := Find(entries, r.name);
             var before, after := entries[at].flags, Register(entries, r).1[at].flags;
             && (HasFlag(after, CVAR_USER_CREATED) <==> HasFlag(r.flags, CVAR_USER_CREATED))
             && (Common(flag, CVAR_USER_CREATED) == 0 ==> (HasFlag(after, flag) <==> HasFlag(before, flag) || HasFlag(r.flags, flag))))
  {
    hide Find, MergedText, ValidName, HasFlag, MergedFlags;
    MergedBits(entries[Find(entries, r.name)].flags, r.flags, flag);
  }

  lemma MergedBits(was: bv16, flags: bv16, flag: bv16)
    ensures HasFlag(MergedFlags(was, flags), CVAR_USER_CREATED) <==> HasFlag(flags, CVAR_USER_CREATED)
    ensures Common(flag, CVAR_USER_CREATED) == 0 ==>
              (HasFlag(MergedFlags(was, flags), flag) <==> HasFlag(was, flag) || HasFlag(flags, flag))
  {
    hide HasFlag, WithFlags, WithoutFlag;
    var less := WithoutFlag(was, CVAR_USER_CREATED);
    FlagTaken(was, CVAR_USER_CREATED, flag);
    FlagsAdded(was, flags, flag);
    FlagsAdded(less, flags, flag);
    FlagsAdded(was, flags, CVAR_USER_CREATED);
    FlagsAdded(less, flags, CVAR_USER_CREATED);
  }

  lemma FlagsAdded(flags: bv16, more: bv16, flag: bv16)
    ensures HasFlag(WithFlags(flags, more), flag) <==> HasFlag(flags, flag) || HasFlag(more, flag)
  {
    hide Common, WithFlags;
    Distributes(flags, more, flag);
    NotZero(Common(flags, flag), Common(more, flag));
  }

  lemma Distributes(a: bv16, b: bv16, c: bv16)
    ensures Common(WithFlags(a, b), c) == WithFlags(Common(a, c), Common(b, c))
  {
  }

  lemma NotZero(a: bv16, b: bv16)
    ensures WithFlags(a, b) != 0 <==> a != 0 || b != 0
  {
  }

  lemma FlagTaken(flags: bv16, taken: bv16, flag: bv16)
    ensures !HasFlag(WithoutFlag(flags, taken), taken)
    ensures Common(flag, taken) == 0 ==> (HasFlag(WithoutFlag(flags, taken), flag) <==> HasFlag(flags, flag))
  {
  }

  /** Types clash exactly for a variable of the program's own that is there with another type. */
  lemma OtherTypeIff(entries: seq<Entry>, r: Request)
    ensures Register(entries, r).0.OtherType?
       <==> && ValidName(r.name) && r.validValue && Find(entries, r.name) >= 0
            && entries[Find(entries, r.name)].kind != r.kind && !HasFlag(entries[Find(entries, r.name)].flags, CVAR_USER_CREATED)
    ensures Register(entries, r).0.OtherType? ==> Register(entries, r).1 == entries
  {
    hide Find, MergedFlags, MergedText, ValidName;
  }

  /** A user's variable that becomes a cheat loses its value, without being read-only. */
  lemma CheatReplaces()
    ensures (var entries := [Entry("sv_x", String, CVAR_USER_CREATED, Text("1", "1", "1"))];
             var r := Request("SV_X", String, CVAR_CHEAT, "0", true, false);
             !HasFlag(r.flags, CVAR_ROM) && Register(entries, r) == (Replaced(0), [FreshEntry(r)]))
  {
    var entries := [Entry("sv_x", String, CVAR_USER_CREATED, Text("1", "1", "1"))];
    SameLetters();
    FindIs(entries, "SV_X", 0);
    hide Find, SameIgnoringCase;
    var r := Request("SV_X", String, CVAR_CHEAT, "0", true, false);
    assert entries[0 := FreshEntry(r)] == [FreshEntry(r)];
  }

  /** A variable of the program's own keeps its value even when it becomes read-only. */
  lemma ReadOnlyKeeps()
    ensures (var entries := [Entry("sv_x", String, 0, Text("1", "1", "1"))];
             var r := Request("SV_X", String, CVAR_ROM, "0", true, false);
             && Register(entries, r).0 == Merged(0)
             && Register(entries, r).1[0].text == Text("1", "0", "1"))
  {
    var entries := [Entry("sv_x", String, 0, Text("1", "1", "1"))];
    SameLetters();
    FindIs(entries, "SV_X", 0);
    hide Find, SameIgnoringCase;
  }

  lemma SameLetters()
    ensures SameIgnoringCase("SV_X", "sv_x")
  {
  }

  /** Any series of requests, ignoring the outcomes that end the program. */
  function RegisterAll(entries: seq<Entry>, requests: seq<Request>): seq<Entry>
    decreases |requests|
  {
    if requests == [] then entries else RegisterAll(Register(entries, requests[0]).1, requests[1..])
  }

  lemma {:induction false} RunsKeepDistinct(entries: seq<Entry>, requests: seq<Request>)
    requires Distinct(entries) && |entries| <= MAX_CVARS
    ensures Distinct(RegisterAll(entries, requests)) && |RegisterAll(entries, requests)| <= MAX_CVARS
    decreases |requests|
  {
    if requests != [] {
      RegisterKeepsDistinct(entries, requests[0]);
      hide Register, Distinct;
      RunsKeepDistinct(Register(entries, requests[0]).1, requests[1..]);
    }
  }

  // ---- the index ----

  /** A slot of the static table; -1 is the null link. */
  datatype Cvar = Cvar(entry: Entry, next: int, hashNext: int)

  function EntriesOf(cvars: seq<Cvar>): (entries: seq<Entry>)
    ensures |entries| == |cvars| && forall i :: 0 <= i < |cvars| ==> entries[i] == cvars[i].entry
  {
    seq(|cvars|, i requires 0 <= i < |cvars| => cvars[i].entry)
  }

  function NextOf(cvars: seq<Cvar>): (links: seq<int>)
    ensures |links| == |cvars| && forall i :: 0 <= i < |cvars| ==> links[i] == cvars[i].next
  {
    seq(|cvars|, i requires 0 <= i < |cvars| => cvars[i].next)
  }

  function HashNextOf(cvars: seq<Cvar>): (links: seq<int>)
    ensures |links| == |cvars| && forall i :: 0 <= i < |cvars| ==> links[i] == cvars[i].hashNext
  {
    seq(|cvars|, i requires 0 <= i < |cvars| => cvars[i].hashNext)
  }

  /** The table, its hash chains and its list belong together. */
  ghost predicate Indexed(cvars: seq<Cvar>, heads: seq<int>, vars: int) {
    && |cvars| <= MAX_CVARS && |heads| == FILE_HASH_SIZE
    && Distinct(EntriesOf(cvars))
    && (forall i :: 0 <= i < |cvars| ==> '\0' !in cvars[i].entry.name)
    && Linked(heads, HashNextOf(cvars), Slots(EntriesOf(cvars)))
    && vars == |cvars| - 1
    && (forall i :: 0 <= i < |cvars| ==> cvars[i].next == i - 1)
  }

  lemma EmptyIsIndexed(heads: seq<int>)
    requires |heads| == FILE_HASH_SIZE && forall slot: nat :: slot < |heads| ==> heads[slot] == -1
    ensures Indexed([], heads, -1)
  {
    assert HashNextOf([]) == [] && Slots(EntriesOf([])) == [];
    EmptyIsLinked(heads);
  }

  /** A new variable at the front of the list and of its chain. */
  lemma AppendIsIndexed(cvars: seq<Cvar>, heads: seq<int>, vars: int, e: Entry)
    requires Indexed(cvars, heads, vars) && |cvars| < MAX_CVARS && '\0' !in e.name && Find(EntriesOf(cvars), e.name) < 0
    ensures Indexed(cvars + [Cvar(e, vars, heads[Hash(e.name)])], heads[Hash(e.name) := |cvars|], |cvars|)
    ensures EntriesOf(cvars + [Cvar(e, vars, heads[Hash(e.name)])]) == EntriesOf(cvars) + [e]
  {
    hide Hash, Linked;
    var hash := Hash(e.name);
    var cvars' := cvars + [Cvar(e, vars, heads[hash])];
    assert EntriesOf(cvars') == EntriesOf(cvars) + [e];
    assert HashNextOf(cvars') == HashNextOf(cvars) + [heads[hash]];
    assert Slots(EntriesOf(cvars')) == Slots(EntriesOf(cvars)) + [hash];
    LinkInFront(heads, HashNextOf(cvars), Slots(EntriesOf(cvars)), hash);
    NewNameIsDistinct(EntriesOf(cvars), e);
  }

  lemma NewNameIsDistinct(entries: seq<Entry>, e: Entry)
    requires Distinct(entries) && Find(entries, e.name) < 0
    ensures Distinct(entries + [e])
  {
  }

  /** Rewriting a variable where it stands, under the same name in any letter case, leaves all links right. */
  lemma ReplaceIsIndexed(cvars: seq<Cvar>, heads: seq<int>, vars: int, at: nat, e: Entry)
    requires Indexed(cvars, heads, vars) && at < |cvars| && '\0' !in e.name
    requires SameIgnoringCase(e.name, cvars[at].entry.name)
    ensures Indexed(cvars[at := cvars[at].(entry := e)], heads, vars)
    ensures EntriesOf(cvars[at := cvars[at].(entry := e)]) == EntriesOf(cvars)[at := e]
  {
    hide Hash, Linked;
    var cvars' := cvars[at := cvars[at].(entry := e)];
    assert EntriesOf(cvars') == EntriesOf(cvars)[at := e];
    assert HashNextOf(cvars') == HashNextOf(cvars);
    SameNameSameHash(e.name, cvars[at].entry.name);
    assert Slots(EntriesOf(cvars')) == Slots(EntriesOf(cvars));
    SameNamesStayDistinct(EntriesOf(cvars), at, e);
  }

  lemma SameNamesStayDistinct(entries: seq<Entry>, at: nat, e: Entry)
    requires Distinct(entries) && at < |entries| && SameIgnoringCase(e.name, entries[at].name)
    ensures Distinct(entries[at := e])
  {
  }

  class CvarSystem {
    const indexes: array<Cvar>
    const hashTable: array<int>
    var vars: int
    var numIndexes: nat

    ghost function Cvars(): seq<Cvar>
      reads this, indexes
      requires numIndexes <= indexes.Length
    {
      indexes[..numIndexes]
    }

    ghost function Entries(): seq<Entry>
      reads this, indexes
      requires numIndexes <= indexes.Length
    {
      EntriesOf(Cvars())
    }

    ghost predicate Valid()
      reads this, indexes, hashTable
    {
      && indexes.Length == MAX_CVARS && numIndexes <= MAX_CVARS
      && Indexed(Cvars(), hashTable[..], vars)
    }

    /** The zeroed static storage of the C file. */
    constructor ()
      ensures Valid() && Entries() == [] && fresh(indexes) && fresh(hashTable)
    {
      hide Indexed;
      indexes := new Cvar[MAX_CVARS](_ => Cvar(Entry("", Bool, 0, NO_TEXT), -1, -1));
      hashTable := new int[FILE_HASH_SIZE](_ => -1);
      vars, numIndexes := -1, 0;
      new;
      EmptyIsIndexed(hashTable[..]);
      assert indexes[..0] == [];
    }

    lemma WalkFacts(name: string)
      requires Valid()
      ensures Linked(hashTable[..], HashNextOf(Cvars()), Slots(Entries())) && hashTable.Length == FILE_HASH_SIZE
      ensures forall i :: 0 <= i < numIndexes ==> '\0' !in indexes[i].entry.name
      ensures LastWanted(Slots(Entries()), Wanted(Entries(), name), numIndexes, Hash(name)) == Find(Entries(), name)
    {
      hide Hash, LastWanted, Find, Linked;
      HitIsFind(Entries(), name);
    }

    /** Cvar_FindVar: follow the chain of the name's slot. */
    method FindVar(name: string) returns (at: int)
      requires Valid() && '\0' !in name
      ensures at == Find(Entries(), name)
    {
      hide Hash, SameIgnoringCase, LastIn, LastWanted, Find, Indexed;
      WalkFacts(name);
      ghost var slots, wanted, links := Slots(Entries()), Wanted(Entries(), name), HashNextOf(Cvars());
      var hash := GenerateHashValue(name);
      at := hashTable[hash];
      assert at == hashTable[..][hash];
      ghost var n: nat := numIndexes;
      WalkStep(slots, wanted, n, hash);
      while at != -1
        invariant n <= numIndexes && at == LastIn(slots, n, hash)
        invariant LastWanted(slots, wanted, n, hash) == LastWanted(slots, wanted, numIndexes, hash)
        decreases n
      {
        WalkStep(slots, wanted, n, hash);
        var r := Stricmp(name, indexes[at].entry.name);
        if r == 0 {
          return;
        }
        n := at;
        assert links[at] == indexes[at].hashNext;
        at := indexes[at].hashNext;
      }
      WalkStep(slots, wanted, n, hash);
    }

    /** Following the list of all variables and comparing names gives the same variable. */
    lemma FindIsListScan(name: string)
      requires Valid()
      ensures vars == |NextOf(Cvars())| - 1
      ensures forall k :: 0 <= k < |NextOf(Cvars())| ==> -1 <= NextOf(Cvars())[k] < k
      ensures Chain(NextOf(Cvars()), vars) == Newest(numIndexes)
      ensures Find(Entries(), name) == FirstWanted(Newest(numIndexes), Wanted(Entries(), name))
    {
      ListIsNewest(NextOf(Cvars()), numIndexes);
      ScanIsLastTrue(Wanted(Entries(), name), numIndexes);
    }

    lemma {:induction false} ListIsNewest(links: seq<int>, n: nat)
      requires n <= |links| && forall k :: 0 <= k < |links| ==> links[k] == k - 1
      ensures Chain(links, n - 1) == Newest(n)
    {
      if n > 0 {
        ListIsNewest(links, n - 1);
      }
    }

    /** Every listed variable lies in exactly one chain, that of its own name. */
    lemma EachVarInOneChain(slot: nat)
      requires Valid() && slot < FILE_HASH_SIZE
      ensures Linked(hashTable[..], HashNextOf(Cvars()), Slots(Entries())) && hashTable.Length == FILE_HASH_SIZE
      ensures LiesIn(Chain(HashNextOf(Cvars()), hashTable[slot]), Slots(Entries()), numIndexes, slot)
    {
      hide Hash, LiesIn;
      EachInOneChain(hashTable[..], HashNextOf(Cvars()), Slots(Entries()), slot);
    }

    /** The part of Cvar_Register that takes a new variable from the table and links it in. */
    method LinkNew(e: Entry)
      requires Valid() && numIndexes < MAX_CVARS && '\0' !in e.name && Find(Entries(), e.name) < 0
      modifies this, indexes, hashTable
      ensures Valid() && Entries() == old(Entries()) + [e]
    {
      hide Hash, Indexed, Find;
      HeadsAreThere();
      ghost var cvars, heads := Cvars(), hashTable[..];
      AppendIsIndexed(cvars, heads, vars, e);
      var hash := GenerateHashValue(e.name);
      indexes[numIndexes] := Cvar(e, vars, hashTable[hash]);
      vars := numIndexes;
      hashTable[hash] := numIndexes;
      numIndexes := numIndexes + 1;
      assert Cvars() == cvars + [Cvar(e, |cvars| - 1, heads[hash])];
      assert hashTable[..] == heads[hash := |cvars|];
    }

    lemma HeadsAreThere()
      requires Valid()
      ensures hashTable.Length == FILE_HASH_SIZE && vars == numIndexes - 1
    {
    }

    /** Rewrite a variable where it stands. */
    method Rewrite(at: nat, e: Entry)
      requires Valid() && at < numIndexes && '\0' !in e.name && SameIgnoringCase(e.name, Entries()[at].name)
      modifies indexes
      ensures Valid() && Entries() == old(Entries())[at := e]
    {
      hide Indexed, SameIgnoringCase;
      ghost var cvars := Cvars();
      ReplaceIsIndexed(cvars, hashTable[..], vars, at, e);
      var safenext, safehashNext := indexes[at].next, indexes[at].hashNext;
      indexes[at] := Cvar(e, safenext, safehashNext);
      assert Cvars() == cvars[at := cvars[at].(entry := e)];
    }

    /** What Cvar_Register makes of a variable that is there. */
    static method Update(was: Entry, at: nat, r: Request) returns (outcome: Outcome, e: Entry)
      ensures (outcome, e) == Reregister(was, at, r)
      ensures outcome.Registered() ==> e.name == was.name || e.name == r.name
      ensures !outcome.Registered() ==> outcome == OtherType
    {
      hide HasFlag, WithFlags, WithoutFlag;
      if (HasFlag(r.flags, CVAR_ROM) || (HasFlag(r.flags, CVAR_CHEAT) && !r.cheating))
         && HasFlag(was.flags, CVAR_USER_CREATED) {
        return Replaced(at), FreshEntry(r);
      }
      if was.kind != r.kind && !HasFlag(was.flags, CVAR_USER_CREATED) {
        return OtherType, was;
      }
      var flags := was.flags;
      if HasFlag(flags, CVAR_USER_CREATED) && !HasFlag(r.flags, CVAR_USER_CREATED) {
        flags := WithoutFlag(flags, CVAR_USER_CREATED);
      }
      return Merged(at), Entry(was.name, r.kind, WithFlags(flags, r.flags), MergedText(was.text, r));
    }

    /** The part of Cvar_Register for a variable that is there. */
    method RegisterAgain(at: nat, r: Request) returns (outcome: Outcome)
      requires Valid() && '\0' !in r.name && at < numIndexes && SameIgnoringCase(r.name, Entries()[at].name)
      modifies indexes
      ensures Valid()
      ensures outcome == Reregister(old(Entries())[at], at, r).0
      ensures Entries() == old(Entries())[at := Reregister(old(Entries())[at], at, r).1]
    {
      assert SameIgnoringCase(indexes[at].entry.name, indexes[at].entry.name) && Cvars()[at] == indexes[at];
      assert Reregister(indexes[at].entry, at, r).0.Registered() || Reregister(indexes[at].entry, at, r).1 == indexes[at].entry;
      hide Indexed, SameIgnoringCase, Reregister;
      var e;
      assert Entries()[at] == indexes[at].entry;
      outcome, e := Update(indexes[at].entry, at, r);
      if outcome.Registered() {
        Rewrite(at, e);
      }
    }

    /** Cvar_Register, with values only for string variables. */
    method RegisterVar(r: Request) returns (outcome: Outcome)
      requires Valid() && '\0' !in r.name
      modifies this, indexes, hashTable
      ensures Valid() && (outcome, Entries()) == Register(old(Entries()), r)
    {
      hide Indexed, SameIgnoringCase, Find, ValidName, Reregister, EntriesOf;
      if !ValidName(r.name) || !r.validValue {
        return InvalidVar;
      }
      var at := FindVar(r.name);
      if at >= 0 {
        outcome := RegisterAgain(at, r);
      } else if numIndexes >= MAX_CVARS {
        outcome := TooMany;
      } else {
        LinkNew(FreshEntry(r));
        outcome := Added(numIndexes - 1);
      }
    }
  }
}
