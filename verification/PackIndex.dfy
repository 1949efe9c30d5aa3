/** The file index of a zip pack (filesystem.c): a chained hash table over case- and separator-blind names. */
module PackIndex {
  import opened Ascii
  import opened HashChain
  import opened MachineWord

  const MAX_FILEHASH_SIZE := 1024

  // ---- names ----

  /** Letter case does not count, and backslash and colon count as slash. */
  function Fold(c: char): char {
    var u := ToUpper(c);
    if u == '\\' || u == ':' then '/' else u
  }

  predicate IsSeparator(c: char) {
    c == '/' || c == '\\' || c == ':'
  }

  /** Two characters count as the same exactly if they are the same letter in any case, or both separators. */
  lemma FoldTells(a: char, b: char)
    ensures Fold(a) == Fold(b) <==> SameLetter(a, b) || (IsSeparator(a) && IsSeparator(b))
  {
  }

  predicate SameFile(a: string, b: string) {
    |a| == |b| && forall i :: 0 <= i < |a| ==> Fold(a[i]) == Fold(b[i])
  }

  /** FS_FilenameCompare: zero for the same file, minus one otherwise. */
  method FilenameCompare(s1: string, s2: string) returns (r: int)
    requires '\0' !in s1 && '\0' !in s2
    ensures r == if SameFile(s1, s2) then 0 else -1
  {
    var i := 0;
    while true
      invariant i <= |s1| && i <= |s2|
      invariant forall k :: 0 <= k < i ==> Fold(s1[k]) == Fold(s2[k])
      decreases |s1| - i
    {
      var c1, c2 := At(s1, i), At(s2, i);
      i := i + 1;
      if 'a' <= c1 <= 'z' {
        c1 := (c1 as int - 32) as char;
      }
      if 'a' <= c2 <= 'z' {
        c2 := (c2 as int - 32) as char;
      }
      if c1 == '\\' || c1 == ':' {
        c1 := '/';
      }
      if c2 == '\\' || c2 == ':' {
        c2 := '/';
      }
      if c1 != c2 {
        return -1;
      }
      if c1 == '\0' {
        return 0;
      }
    }
  }

  // ---- the hash ----

  /** The character as the hash counts it; colon is kept apart from slash here. */
  function Letter(c: char): char {
    var l := ToLower(c);
    if l == '\\' then '/' else l
  }

  function Letters(name: string): (letters: string)
    ensures |letters| == |name| && forall i :: 0 <= i < |name| ==> letters[i] == Letter(name[i])
  {
    seq(|name|, i requires 0 <= i < |name| => Letter(name[i]))
  }

  /** The length of the name without its extension: everything up to the first dot. */
  function StemLength(name: string): (n: nat)
    ensures n <= |name| && (n < |name| ==> name[n] == '.')
    ensures forall i :: 0 <= i < n ==> name[i] != '.'
  {
    if name == "" || name[0] == '.' then 0 else 1 + StemLength(name[1..])
  }

  lemma StemLengthIs(name: string, n: nat)
    requires n <= |name| && (n < |name| ==> name[n] == '.') && forall i :: 0 <= i < n ==> name[i] != '.'
    ensures StemLength(name) == n
  {
    hide StemLength;
  }

  function LetterSum(name: string): int {
    WeightedSum(Letters(name), StemLength(name))
  }

  /** Fold the high bits of the word down, shifting with the sign. */
  function Mixed(sum: int): nat {
    var h := Signed(sum);
    Xor(Xor(h % WORD, (h / 0x400) % WORD), (h / 0x10_0000) % WORD)
  }

  /** Mask with the table size. */
  function Slot(sum: int, hashSize: nat): (slot: nat)
    requires hashSize > 0
    ensures slot < hashSize
  {
    And(Mixed(sum), hashSize - 1)
  }

  function Hash(name: string, hashSize: nat): (slot: nat)
    requires hashSize > 0
    ensures slot < hashSize
  {
    Slot(LetterSum(name), hashSize)
  }

  /** FS_HashFileName. */
  method HashFileName(name: string, hashSize: nat) returns (hash: nat)
    requires '\0' !in name && hashSize > 0
    ensures hash == Hash(name, hashSize)
  {
    hide Mixed, Slot;
    var sum, i := 0, 0;
    while i < |name|
      invariant i <= |name| && sum == WeightedSum(Letters(name), i)
      invariant forall j :: 0 <= j < i ==> name[j] != '.'
    {
      var letter := ToLower(name[i]);
      if letter == '.' {
        break;
      }
      if letter == '\\' {
        letter := '/';
      }
      sum := sum + Value(letter) * (i + 119);
      i := i + 1;
    }
    StemLengthIs(name, i);
    hash := Slot(sum, hashSize);
  }

  /** With a table size that is a power of two, the slot is the remainder of the mixed word. */
  lemma HashIsRemainder(name: string, hashSize: nat)
    requires IsPowerOfTwo(hashSize)
    ensures hashSize > 0 && Hash(name, hashSize) == Mixed(LetterSum(name)) % hashSize
  {
    hide Mixed, LetterSum;
    MaskIsRemainder(Mixed(LetterSum(name)), hashSize);
  }

  /** No colon in the part that is hashed. */
  predicate ColonFree(name: string) {
    ':' !in name[..StemLength(name)]
  }

  lemma LettersAgree(a: char, b: char)
    requires Fold(a) == Fold(b)
    ensures a == '.' <==> b == '.'
    ensures a != ':' && b != ':' ==> Letter(a) == Letter(b)
  {
  }

  lemma SameStem(a: string, b: string)
    requires SameFile(a, b)
    ensures StemLength(a) == StemLength(b)
  {
    hide Fold, Letter;
    var n := StemLength(a);
    forall i | 0 <= i < |a|
      ensures a[i] == '.' <==> b[i] == '.'
    {
      LettersAgree(a[i], b[i]);
    }
    StemLengthIs(b, n);
  }

  /** What makes the table usable: names of the same file have the same hash. */
  lemma SameFileSameHash(a: string, b: string, hashSize: nat)
    requires SameFile(a, b) && ColonFree(a) && ColonFree(b) && hashSize > 0
    ensures Hash(a, hashSize) == Hash(b, hashSize)
  {
    hide Slot, Fold, Letter, StemLength;
    SameStem(a, b);
    var n := StemLength(a);
    forall i | 0 <= i < n
      ensures Letters(a)[i] == Letters(b)[i]
    {
      assert a[..n][i] != ':' && b[..n][i] != ':';
      LettersAgree(a[i], b[i]);
    }
    SameLettersSameSum(Letters(a), Letters(b), n);
  }

  // ---- the size of the table ----

  /** The least power of two above the number of entries, but at most twice MAX_FILEHASH_SIZE. */
  method TableSize(entries: nat) returns (size: nat)
    ensures IsPowerOfTwo(size)
    ensures size > entries || size == 2 * MAX_FILEHASH_SIZE
    ensures size == 1 || (size / 2 <= entries && size <= 2 * MAX_FILEHASH_SIZE)
  {
    assert IsPowerOfTwo(1);
    hide IsPowerOfTwo;
    size := 1;
    while size <= MAX_FILEHASH_SIZE
      invariant IsPowerOfTwo(size) && (size == 1 || size / 2 <= entries)
      invariant size in {1, 2, 4, 8, 16, 32, 64, 128, 256, 512, 1024, 2048}
      decreases 2 * MAX_FILEHASH_SIZE - size
    {
      if size > entries {
        break;
      }
      DoublePower(size);
      size := size * 2;
    }
  }

  // ---- what a lookup should find ----

  function Slots(names: seq<string>, size: nat): (slots: seq<nat>)
    requires size > 0
    ensures |slots| == |names| && forall j :: 0 <= j < |names| ==> slots[j] == Hash(names[j], size)
  {
    seq(|names|, j requires 0 <= j < |names| => Hash(names[j], size))
  }

  function Same(names: seq<string>, file: string): (same: seq<bool>)
    ensures |same| == |names| && forall j :: 0 <= j < |names| ==> same[j] == SameFile(names[j], file)
  {
    seq(|names|, j requires 0 <= j < |names| => SameFile(names[j], file))
  }

  /** The last name that is the same file, or -1. */
  function LastSame(names: seq<string>, file: string): (r: int)
    ensures -1 <= r < |names|
    ensures r >= 0 ==> SameFile(names[r], file)
    ensures forall j :: r < j < |names| ==> !SameFile(names[j], file)
  {
    LastTrue(Same(names, file), |names|)
  }

  /** The last name that is the same file among those with the same hash, or -1. */
  function LastHit(names: seq<string>, file: string, size: nat): (r: int)
    requires size > 0
    ensures -1 <= r < |names|
  {
    LastWanted(Slots(names, size), Same(names, file), |names|, Hash(file, size))
  }

  predicate AllColonFree(names: seq<string>) {
    forall j :: 0 <= j < |names| ==> ColonFree(names[j])
  }

  /** The lookup is right exactly if there is nothing to find, or what there is has the hash of the request. */
  lemma HitIsSameIff(names: seq<string>, file: string, size: nat)
    requires size > 0
    ensures LastHit(names, file, size) == LastSame(names, file)
       <==> LastSame(names, file) < 0 || Hash(names[LastSame(names, file)], size) == Hash(file, size)
  {
    hide Hash, SameFile, LastTrue, LastWanted;
    ChainIsEnoughIff(Slots(names, size), Same(names, file), |names|, Hash(file, size));
  }

  /** Without colons it always is: the hash table refines the scan of all names. */
  lemma HitIsSame(names: seq<string>, file: string, size: nat)
    requires size > 0 && AllColonFree(names) && ColonFree(file)
    ensures LastHit(names, file, size) == LastSame(names, file)
  {
    HitIsSameIff(names, file, size);
    hide Hash, SameFile, ColonFree, LastTrue, LastHit;
    var at := LastSame(names, file);
    if at >= 0 {
      SameFileSameHash(names[at], file, size);
    }
  }

  // ---- lower case ----

  lemma LowerIsSameFile(name: string, file: string)
    ensures SameFile(Lower(name), file) <==> SameFile(name, file)
  {
    assert forall c: char :: Fold(ToLower(c)) == Fold(c);
  }

  /** Lower-casing a name changes neither its stem nor its hash. */
  lemma LowerKeepsHash(name: string)
    ensures StemLength(Lower(name)) == StemLength(name) && LetterSum(Lower(name)) == LetterSum(name)
  {
    assert forall c: char :: Letter(ToLower(c)) == Letter(c);
    hide Letter, StemLength;
    var n, low := StemLength(name), Lower(name);
    assert forall i :: 0 <= i < |name| ==> (low[i] == '.' <==> name[i] == '.');
    StemLengthIs(low, n);
    assert forall i :: 0 <= i < |name| ==> Letter(low[i]) == Letter(ToLower(name[i])) == Letter(name[i]);
    SameLettersSameSum(Letters(low), Letters(name), n);
  }

  function Lowered(zip: seq<string>): (names: seq<string>)
    ensures |names| == |zip| && forall j :: 0 <= j < |zip| ==> names[j] == Lower(zip[j])
  {
    seq(|zip|, j requires 0 <= j < |zip| => Lower(zip[j]))
  }

  lemma LoweredLastSame(zip: seq<string>, file: string)
    ensures LastSame(Lowered(zip), file) == LastSame(zip, file)
  {
    forall j | 0 <= j < |zip|
      ensures Same(Lowered(zip), file)[j] == Same(zip, file)[j]
    {
      LowerIsSameFile(zip[j], file);
    }
    assert Same(Lowered(zip), file) == Same(zip, file);
  }

  // ---- the pack ----

  datatype Lookup = Rejected | OtherLanguage | NotInPack | InPack(entry: nat)

  class Pack {
    /** The build buffer: names and chain links; -1 is the null link. */
    const names: array<string>
    const next: array<int>
    const hashTable: array<int>
    /** The names as the zip file has them. */
    ghost const zip: seq<string>

    ghost predicate Valid()
      reads names, next, hashTable
    {
      && IsPowerOfTwo(hashTable.Length) && hashTable.Length > 0
      && (forall i :: 0 <= i < |zip| ==> '\0' !in zip[i])
      && Built(|zip|)
    }

    /** The first `n` entries are in. */
    ghost predicate Built(n: nat)
      reads names, next, hashTable
    {
      && n <= |zip| == names.Length == next.Length && hashTable.Length > 0 && next != hashTable
      && (forall j: nat :: j < n ==> names[j] == Lower(zip[j]))
      && Linked(hashTable[..], next[..n], Slots(Lowered(zip)[..n], hashTable.Length))
    }

    /** The part of FS_LoadZipFile that builds the index. */
    constructor (zip: seq<string>)
      requires forall i :: 0 <= i < |zip| ==> '\0' !in zip[i]
      ensures Valid() && this.zip == zip && fresh(names) && fresh(next) && fresh(hashTable)
    {
      hide Hash, IsPowerOfTwo, Built;
      var size := TableSize(|zip|);
      this.zip := zip;
      names := new string[|zip|](_ => "");
      next := new int[|zip|](_ => -1);
      hashTable := new int[size](_ => -1);
      new;
      EmptyIsBuilt();
      for i := 0 to |zip|
        invariant Built(i)
      {
        AddEntry(i, zip[i]);
      }
    }

    lemma EmptyIsBuilt()
      requires hashTable.Length > 0 && names.Length == next.Length == |zip| && next != hashTable
      requires forall slot: nat :: slot < hashTable.Length ==> hashTable[slot] == -1
      ensures Built(0)
    {
      EmptyIsLinked(hashTable[..]);
      assert Lowered(zip)[..0] == [] && next[..0] == [];
    }

    /** One entry is put in front of its chain. */
    method AddEntry(i: nat, filename: string)
      requires Built(i) && i < |zip| && filename == zip[i] && '\0' !in filename
      modifies names, next, hashTable
      ensures Built(i + 1)
    {
      hide Hash, Lower, Lowered, Linked;
      var name := Strlwr(filename);
      LowerIsCString(filename);
      var hash := HashFileName(name, hashTable.Length);
      ghost var heads, links, slots := hashTable[..], next[..i], Slots(Lowered(zip)[..i], hashTable.Length);
      LinkInFront(heads, links, slots, hash);
      names[i] := name;
      next[i] := hashTable[hash];
      hashTable[hash] := i;
      assert Lowered(zip)[i] == name;
      assert Slots(Lowered(zip)[..i + 1], hashTable.Length) == slots + [hash];
      assert next[..i + 1] == links + [heads[hash]];
      assert hashTable[..] == heads[hash := i];
    }

    lemma WholeIsBuilt()
      requires Valid()
      ensures Linked(hashTable[..], next[..], Slots(Lowered(zip), hashTable.Length))
    {
      assert Lowered(zip)[..|zip|] == Lowered(zip) && next[..|zip|] == next[..];
    }

    /** There is no entry for the request, or the last one has the request's hash. */
    ghost predicate Reachable(file: string)
      requires hashTable.Length > 0
    {
      LastSame(zip, file) < 0 || Hash(zip[LastSame(zip, file)], hashTable.Length) == Hash(file, hashTable.Length)
    }

    lemma ReachableIff(file: string)
      requires hashTable.Length > 0
      ensures LastHit(Lowered(zip), file, hashTable.Length) == LastSame(zip, file) <==> Reachable(file)
    {
      hide LastHit, LastTrue, Slot, LetterSum, Lower, SameFile;
      LoweredLastSame(zip, file);
      HitIsSameIff(Lowered(zip), file, hashTable.Length);
      if LastSame(zip, file) >= 0 {
        LowerKeepsHash(zip[LastSame(zip, file)]);
      }
    }

    /** Without colons in the hashed parts every entry is reachable. */
    lemma ColonFreeIsReachable(file: string)
      requires hashTable.Length > 0 && AllColonFree(zip) && ColonFree(file)
      ensures Reachable(file)
    {
      hide Hash, ColonFree, SameFile, LastTrue;
      if LastSame(zip, file) >= 0 {
        SameFileSameHash(zip[LastSame(zip, file)], file, hashTable.Length);
      }
    }

    /** The chain walk of FS_FOpenFileReadDir. */
    method Find(file: string) returns (entry: int)
      requires Valid() && '\0' !in file
      ensures entry == LastHit(Lowered(zip), file, hashTable.Length)
      ensures entry == LastSame(zip, file) <==> Reachable(file)
    {
      hide Hash, Lower, SameFile, ColonFree, IsPowerOfTwo, AllColonFree, LastIn, LastWanted, LastSame, Reachable;
      WholeIsBuilt();
      ReachableIff(file);
      ghost var slots, same := Slots(Lowered(zip), hashTable.Length), Same(Lowered(zip), file);
      var hash := HashFileName(file, hashTable.Length);
      entry := hashTable[hash];
      ghost var n: nat := |zip|;
      WalkStep(slots, same, n, hash);
      while entry != -1
        invariant n <= |zip| && entry == LastIn(slots, n, hash)
        invariant LastWanted(slots, same, n, hash) == LastWanted(slots, same, |zip|, hash)
        decreases n
      {
        WalkStep(slots, same, n, hash);
        LowerIsCString(zip[entry]);
        var r := FilenameCompare(names[entry], file);
        if r == 0 {
          return;
        }
        n := entry;
        entry := next[..][entry];
      }
      WalkStep(slots, same, n, hash);
    }

    /** Every entry lies in exactly one chain, that of the remainder of its mixed hash by the table size. */
    lemma EachEntryInOneChain(slot: nat)
      requires Valid() && slot < hashTable.Length
      ensures Linked(hashTable[..], next[..], Slots(Lowered(zip), hashTable.Length))
      ensures LiesIn(Chain(next[..], hashTable[slot]), Slots(Lowered(zip), hashTable.Length), |zip|, slot)
      ensures forall k :: k in Chain(next[..], hashTable[slot])
                     <==> 0 <= k < |zip| && Mixed(LetterSum(zip[k])) % hashTable.Length == slot
    {
      hide Slot, Lower, Mixed, LetterSum, IsPowerOfTwo;
      WholeIsBuilt();
      EachInOneChain(hashTable[..], next[..], Slots(Lowered(zip), hashTable.Length), slot);
      forall k | 0 <= k < |zip|
        ensures Slots(Lowered(zip), hashTable.Length)[k] == Mixed(LetterSum(zip[k])) % hashTable.Length
      {
        LowerKeepsHash(zip[k]);
        HashIsRemainder(Lowered(zip)[k], hashTable.Length);
      }
    }

    /** The same with the checks on the requested path and the language of the search path entry in front. */
    method Open(path: string, otherLanguage: bool) returns (r: Lookup)
      requires Valid() && '\0' !in path
      ensures var file := WithoutLeadingSlash(path);
              && (r == Rejected <==> HasPair(file, '.') || HasPair(file, ':'))
              && (r == OtherLanguage <==> r != Rejected && otherLanguage)
              && (r in {Rejected, OtherLanguage} ||
                  r == var entry := LastHit(Lowered(zip), file, hashTable.Length); if entry < 0 then NotInPack else InPack(entry))
              && (r in {Rejected, OtherLanguage} ||
                  (r == (if LastSame(zip, file) < 0 then NotInPack else InPack(LastSame(zip, file))) <==> Reachable(file)))
    {
      hide LastHit, LastSame, Reachable, IsPowerOfTwo, Built;
      var file := path;
      if path != "" && (path[0] == '/' || path[0] == '\\') {
        file := path[1..];
      }
      if HasPair(file, '.') || HasPair(file, ':') {
        return Rejected;
      }
      if otherLanguage {
        return OtherLanguage;
      }
      assert forall c :: c in file ==> c in path;
      var entry := Find(file);
      r := if entry == -1 then NotInPack else InPack(entry);
    }
  }

  function WithoutLeadingSlash(path: string): string {
    if path != "" && path[0] in {'/', '\\'} then path[1..] else path
  }

  predicate HasPair(file: string, c: char) {
    exists i :: 0 <= i < |file| - 1 && file[i] == c && file[i + 1] == c
  }

  // ---- with a colon ----

  lemma SmallWord(sum: nat)
    requires sum < 0x10_0000
    ensures Signed(sum) == sum == sum % WORD && (sum / 0x400) % WORD == sum / 0x400 && (sum / 0x10_0000) % WORD == 0
  {
  }

  lemma SlotOfTwo(sum: nat)
    requires sum < 0x10_0000
    ensures Slot(sum, 2) == (sum + sum / 0x400) % 2
  {
    SmallWord(sum);
    assert Slot(sum, 2) == And(Mixed(sum), 1);
    hide Xor, And, Signed;
    var once := Xor(sum, sum / 0x400);
    LowestBits(sum, sum / 0x400);
    LowestBits(once, 0);
    MaskOne(Xor(once, 0));
  }

  /**
   * A colon in the hashed part can hide an entry: the pack with the one file a/b has it for the
   * comparison with a:b, but not in the chain that a:b leads to.
   */
  lemma ColonMisses()
    ensures SameFile("a/b", "a:b") && Hash("a/b", 2) == 1 && Hash("a:b", 2) == 0
    ensures LastSame(["a/b"], "a:b") == 0
    ensures LastHit(["a/b"], "a:b", 2) == -1
  {
    TwoHashes();
    hide Hash;
  }

  lemma TwoHashes()
    ensures Hash("a/b", 2) == 1 && Hash("a:b", 2) == 0
  {
    hide Hash;
    HashOfTwo("a/b", 29041);
    HashOfTwo("a:b", 30361);
  }

  lemma HashOfTwo(name: string, sum: nat)
    requires |name| == 3 && (forall c :: c in name ==> ToLower(c) != '.') && sum < 0x10_0000
    requires sum == Value(Letter(name[0])) * 119 + Value(Letter(name[1])) * 120 + Value(Letter(name[2])) * 121
    ensures Hash(name, 2) == (sum + sum / 0x400) % 2
  {
    SumOfThree(name);
    hide LetterSum, Slot;
    SlotOfTwo(sum);
  }

  lemma SumOfThree(name: string)
    requires |name| == 3 && forall c :: c in name ==> ToLower(c) != '.'
    ensures LetterSum(name) == Value(Letter(name[0])) * 119 + Value(Letter(name[1])) * 120 + Value(Letter(name[2])) * 121
  {
    assert name[0] in name && name[1] in name && name[2] in name;
    StemLengthIs(name, 3);
    var letters := Letters(name);
    assert WeightedSum(letters, 0) == 0;
    assert WeightedSum(letters, 1) == Value(letters[0]) * 119;
    assert WeightedSum(letters, 2) == WeightedSum(letters, 1) + Value(letters[1]) * 120;
  }
}
