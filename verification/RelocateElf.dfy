// What the script does to an ELF file, in terms of what is written in its tables.
module RelocateElf {
  import opened Options
  import opened ByteStrings
  import opened Relocate
  import opened RelocateRun
  import opened ElfLayout

  /** The section name string table. */
  function NameTable(e: Elf, bytes: Bytes): Bytes
    requires e.header.shstrndx < |e.sections|
  {
    var s := e.sections[e.header.shstrndx];
    if s.offset + s.size <= |bytes| then bytes[s.offset..s.offset + s.size] else []
  }

  /** Section i is of kind SHT_PROGBITS, and this name stands in the string table where it says, with a NUL behind it. */
  predicate HasName(e: Elf, bytes: Bytes, i: nat, name: string) {
    && i < |e.sections| && e.header.shstrndx < |e.sections| && e.sections[i].kind == 1
    && var t, at := NameTable(e, bytes), e.sections[i].name;
       at + |name| < |t| && t[at..at + |name|] == name && t[at + |name|] == '\0'
  }

  predicate MayBeRewritten(e: Elf, bytes: Bytes, i: nat) {
    || HasName(e, bytes, i, ".ldsocache") || HasName(e, bytes, i, ".gccrelocprefix")
    || HasName(e, bytes, i, ".sysdirs") || HasName(e, bytes, i, ".sysdirslen")
  }

  /** The first program header of type PT_INTERP is this one. */
  ghost predicate FirstInterp(e: Elf, at: nat) {
    at < |e.programs| && e.programs[at].kind == 3 && forall k :: 0 <= k < at ==> e.programs[k].kind != 3
  }

  /** Section i and a range have no byte in common. */
  predicate ClearOf(e: Elf, i: nat, offset: nat, size: nat)
    requires i < |e.sections|
  {
    offset + size <= e.sections[i].offset || e.sections[i].offset + e.sections[i].size <= offset
  }

  /** Section header i and a range have no byte in common. */
  predicate ClearOfHeader(e: Elf, i: nat, offset: nat, size: nat) {
    var at := e.header.shoff + i * e.header.shentsize;
    offset + size <= at || at + e.header.shentsize <= offset
  }

  /** The interpreter is here; the range is empty if there is none. */
  ghost predicate InterpIn(e: Elf, offset: nat, filesz: nat) {
    || (exists at: nat :: FirstInterp(e, at) && offset == e.programs[at].offset && filesz == e.programs[at].filesz)
    || ((forall k :: 0 <= k < |e.programs| ==> e.programs[k].kind != 3) && filesz == 0)
  }

  /**
   * A file as linkers make it: names end in NUL; sections of kind SHT_PROGBITS are inside the file, apart from
   * each other and from the section headers; the interpreter is inside, and apart from names, headers and
   * sections that may be rewritten.
   */
  ghost predicate LaidOut(e: Elf, bytes: Bytes, offset: nat, filesz: nat) {
    var n := |e.sections|;
    && e.header.shstrndx < n
    && (var s := e.sections[e.header.shstrndx]; s.offset + s.size <= |bytes| && s.size > 0 && bytes[s.offset + s.size - 1] == '\0')
    && (forall i :: 0 <= i < n && e.sections[i].kind == 1 ==> e.sections[i].offset + e.sections[i].size <= |bytes|)
    && (forall i, j :: 0 <= i < n && 0 <= j < n && e.sections[i].kind == 1 ==> ClearOfHeader(e, j, e.sections[i].offset, e.sections[i].size))
    && (forall i, j :: 0 <= i < n && 0 <= j < n && i != j && e.sections[i].kind == 1 && e.sections[j].kind == 1 ==>
          ClearOf(e, j, e.sections[i].offset, e.sections[i].size))
    && InterpIn(e, offset, filesz) && offset + filesz <= |bytes| && ClearOf(e, e.header.shstrndx, offset, filesz)
    && (forall i :: 0 <= i < n ==> ClearOfHeader(e, i, offset, filesz))
    && (forall i :: 0 <= i < n && MayBeRewritten(e, bytes, i) ==> ClearOf(e, i, offset, filesz))
  }

  // ---- the script sees the same ----

  lemma SectionSeen(e: Elf, bytes: Bytes, i: nat)
    requires Encodes(e, bytes) && i < |e.sections|
    ensures Sec(Kept(e.header), bytes, i) == Section(e.sections[i].name, e.sections[i].kind, e.sections[i].offset, e.sections[i].size)
    ensures HasHeader(Kept(e.header), bytes, i)
  {
    TablesRead(e, bytes);
    hide SectionHeader, ReadAt, ParseHeader;
  }

  lemma NamesSeen(e: Elf, bytes: Bytes)
    requires Encodes(e, bytes) && e.header.shstrndx < |e.sections|
    requires var s := e.sections[e.header.shstrndx]; s.offset + s.size <= |bytes|
    ensures StrTab(Kept(e.header), bytes) == NameTable(e, bytes)
  {
    SectionSeen(e, bytes, e.header.shstrndx);
    hide Sec;
  }

  lemma {:induction false} FindsNul(b: Bytes, from: nat)
    ensures var k := FindNul(b, from);
            && (forall j :: from <= j < k ==> b[j] != '\0')
            && (k < |b| ==> from <= k && b[k] == '\0')
            && (from <= |b| ==> from <= k)
    decreases |b| - from
  {
    if from < |b| && b[from] != '\0' {
      FindsNul(b, from + 1);
    }
  }

  /** The name that the script takes is the one that stands there. */
  lemma NameSeen(t: Bytes, at: nat, name: string)
    requires t != [] && t[|t| - 1] == '\0' && name != "" && forall i :: 0 <= i < |name| ==> name[i] != '\0'
    ensures NameAt(t, at) == name <==> at + |name| < |t| && t[at..at + |name|] == name && t[at + |name|] == '\0'
  {
    var k := FindNul(t, at);
    FindsNul(t, at);
    if at < |t| {
      assert k < |t|;
      if at + |name| < |t| && t[at..at + |name|] == name && t[at + |name|] == '\0' {
        assert forall j :: at <= j < at + |name| ==> t[j] == t[at..at + |name|][j - at];
        assert k == at + |name|;
      }
    }
  }

  /** Without a NUL behind it, the last byte of the table is not taken for part of the name. */
  lemma NameWithoutNul(t: Bytes, at: nat)
    requires at < |t| && forall i :: at <= i < |t| ==> t[i] != '\0'
    ensures NameAt(t, at) == t[at..|t| - 1]
  {
    FindsNul(t, at);
  }

  lemma NamedSeen(e: Elf, bytes: Bytes, i: nat, name: string)
    requires Encodes(e, bytes) && e.header.shstrndx < |e.sections|
    requires var s := e.sections[e.header.shstrndx]; s.offset + s.size <= |bytes| && s.size > 0 && bytes[s.offset + s.size - 1] == '\0'
    requires name != "" && forall j :: 0 <= j < |name| ==> name[j] != '\0'
    ensures IsNamed(Kept(e.header), bytes, i, name) <==> HasName(e, bytes, i, name)
  {
    hide Sec, NameAt, StrTab, Encodes;
    assert Kept(e.header).shnum == |e.sections| by {
      CountsKept(e, bytes);
    }
    if i < |e.sections| {
      SectionSeen(e, bytes, i);
      NamesSeen(e, bytes);
      var s := e.sections[e.header.shstrndx];
      assert NameTable(e, bytes)[s.size - 1] == bytes[s.offset + s.size - 1];
      hide NameTable;
      NameSeen(NameTable(e, bytes), e.sections[i].name, name);
    }
  }

  lemma CountsKept(e: Elf, bytes: Bytes)
    requires Encodes(e, bytes)
    ensures Kept(e.header).shnum == |e.sections| && Kept(e.header).phnum == |e.programs|
  {
  }

  lemma SpecialSeen(e: Elf, bytes: Bytes, i: nat)
    requires Encodes(e, bytes) && e.header.shstrndx < |e.sections| && i < |e.sections|
    requires var s := e.sections[e.header.shstrndx]; s.offset + s.size <= |bytes| && s.size > 0 && bytes[s.offset + s.size - 1] == '\0'
    ensures Special(Kept(e.header), bytes, i) <==> MayBeRewritten(e, bytes, i)
  {
    NamedSeen(e, bytes, i, ".ldsocache");
    NamedSeen(e, bytes, i, ".gccrelocprefix");
    NamedSeen(e, bytes, i, ".sysdirs");
    NamedSeen(e, bytes, i, ".sysdirslen");
    hide Sec, NameAt, StrTab, HasName;
  }

  lemma InterpSeen(e: Elf, bytes: Bytes, offset: nat, filesz: nat)
    requires Encodes(e, bytes) && InterpIn(e, offset, filesz)
    ensures InterpAt(Kept(e.header), bytes, offset, filesz)
  {
    TablesRead(e, bytes);
    hide ProgramHeader, ReadAt, ParseHeader, SectionAt, ProgramAt;
    var h := Kept(e.header);
    if at: nat :| FirstInterp(e, at) && offset == e.programs[at].offset && filesz == e.programs[at].filesz {
      assert IsInterp(bytes, h, 0, at, offset, filesz);
    }
  }

  lemma {:induction false} LayoutSeen(e: Elf, bytes: Bytes, offset: nat, filesz: nat)
    requires Encodes(e, bytes) && LaidOut(e, bytes, offset, filesz)
    ensures Layout(Kept(e.header), bytes)
  {
    var h := Kept(e.header);
    forall i | 0 <= i < h.shnum ensures HasHeader(h, bytes, i) && InFile(h, bytes, i) {
      SectionSeen(e, bytes, i);
    }
    forall i, j | 0 <= i < h.shnum && 0 <= j < h.shnum ensures Disjoint(h, bytes, i, j) {
      SectionSeen(e, bytes, i);
      SectionSeen(e, bytes, j);
      hide Sec, SectionAt, Encodes;
      assert e.sections[i].kind == 1 ==> ClearOfHeader(e, j, e.sections[i].offset, e.sections[i].size);
      assert i != j && e.sections[i].kind == 1 && e.sections[j].kind == 1 ==> ClearOf(e, j, e.sections[i].offset, e.sections[i].size);
    }
  }

  lemma {:induction false} WellFormedSeen(e: Elf, bytes: Bytes, offset: nat, filesz: nat)
    requires Encodes(e, bytes) && LaidOut(e, bytes, offset, filesz)
    ensures WellFormed(Kept(e.header), bytes, offset, filesz)
  {
    var h := Kept(e.header);
    LayoutSeen(e, bytes, offset, filesz);
    InterpSeen(e, bytes, offset, filesz);
    SectionSeen(e, bytes, h.shstrndx);
    hide Sec, SectionAt, InterpAt, Layout, Special, MayBeRewritten, ProgramAt, InterpIn;
    forall i | 0 <= i < h.shnum ensures ApartFromHeader(h, offset, filesz, i) {
      assert ClearOfHeader(e, i, offset, filesz);
    }
    forall i | 0 <= i < h.shnum && Special(h, bytes, i) ensures ApartFromSection(h, bytes, offset, filesz, i) {
      SpecialSeen(e, bytes, i);
      SectionSeen(e, bytes, i);
    }
    hide Encodes;
  }

  // ---- what becomes of it ----

  /** The interpreter of a binary that is not part of the SDK. */
  predicate OfTheSystem(bytes: Bytes, at: nat) {
    || Holds(bytes, at, "/lib/") || Holds(bytes, at, "/lib64/") || Holds(bytes, at, "/lib32/")
    || Holds(bytes, at, "/usr/lib32/") || Holds(bytes, at, "/usr/lib64/")
  }

  lemma SystemSeen(bytes: Bytes, at: nat)
    ensures SystemLib(ReadAt(bytes, at, 11)) <==> OfTheSystem(bytes, at)
  {
    PrefixSeen(bytes, at, "/lib/");
    PrefixSeen(bytes, at, "/lib64/");
    PrefixSeen(bytes, at, "/lib32/");
    PrefixSeen(bytes, at, "/usr/lib32/");
    PrefixSeen(bytes, at, "/usr/lib64/");
    hide Holds, ReadAt, StartsWith;
  }

  lemma PrefixSeen(bytes: Bytes, at: nat, p: string)
    requires 0 < |p| <= 11 && forall i :: 0 <= i < |p| ==> p[i] as int < 256
    ensures StartsWith(ReadAt(bytes, at, 11), p) <==> Holds(bytes, at, p)
  {
    var b := ReadAt(bytes, at, 11);
    if |p| <= |b| {
      assert at + |p| <= |bytes| && b[..|p|] == bytes[at..at + |p|];
    }
  }

  /** Every byte stays that is not in the interpreter or in a section that may be rewritten. */
  ghost predicate RestStays(e: Elf, bytes: Bytes, offset: nat, filesz: nat, out: Bytes) {
    |out| == |bytes| &&
    forall k :: 0 <= k < |bytes| && !(offset <= k < offset + filesz)
                && (forall i :: 0 <= i < |e.sections| && MayBeRewritten(e, bytes, i) ==> !(e.sections[i].offset <= k < e.sections[i].offset + e.sections[i].size))
                ==> out[k] == bytes[k]
  }

  /** The interpreter: the new path and a NUL, if the old one is in the SDK and there is room; otherwise as it was. */
  ghost predicate InterpNew(bytes: Bytes, offset: nat, filesz: nat, dl: Bytes, out: Bytes) {
    if OfTheSystem(bytes, offset) || |dl| >= filesz then
      forall k :: offset <= k < offset + filesz && k < |bytes| && k < |out| ==> out[k] == bytes[k]
    else Holds(out, offset, dl + ['\0'])
  }

  /** A section that holds one path: its text with the prefix replaced, without the NULs at its end, then NULs. */
  ghost predicate CacheNew(e: Elf, bytes: Bytes, prefix: Bytes, i: nat, out: Bytes)
    requires i < |e.sections|
  {
    var s := e.sections[i];
    s.offset + s.size <= |bytes| == |out| &&
    var text := RStrip(Sub(prefix, bytes[s.offset..s.offset + s.size]), '\0');
    |text| < s.size && out[s.offset..s.offset + s.size] == text + Nuls(s.size - |text|)
  }

  /** Every section that holds one path is new. */
  ghost predicate CachesNew(e: Elf, bytes: Bytes, prefix: Bytes, out: Bytes) {
    forall i :: 0 <= i < |e.sections| && HasName(e, bytes, i, ".ldsocache") ==> CacheNew(e, bytes, prefix, i, out)
  }

  /** A section of slots of 4096 bytes: each full slot is its own text with the prefix replaced, without the NULs at its end, then NULs. */
  ghost predicate SlotsNew(e: Elf, bytes: Bytes, prefix: Bytes, i: nat, out: Bytes)
    requires i < |e.sections|
  {
    var s := e.sections[i];
    s.offset + s.size <= |bytes| == |out| &&
    forall j: nat :: (j + 1) * 4096 <= s.size ==> SlotNew(bytes, prefix, s.offset + j * 4096, out)
  }

  ghost predicate SlotNew(bytes: Bytes, prefix: Bytes, at: nat, out: Bytes) {
    at + 4096 <= |bytes| == |out| &&
    var text := RStrip(Sub(prefix, bytes[at..at + 4096]), '\0');
    |text| < 4096 && out[at..at + 4096] == text + Nuls(4096 - |text|)
  }

  ghost predicate AllSlotsNew(e: Elf, bytes: Bytes, prefix: Bytes, out: Bytes) {
    forall i :: 0 <= i < |e.sections| && HasName(e, bytes, i, ".gccrelocprefix") ==> SlotsNew(e, bytes, prefix, i, out)
  }

  /** So are the last .sysdirs and .sysdirslen. */
  ghost predicate LastSysdirsNew(e: Elf, bytes: Bytes, prefix: Bytes, out: Bytes) {
    forall d, l ::
      (0 <= d < |e.sections| && 0 <= l < |e.sections| && LastWithName(e, bytes, d, ".sysdirs") && LastWithName(e, bytes, l, ".sysdirslen"))
      ==> SysdirsNew(e, bytes, prefix, d, l, out)
  }

  /** What the outcome says of the file. */
  ghost predicate SaysWhatIsTrue(e: Elf, bytes: Bytes, offset: nat, filesz: nat, prefix: Bytes, dl: Bytes, r: Outcome, out: Bytes) {
    && RestStays(e, bytes, offset, filesz, out) && InterpNew(bytes, offset, filesz, dl, out)
    && (r == NotRelocated ==> filesz > 0 && !OfTheSystem(bytes, offset) && |dl| >= filesz)
    && (r == Fine ==> filesz == 0 || OfTheSystem(bytes, offset) || |dl| < filesz)
    && (r == Fine || r == NotRelocated ==> CachesNew(e, bytes, prefix, out) && AllSlotsNew(e, bytes, prefix, out) && LastSysdirsNew(e, bytes, prefix, out))
  }

  /**
   * The script on such a file. All that stays, stays; the interpreter and the sections become what was
   * asked for; and the outcomes mean what they say.
   */
  method RelocateElfFile(f: File, prefix: Bytes, dl: Bytes, ghost e: Elf, ghost offset: nat, ghost filesz: nat) returns (r: Outcome)
    requires Encodes(e, f.bytes) && LaidOut(e, f.bytes, offset, filesz)
    requires NulFree(prefix) && NulFree(dl) && Fits(Kept(e.header), f.bytes, prefix)
    modifies f
    ensures Done(Kept(e.header), old(f.bytes), offset, filesz, prefix, dl, r, f.bytes)
    ensures SaysWhatIsTrue(e, old(f.bytes), offset, filesz, prefix, dl, r, f.bytes)
  {
    ghost var bytes, h := f.bytes, Kept(e.header);
    WellFormedSeen(e, bytes, offset, filesz);
    TablesRead(e, bytes);
    hide WellFormed, LaidOut, Encodes, Done, Fits, NulFree, SaysWhatIsTrue, SectionAt, ProgramAt;
    r := RelocateFile(f, prefix, dl);
    DoneSeen(e, bytes, offset, filesz, prefix, dl, r, f.bytes);
  }

  lemma {:induction false} DoneSeen(e: Elf, bytes: Bytes, offset: nat, filesz: nat, prefix: Bytes, dl: Bytes, r: Outcome, out: Bytes)
    requires Encodes(e, bytes) && LaidOut(e, bytes, offset, filesz) && Done(Kept(e.header), bytes, offset, filesz, prefix, dl, r, out)
    ensures SaysWhatIsTrue(e, bytes, offset, filesz, prefix, dl, r, out)
  {
    var h := Kept(e.header);
    hide SystemLib, ReadAt, OthersKept, InterpDone, OfTheSystem, SectionAt, SomeNoRoom, LensMissing, SectionIs, SysdirsDone, InterpNew, RestStays,
      CachesNew, AllSlotsNew, LastSysdirsNew, Encodes, LaidOut;
    RestSeen(e, bytes, offset, filesz, out);
    InterpDoneSeen(h, bytes, offset, filesz, dl, out);
    SystemSeen(bytes, offset);
    if r == Fine || r == NotRelocated {
      CachesSeen(e, bytes, offset, filesz, prefix, out);
      SlotsSeen(e, bytes, offset, filesz, prefix, out);
      AllSysdirsSeen(e, bytes, offset, filesz, prefix, out);
    }
  }

  lemma CachesSeen(e: Elf, bytes: Bytes, offset: nat, filesz: nat, prefix: Bytes, out: Bytes)
    requires Encodes(e, bytes) && LaidOut(e, bytes, offset, filesz) && OthersKept(Kept(e.header), bytes, offset, filesz, out)
    requires forall i :: 0 <= i < Kept(e.header).shnum ==> SectionIs(Kept(e.header), bytes, prefix, i, out)
    ensures CachesNew(e, bytes, prefix, out)
  {
    assert Kept(e.header).shnum == |e.sections|;
    hide LaidOut, SectionIs, CacheNew, HasName, Encodes;
    forall i | 0 <= i < |e.sections| && HasName(e, bytes, i, ".ldsocache") ensures CacheNew(e, bytes, prefix, i, out) {
      CacheSeen(e, bytes, offset, filesz, prefix, i, out);
    }
  }

  lemma AllSysdirsSeen(e: Elf, bytes: Bytes, offset: nat, filesz: nat, prefix: Bytes, out: Bytes)
    requires Encodes(e, bytes) && LaidOut(e, bytes, offset, filesz) && OthersKept(Kept(e.header), bytes, offset, filesz, out)
    requires SysdirsDone(Kept(e.header), bytes, prefix, out)
    ensures LastSysdirsNew(e, bytes, prefix, out)
  {
    hide LaidOut, Encodes, SysdirsDone, LastWithName, SysdirsNew;
    forall d, l | 0 <= d < |e.sections| && 0 <= l < |e.sections|
      && LastWithName(e, bytes, d, ".sysdirs") && LastWithName(e, bytes, l, ".sysdirslen")
      ensures SysdirsNew(e, bytes, prefix, d, l, out)
    {
      SysdirsSeen(e, bytes, offset, filesz, prefix, d, l, out);
    }
  }

  lemma {:induction false} RestSeen(e: Elf, bytes: Bytes, offset: nat, filesz: nat, out: Bytes)
    requires Encodes(e, bytes) && LaidOut(e, bytes, offset, filesz) && OthersKept(Kept(e.header), bytes, offset, filesz, out)
    ensures RestStays(e, bytes, offset, filesz, out)
  {
    AllSeen(e, bytes, offset, filesz);
    hide Sec, Special, MayBeRewritten, LaidOut, Encodes;
    var h := Kept(e.header);
    forall k | 0 <= k < |bytes| && !(offset <= k < offset + filesz)
      && (forall i :: 0 <= i < |e.sections| && MayBeRewritten(e, bytes, i) ==> !(e.sections[i].offset <= k < e.sections[i].offset + e.sections[i].size))
      ensures out[k] == bytes[k]
    {
      assert !MayChange(h, bytes, offset, filesz, k);
    }
  }

  lemma AllSeen(e: Elf, bytes: Bytes, offset: nat, filesz: nat)
    requires Encodes(e, bytes) && LaidOut(e, bytes, offset, filesz)
    ensures Kept(e.header).shnum == |e.sections|
    ensures forall i :: 0 <= i < |e.sections| ==>
              Sec(Kept(e.header), bytes, i) == Section(e.sections[i].name, e.sections[i].kind, e.sections[i].offset, e.sections[i].size)
    ensures forall i :: 0 <= i < |e.sections| ==> (Special(Kept(e.header), bytes, i) <==> MayBeRewritten(e, bytes, i))
  {
    forall i | 0 <= i < |e.sections|
      ensures Sec(Kept(e.header), bytes, i) == Section(e.sections[i].name, e.sections[i].kind, e.sections[i].offset, e.sections[i].size)
      ensures Special(Kept(e.header), bytes, i) <==> MayBeRewritten(e, bytes, i)
    {
      SectionSeen(e, bytes, i);
      SpecialSeen(e, bytes, i);
    }
    hide Sec, Special, MayBeRewritten;
  }

  lemma InterpDoneSeen(h: Header, bytes: Bytes, offset: nat, filesz: nat, dl: Bytes, out: Bytes)
    requires InterpDone(h, bytes, offset, filesz, dl, out)
    ensures InterpNew(bytes, offset, filesz, dl, out)
  {
    SystemSeen(bytes, offset);
    hide SystemLib, ReadAt, OfTheSystem;
    if !OfTheSystem(bytes, offset) && |dl| < filesz {
      CStringEnds(out[offset..offset + filesz]);
    }
  }

  lemma {:induction false} CStringEnds(b: Bytes)
    ensures |CString(b)| <= |b| && b[..|CString(b)|] == CString(b) && (|CString(b)| < |b| ==> b[|CString(b)|] == '\0')
  {
    if b != [] && b[0] != '\0' {
      CStringEnds(b[1..]);
    }
  }

  lemma CacheSeen(e: Elf, bytes: Bytes, offset: nat, filesz: nat, prefix: Bytes, i: nat, out: Bytes)
    requires Encodes(e, bytes) && LaidOut(e, bytes, offset, filesz) && |out| == |bytes|
    requires HasName(e, bytes, i, ".ldsocache") && SectionIs(Kept(e.header), bytes, prefix, i, out)
    ensures CacheNew(e, bytes, prefix, i, out)
  {
    hide *;
    NameHasPlace(e, bytes, offset, filesz, i, ".ldsocache");
    ContentSeen(e, bytes, i, bytes);
    ContentSeen(e, bytes, i, out);
    NamedSeen(e, bytes, i, ".ldsocache");
    CacheIs(Kept(e.header), bytes, prefix, i, out);
    CacheNewIs(e, bytes, prefix, i, out);
  }

  lemma CacheNewIs(e: Elf, bytes: Bytes, prefix: Bytes, i: nat, out: Bytes)
    requires i < |e.sections| && e.sections[i].offset + e.sections[i].size <= |bytes| == |out|
    requires var s := e.sections[i];
             Relocated(prefix, bytes[s.offset..s.offset + s.size], s.size) == Some(out[s.offset..s.offset + s.size])
    ensures CacheNew(e, bytes, prefix, i, out)
  {
    hide Sub, RStrip, Nuls;
  }

  /** A section with a name is inside the file, and the names are. */
  lemma NameHasPlace(e: Elf, bytes: Bytes, offset: nat, filesz: nat, i: nat, name: string)
    requires LaidOut(e, bytes, offset, filesz) && HasName(e, bytes, i, name)
    ensures i < |e.sections| && e.header.shstrndx < |e.sections| && e.sections[i].kind == 1
    ensures e.sections[i].offset + e.sections[i].size <= |bytes|
    ensures var s := e.sections[e.header.shstrndx]; s.offset + s.size <= |bytes| && s.size > 0 && bytes[s.offset + s.size - 1] == '\0'
  {
    hide NameTable, MayBeRewritten, InterpIn;
  }

  /** The contents of section i in a file of this length. */
  lemma ContentSeen(e: Elf, bytes: Bytes, i: nat, b: Bytes)
    requires Encodes(e, bytes) && i < |e.sections| && |b| == |bytes| && e.sections[i].offset + e.sections[i].size <= |bytes|
    ensures var s := e.sections[i];
            && Sec(Kept(e.header), bytes, i).size == s.size && Sec(Kept(e.header), bytes, i).offset == s.offset
            && Content(b, Sec(Kept(e.header), bytes, i)) == b[s.offset..s.offset + s.size]
  {
    SectionSeen(e, bytes, i);
    hide Sec, Encodes;
  }

  lemma CacheIs(h: Header, bytes: Bytes, prefix: Bytes, i: nat, out: Bytes)
    requires IsNamed(h, bytes, i, ".ldsocache") && SectionIs(h, bytes, prefix, i, out)
    ensures Relocated(prefix, Content(bytes, Sec(h, bytes, i)), Sec(h, bytes, i).size) == Some(Content(out, Sec(h, bytes, i)))
  {
    hide Sec, ReadAt, NameAt, StrTab, Relocated, Slots;
  }

  lemma SlotsSeen(e: Elf, bytes: Bytes, offset: nat, filesz: nat, prefix: Bytes, out: Bytes)
    requires Encodes(e, bytes) && LaidOut(e, bytes, offset, filesz) && OthersKept(Kept(e.header), bytes, offset, filesz, out)
    requires forall i :: 0 <= i < Kept(e.header).shnum ==> SectionIs(Kept(e.header), bytes, prefix, i, out)
    ensures AllSlotsNew(e, bytes, prefix, out)
  {
    assert Kept(e.header).shnum == |e.sections|;
    hide LaidOut, SectionIs, SlotsNew, HasName, Encodes;
    forall i | 0 <= i < |e.sections| && HasName(e, bytes, i, ".gccrelocprefix") ensures SlotsNew(e, bytes, prefix, i, out) {
      SectionSlotsSeen(e, bytes, offset, filesz, prefix, i, out);
    }
  }

  lemma SectionSlotsSeen(e: Elf, bytes: Bytes, offset: nat, filesz: nat, prefix: Bytes, i: nat, out: Bytes)
    requires Encodes(e, bytes) && LaidOut(e, bytes, offset, filesz) && |out| == |bytes|
    requires HasName(e, bytes, i, ".gccrelocprefix") && SectionIs(Kept(e.header), bytes, prefix, i, out)
    ensures i < |e.sections| && SlotsNew(e, bytes, prefix, i, out)
  {
    hide *;
    NameHasPlace(e, bytes, offset, filesz, i, ".gccrelocprefix");
    ContentSeen(e, bytes, i, bytes);
    ContentSeen(e, bytes, i, out);
    NamedSeen(e, bytes, i, ".gccrelocprefix");
    SlotsAre(Kept(e.header), bytes, prefix, i, out);
    SlotsNewIs(e, bytes, prefix, i, out);
  }

  lemma SlotsAre(h: Header, bytes: Bytes, prefix: Bytes, i: nat, out: Bytes)
    requires IsNamed(h, bytes, i, ".gccrelocprefix") && SectionIs(h, bytes, prefix, i, out)
    ensures Slots(prefix, Content(bytes, Sec(h, bytes, i))) == Some(Content(out, Sec(h, bytes, i)))
  {
    hide Sec, ReadAt, NameAt, StrTab, Relocated, Slots;
  }

  lemma SlotsNewIs(e: Elf, bytes: Bytes, prefix: Bytes, i: nat, out: Bytes)
    requires i < |e.sections| && e.sections[i].offset + e.sections[i].size <= |bytes| == |out|
    requires var s := e.sections[i];
             Slots(prefix, bytes[s.offset..s.offset + s.size]) == Some(out[s.offset..s.offset + s.size])
    ensures SlotsNew(e, bytes, prefix, i, out)
  {
    var s := e.sections[i];
    hide Slots, SlotNew;
    forall j: nat | (j + 1) * 4096 <= s.size ensures SlotNew(bytes, prefix, s.offset + j * 4096, out) {
      SlotAt(bytes, prefix, s.offset, s.size, j, out);
    }
  }

  lemma SlotAt(bytes: Bytes, prefix: Bytes, at: nat, size: nat, j: nat, out: Bytes)
    requires at + size <= |bytes| == |out| && Slots(prefix, bytes[at..at + size]) == Some(out[at..at + size]) && (j + 1) * 4096 <= size
    ensures SlotNew(bytes, prefix, at + j * 4096, out)
  {
    hide Slots, Relocated, SlotNew;
    var content, new_ := bytes[at..at + size], out[at..at + size];
    SlotIsOwnText(prefix, content, j);
    assert (j + 1) * SLOT == j * 4096 + 4096 && j * SLOT == j * 4096;
    SubSlice(bytes, at, size, j * 4096, 4096);
    SubSlice(out, at, size, j * 4096, 4096);
    SlotNewIs(bytes, prefix, at + j * 4096, out);
  }

  lemma SlotNewIs(bytes: Bytes, prefix: Bytes, at: nat, out: Bytes)
    requires at + 4096 <= |bytes| == |out|
    requires Relocated(prefix, bytes[at..at + 4096], SLOT) == Some(out[at..at + 4096])
    ensures SlotNew(bytes, prefix, at, out)
  {
    hide Sub, RStrip;
  }

  // ---- the library paths ----

  /** Strings, each with a NUL behind it. */
  function Joined(ps: seq<Bytes>): Bytes {
    if ps == [] then [] else ps[0] + ['\0'] + Joined(ps[1..])
  }

  /** b holds these strings, up to the first that is empty or to its end. */
  ghost predicate Strings(b: Bytes, ps: seq<Bytes>) {
    && (forall p :: p in ps ==> p != [] && NulFree(p))
    && exists rest: Bytes :: b + ['\0'] == Joined(ps) + rest && (rest == [] || rest[0] == '\0')
  }

  lemma {:induction false} PathsAreStrings(b: Bytes)
    ensures Strings(b, Paths(b))
    decreases |b|
  {
    var first := CString(b);
    CStringEnds(b);
    CStringNulFree(b);
    hide NulFree, CString, Joined;
    if first == [] {
      NoStrings(b);
    } else if |first| == |b| {
      assert b == first && Paths(b) == [first];
      assert b + ['\0'] == first + ['\0'] + [];
      NoStrings([]);
      OneMoreString(b, first, [], ['\0']);
    } else {
      var more := b[|first| + 1..];
      PathsAreStrings(more);
      assert b == first + ['\0'] + more;
      assert Paths(b) == [first] + Paths(more);
      OneMoreString(b, first, Paths(more), more + ['\0']);
    }
  }

  lemma NoStrings(b: Bytes)
    requires b == [] || b[0] == '\0'
    ensures Strings(b, [])
  {
    assert b + ['\0'] == Joined([]) + (b + ['\0']);
    assert (b + ['\0'])[0] == '\0';
  }

  lemma OneMoreString(b: Bytes, first: Bytes, ps: seq<Bytes>, tail: Bytes)
    requires first != [] && NulFree(first) && forall p :: p in ps ==> p != [] && NulFree(p)
    requires if tail == ['\0'] && b == first then ps == []
             else b + ['\0'] == first + ['\0'] + tail && exists rest: Bytes :: tail == Joined(ps) + rest && (rest == [] || rest[0] == '\0')
    ensures Strings(b, [first] + ps)
  {
    var all := [first] + ps;
    assert all[1..] == ps && forall p :: p in all ==> p == first || p in ps;
    if tail == ['\0'] && b == first {
      assert Joined(ps) == [] && Joined(all) == first + ['\0'] + [] == first + ['\0'];
      assert b + ['\0'] == Joined(all) + [];
    } else {
      var rest: Bytes :| tail == Joined(ps) + rest && (rest == [] || rest[0] == '\0');
      assert first + ['\0'] + (Joined(ps) + rest) == first + ['\0'] + Joined(ps) + rest;
      assert b + ['\0'] == Joined(all) + rest;
    }
  }

  lemma {:induction false} StringsArePaths(b: Bytes, ps: seq<Bytes>)
    requires Strings(b, ps)
    ensures ps == Paths(b)
    decreases |ps|
  {
    var rest: Bytes :| b + ['\0'] == Joined(ps) + rest && (rest == [] || rest[0] == '\0');
    if ps == [] {
      assert b != [] ==> b[0] == (b + ['\0'])[0] == rest[0];
    } else {
      var p, tail := ps[0], Joined(ps[1..]) + rest;
      assert p in ps && forall q :: q in ps[1..] ==> q in ps;
      assert b + ['\0'] == p + ['\0'] + tail;
      hide CString, Joined;
      FirstString(b, p, tail);
      assert ps == [p] + ps[1..];
      if |p| == |b| {
        EmptyJoined(ps[1..], rest);
      } else {
        StringsArePaths(b[|p| + 1..], ps[1..]);
      }
    }
  }

  lemma EmptyJoined(ps: seq<Bytes>, rest: Bytes)
    requires Joined(ps) + rest == []
    ensures ps == []
  {
  }

  lemma FirstString(b: Bytes, p: Bytes, tail: Bytes)
    requires b + ['\0'] == p + ['\0'] + tail && NulFree(p)
    ensures |p| <= |b| && CString(b) == p
    ensures if |p| == |b| then tail == [] && b == p else b[|p| + 1..] + ['\0'] == tail
  {
    var all := b + ['\0'];
    PartsOf(p, tail);
    PartsOf(b, []);
    assert all == b + ['\0'] + [];
    hide CString, NulFree;
    if |p| == |b| {
      assert b == p && tail == [];
      assert p + Nuls(0) == p;
      CStringPadded(p, 0);
    } else {
      var more := b[|p| + 1..];
      assert b[..|p|] == all[..|p|] == p && b[|p|] == all[|p|] == '\0';
      assert b == p + ['\0'] + more;
      CStringFirst(p, more);
      assert more + ['\0'] == all[|p| + 1..];
    }
  }

  lemma PartsOf(p: Bytes, tail: Bytes)
    ensures var all := p + ['\0'] + tail;
            |all| == |p| + 1 + |tail| && all[..|p|] == p && all[|p|] == '\0' && all[|p| + 1..] == tail
  {
  }

  /** Section i is the last one with this name. */
  ghost predicate LastWithName(e: Elf, bytes: Bytes, i: nat, name: string) {
    HasName(e, bytes, i, name) && forall k :: i < k < |e.sections| ==> !HasName(e, bytes, k, name)
  }

  /** The text has each of ps with the prefix replaced; their lengths stand in out from at on, low byte first. */
  ghost predicate StringsNew(prefix: Bytes, ps: seq<Bytes>, text: Bytes, out: Bytes, at: nat, w: nat) {
    && Strings(text, seq(|ps|, i requires 0 <= i < |ps| => Sub(prefix, ps[i])))
    && forall i :: 0 <= i < |ps| ==> Holds(out, at + i * w, BytesOf(true, |Sub(prefix, ps[i])|, w))
  }

  ghost predicate AllStringsNew(prefix: Bytes, before: Bytes, after: Bytes, out: Bytes, at: nat, w: nat) {
    forall ps :: Strings(before, ps) ==> StringsNew(prefix, ps, after, out, at, w)
  }

  /** .sysdirs has the paths it had, with the prefix replaced; .sysdirslen has their lengths. */
  ghost predicate SysdirsNew(e: Elf, bytes: Bytes, prefix: Bytes, d: nat, l: nat, out: Bytes)
    requires d < |e.sections| && l < |e.sections|
  {
    var s := e.sections[d];
    && s.offset + s.size <= |bytes| == |out|
    && AllStringsNew(prefix, bytes[s.offset..s.offset + s.size], out[s.offset..s.offset + s.size], out, e.sections[l].offset, Word(e.header.wide))
  }

  lemma {:induction false} PackedIsBytes(n: nat, size: nat)
    ensures Packed(n, size) == BytesOf(true, n, size)
  {
    if size > 0 {
      PackedIsBytes(n / 256, size - 1);
    }
  }

  lemma LastSeen(e: Elf, bytes: Bytes, offset: nat, filesz: nat, i: nat, name: string)
    requires Encodes(e, bytes) && LaidOut(e, bytes, offset, filesz) && LastWithName(e, bytes, i, name)
    requires name != "" && forall j :: 0 <= j < |name| ==> name[j] != '\0'
    ensures IsLast(Kept(e.header), bytes, i, name)
  {
    var h := Kept(e.header);
    NamedSeen(e, bytes, i, name);
    forall k | i < k < h.shnum ensures !Named(h, bytes, StrTab(h, bytes), k, name) {
      NamedSeen(e, bytes, k, name);
      hide HasName, Sec, NameAt, StrTab;
    }
    hide HasName, Sec, NameAt, StrTab, LaidOut;
  }

  lemma SysdirsSeen(e: Elf, bytes: Bytes, offset: nat, filesz: nat, prefix: Bytes, d: nat, l: nat, out: Bytes)
    requires Encodes(e, bytes) && LaidOut(e, bytes, offset, filesz) && |out| == |bytes| && d < |e.sections| && l < |e.sections|
    requires LastWithName(e, bytes, d, ".sysdirs") && LastWithName(e, bytes, l, ".sysdirslen") && SysdirsDone(Kept(e.header), bytes, prefix, out)
    ensures SysdirsNew(e, bytes, prefix, d, l, out)
  {
    hide *;
    var h, s := Kept(e.header), e.sections[d];
    LastIsNamed(e, bytes, d, ".sysdirs");
    LastIsNamed(e, bytes, l, ".sysdirslen");
    NameHasPlace(e, bytes, offset, filesz, d, ".sysdirs");
    NameHasPlace(e, bytes, offset, filesz, l, ".sysdirslen");
    ContentSeen(e, bytes, d, bytes);
    ContentSeen(e, bytes, d, out);
    ContentSeen(e, bytes, l, bytes);
    LastSeen(e, bytes, offset, filesz, d, ".sysdirs");
    LastSeen(e, bytes, offset, filesz, l, ".sysdirslen");
    SysdirsAt(h, bytes, prefix, d, l, out);
    NewStrings(prefix, bytes[s.offset..s.offset + s.size], out[s.offset..s.offset + s.size], out, e.sections[l].offset, Word(h.wide));
    KeptWide(e);
    SysdirsNewIs(e, bytes, prefix, d, l, out);
  }

  lemma KeptWide(e: Elf)
    ensures Kept(e.header).wide == e.header.wide
  {
  }

  lemma LastIsNamed(e: Elf, bytes: Bytes, i: nat, name: string)
    requires LastWithName(e, bytes, i, name)
    ensures HasName(e, bytes, i, name)
  {
  }

  lemma SysdirsNewIs(e: Elf, bytes: Bytes, prefix: Bytes, d: nat, l: nat, out: Bytes)
    requires d < |e.sections| && l < |e.sections| && e.sections[d].offset + e.sections[d].size <= |bytes| == |out|
    requires var s := e.sections[d];
             AllStringsNew(prefix, bytes[s.offset..s.offset + s.size], out[s.offset..s.offset + s.size], out, e.sections[l].offset, Word(e.header.wide))
    ensures SysdirsNew(e, bytes, prefix, d, l, out)
  {
    hide AllStringsNew;
  }

  lemma SysdirsAt(h: Header, bytes: Bytes, prefix: Bytes, d: nat, l: nat, out: Bytes)
    requires SysdirsDone(h, bytes, prefix, out) && IsLast(h, bytes, d, ".sysdirs") && IsLast(h, bytes, l, ".sysdirslen")
    ensures Paths(Content(out, Sec(h, bytes, d))) == Subs(prefix, Paths(Content(bytes, Sec(h, bytes, d))))
    ensures LensPacked(out, Sec(h, bytes, l).offset, prefix, Paths(Content(bytes, Sec(h, bytes, d))), Word(h.wide))
  {
    assert SysdirsAre(h, bytes, prefix, d, l, out);
    hide Sec, ReadAt, LensPacked, LensHold, SameBackwards, IsLast, Paths, Subs;
  }

  lemma NewStrings(prefix: Bytes, before: Bytes, after: Bytes, out: Bytes, at: nat, w: nat)
    requires Paths(after) == Subs(prefix, Paths(before)) && LensPacked(out, at, prefix, Paths(before), w)
    ensures AllStringsNew(prefix, before, after, out, at, w)
  {
    hide Strings, Sub, Paths, LensPacked, Subs, StringsNew;
    forall ps | Strings(before, ps) ensures StringsNew(prefix, ps, after, out, at, w) {
      StringsArePaths(before, ps);
      PathsAreStrings(after);
      SubsNew(prefix, ps, after, out, at, w);
    }
  }

  lemma SubsNew(prefix: Bytes, ps: seq<Bytes>, after: Bytes, out: Bytes, at: nat, w: nat)
    requires Strings(after, Subs(prefix, ps)) && LensPacked(out, at, prefix, ps, w)
    ensures StringsNew(prefix, ps, after, out, at, w)
  {
    hide Strings, Sub, Packed, BytesOf;
    assert Subs(prefix, ps) == seq(|ps|, i requires 0 <= i < |ps| => Sub(prefix, ps[i]));
    forall i | 0 <= i < |ps| ensures Holds(out, at + i * w, BytesOf(true, |Sub(prefix, ps[i])|, w)) {
      PackedIsBytes(|Sub(prefix, ps[i])|, w);
    }
  }
}
