// One file of an SDK from beginning to end: what of it changes, and to what.
module RelocateRun {
  import opened Options
  import opened ByteStrings
  import opened Relocate

  /** What is done to one file of at least 64 bytes; at the end a change of its length is an error. */
  function Patch(bytes: Bytes, prefix: Bytes, dl: Bytes): (Outcome, Bytes)
    requires |bytes| >= 64
  {
    var h := ParseHeader(bytes);
    if h.None? then (Fine, bytes)
    else
      var (r, out) := Interp(bytes, h.value, dl, 0);
      if r == Raised then (r, out)
      else
        var (r', out') := Sysdirs(out, h.value, prefix);
        if r' != Fine then (r', out') else if |out'| != |bytes| then (Exit, out') else (r, out')
  }

  // ---- where things are ----

  /** The string table of section names. */
  function StrTab(h: Header, bytes: Bytes): Bytes {
    Content(bytes, Sec(h, bytes, h.shstrndx))
  }

  /** There is no program header of type PT_INTERP. */
  ghost predicate NoInterp(h: Header, bytes: Bytes) {
    forall k :: 0 <= k < h.phnum ==> ProgramAt(h, bytes, k).Some? && ProgramAt(h, bytes, k).value.0 != 3
  }

  /** The first PT_INTERP is here; without one the range is empty. */
  ghost predicate InterpAt(h: Header, bytes: Bytes, offset: nat, filesz: nat) {
    (exists at :: IsInterp(bytes, h, 0, at, offset, filesz)) || (NoInterp(h, bytes) && filesz == 0)
  }

  /** Section i is one that may change. */
  ghost predicate Special(h: Header, bytes: Bytes, i: nat) {
    var name := Name(h, bytes, StrTab(h, bytes), i);
    Sec(h, bytes, i).kind == 1
    && (name == ".ldsocache" || name == ".gccrelocprefix" || name == ".sysdirs" || name == ".sysdirslen")
  }

  predicate ApartFromHeader(h: Header, offset: nat, filesz: nat, i: nat) {
    Apart(offset, filesz, HeaderAt(h, i), h.shentsize)
  }

  predicate ApartFromSection(h: Header, bytes: Bytes, offset: nat, filesz: nat, i: nat) {
    Apart(offset, filesz, Sec(h, bytes, i).offset, Sec(h, bytes, i).size)
  }

  /** The interpreter is inside the file, and apart from the headers, the names and the sections that may change. */
  ghost predicate InterpApart(h: Header, bytes: Bytes, offset: nat, filesz: nat) {
    && offset + filesz <= |bytes|
    && ApartFromSection(h, bytes, offset, filesz, h.shstrndx)
    && (forall i :: 0 <= i < h.shnum ==> ApartFromHeader(h, offset, filesz, i))
    && (forall i :: 0 <= i < h.shnum && Special(h, bytes, i) ==> ApartFromSection(h, bytes, offset, filesz, i))
  }

  /** An ELF file laid out as linkers do. */
  ghost predicate WellFormed(h: Header, bytes: Bytes, offset: nat, filesz: nat) {
    && h.shstrndx < h.shnum && Sec(h, bytes, h.shstrndx).offset + Sec(h, bytes, h.shstrndx).size <= |bytes|
    && Layout(h, bytes) && InterpAt(h, bytes, offset, filesz) && InterpApart(h, bytes, offset, filesz)
  }

  /** The paths of section i, a .sysdirs. */
  function OldPaths(h: Header, bytes: Bytes, i: nat): seq<Bytes> {
    Paths(Content(bytes, Sec(h, bytes, i)))
  }

  ghost predicate IsNamed(h: Header, bytes: Bytes, i: nat, name: string) {
    i < h.shnum && Named(h, bytes, StrTab(h, bytes), i, name)
  }

  /** The rewritten .sysdirs fits in d, and the lengths in l; no new path is empty. */
  ghost predicate SysdirsFit(h: Header, bytes: Bytes, prefix: Bytes, d: nat, l: nat) {
    && |NewDirs(prefix, OldPaths(h, bytes, d))| <= Sec(h, bytes, d).size
    && |OldPaths(h, bytes, d)| * Width(h) <= Sec(h, bytes, l).size
    && [] !in Subs(prefix, OldPaths(h, bytes, d))
  }

  ghost predicate Fits(h: Header, bytes: Bytes, prefix: Bytes) {
    forall d, l :: IsNamed(h, bytes, d, ".sysdirs") && IsNamed(h, bytes, l, ".sysdirslen") ==> SysdirsFit(h, bytes, prefix, d, l)
  }

  // ---- what becomes of the file ----

  /** Byte k is one that may change. */
  ghost predicate MayChange(h: Header, bytes: Bytes, offset: nat, filesz: nat, k: nat) {
    || offset <= k < offset + filesz
    || exists i :: 0 <= i < h.shnum && Special(h, bytes, i) && Sec(h, bytes, i).offset <= k < Sec(h, bytes, i).offset + Sec(h, bytes, i).size
  }

  ghost predicate OthersKept(h: Header, bytes: Bytes, offset: nat, filesz: nat, out: Bytes) {
    |out| == |bytes| && forall k :: 0 <= k < |bytes| && !MayChange(h, bytes, offset, filesz, k) ==> out[k] == bytes[k]
  }

  /** The interpreter: that of the SDK is replaced if there is room, any other stays. */
  ghost predicate InterpDone(h: Header, bytes: Bytes, offset: nat, filesz: nat, dl: Bytes, out: Bytes) {
    offset + filesz <= |out| && offset + filesz <= |bytes| &&
    if SystemLib(ReadAt(bytes, offset, 11)) || |dl| >= filesz then out[offset..offset + filesz] == bytes[offset..offset + filesz]
    else CString(out[offset..offset + filesz]) == dl
  }

  /** A section rewritten in the loop became what its own original text asks for. */
  ghost predicate SectionIs(h: Header, bytes: Bytes, prefix: Bytes, i: nat, out: Bytes) {
    var name, sec := Name(h, bytes, StrTab(h, bytes), i), Sec(h, bytes, i);
    Rewritten(name, sec) ==> Want(name, sec, prefix, Content(bytes, sec)) == Some(Content(out, sec))
  }

  /** .sysdirs holds the new paths, and .sysdirslen their lengths, as far as the binary reads little-endian numbers. */
  ghost predicate SysdirsAre(h: Header, bytes: Bytes, prefix: Bytes, d: nat, l: nat, out: Bytes) {
    var paths := OldPaths(h, bytes, d);
    && Paths(Content(out, Sec(h, bytes, d))) == Subs(prefix, paths)
    && LensPacked(out, Sec(h, bytes, l).offset, prefix, paths, Width(h))
    && (LensHold(h.little, out, Sec(h, bytes, l).offset, prefix, paths, Width(h)) <==> h.little || SameBackwards(prefix, paths, Width(h)))
  }

  ghost predicate IsLast(h: Header, bytes: Bytes, i: nat, name: string) {
    LastNamed(h, bytes, StrTab(h, bytes), h.shnum, i, name)
  }

  ghost predicate SysdirsDone(h: Header, bytes: Bytes, prefix: Bytes, out: Bytes) {
    forall d, l :: IsLast(h, bytes, d, ".sysdirs") && IsLast(h, bytes, l, ".sysdirslen") ==> SysdirsAre(h, bytes, prefix, d, l, out)
  }

  ghost predicate SomeNoRoom(h: Header, bytes: Bytes, prefix: Bytes) {
    exists i :: 0 <= i < h.shnum && NoRoom(h, bytes, StrTab(h, bytes), prefix, i)
  }

  /** There is a .sysdirs and no .sysdirslen. */
  ghost predicate LensMissing(h: Header, bytes: Bytes) {
    (exists d :: IsNamed(h, bytes, d, ".sysdirs")) && (forall l :: !IsNamed(h, bytes, l, ".sysdirslen"))
  }

  /** The outcome, and what it says of the file. */
  ghost predicate Done(h: Header, bytes: Bytes, offset: nat, filesz: nat, prefix: Bytes, dl: Bytes, r: Outcome, out: Bytes) {
    && OthersKept(h, bytes, offset, filesz, out) && InterpDone(h, bytes, offset, filesz, dl, out)
    && (r == Exit <==> SomeNoRoom(h, bytes, prefix))
    && (r == Raised <==> !SomeNoRoom(h, bytes, prefix) && LensMissing(h, bytes))
    && (r == NotRelocated <==>
        !SomeNoRoom(h, bytes, prefix) && !LensMissing(h, bytes)
        && filesz > 0 && !SystemLib(ReadAt(bytes, offset, 11)) && |dl| >= filesz)
    && (r == Fine || r == NotRelocated ==>
          (forall i :: 0 <= i < h.shnum ==> SectionIs(h, bytes, prefix, i, out)) && SysdirsDone(h, bytes, prefix, out))
  }

  // ---- the interpreter first ----

  lemma {:induction false} NoInterpFine(h: Header, bytes: Bytes, dl: Bytes, i: nat)
    requires NoInterp(h, bytes)
    ensures Interp(bytes, h, dl, i) == (Fine, bytes)
    decreases h.phnum - i
  {
    hide ProgramAt;
    if i < h.phnum {
      NoInterpFine(h, bytes, dl, i + 1);
    }
  }

  lemma {:induction false} InterpFirst(h: Header, bytes: Bytes, dl: Bytes, offset: nat, filesz: nat)
    requires InterpAt(h, bytes, offset, filesz) && offset + filesz <= |bytes| && NulFree(dl)
    ensures var (r, out) := Interp(bytes, h, dl, 0);
            && SameOutside(bytes, out, offset, offset + filesz) && InterpDone(h, bytes, offset, filesz, dl, out)
            && r == (if filesz > 0 && !SystemLib(ReadAt(bytes, offset, 11)) && |dl| >= filesz then NotRelocated else Fine)
  {
    hide IsInterp, Interp, SystemLib, ReadAt, CString;
    if at :| IsInterp(bytes, h, 0, at, offset, filesz) {
      InterpreterPatched(bytes, h, dl, at, offset, filesz);
    } else {
      NoInterpFine(h, bytes, dl, 0);
    }
  }

  /** Two files with the same headers, names and contents of the sections that may change. */
  ghost predicate Alike(h: Header, a: Bytes, b: Bytes) {
    && StrTab(h, b) == StrTab(h, a)
    && (forall i :: 0 <= i < h.shnum ==> SectionAt(h, b, i) == SectionAt(h, a, i))
    && (forall i :: 0 <= i < h.shnum && Special(h, a, i) ==> Content(b, Sec(h, a, i)) == Content(a, Sec(h, a, i)))
  }

  /** Headers, names and sections that may change are then still as they were. */
  lemma {:induction false} AllStillThere(h: Header, bytes: Bytes, offset: nat, filesz: nat, cur: Bytes)
    requires WellFormed(h, bytes, offset, filesz) && SameOutside(bytes, cur, offset, offset + filesz)
    ensures Alike(h, bytes, cur) && Layout(h, cur)
  {
    hide HeaderAt, SectionHeader, ReadAt, InterpAt, Special, NameAt;
    forall i | 0 <= i < h.shnum ensures SectionAt(h, cur, i) == SectionAt(h, bytes, i) {
      assert ApartFromHeader(h, offset, filesz, i) && HasHeader(h, bytes, i);
      SliceOf(bytes, cur, HeaderAt(h, i), h.shentsize);
    }
    SliceOf(bytes, cur, Sec(h, bytes, h.shstrndx).offset, Sec(h, bytes, h.shstrndx).size);
    forall i | 0 <= i < h.shnum && Special(h, bytes, i)
      ensures Content(cur, Sec(h, bytes, i)) == Content(bytes, Sec(h, bytes, i))
    {
      assert ApartFromSection(h, bytes, offset, filesz, i) && InFile(h, bytes, i);
      SpecialIsKind(h, bytes, i);
      SliceOf(bytes, cur, Sec(h, bytes, i).offset, Sec(h, bytes, i).size);
    }
    LayoutStays(h, bytes, cur);
  }

  lemma SpecialIsKind(h: Header, bytes: Bytes, i: nat)
    requires Special(h, bytes, i)
    ensures Sec(h, bytes, i).kind == 1
  {
  }

  lemma LayoutStays(h: Header, bytes: Bytes, cur: Bytes)
    requires Layout(h, bytes) && |cur| == |bytes|
    requires forall i :: 0 <= i < h.shnum ==> SectionAt(h, cur, i) == SectionAt(h, bytes, i)
    ensures Layout(h, cur)
  {
    hide HeaderAt, SectionAt;
    forall i | 0 <= i < h.shnum ensures HasHeader(h, cur, i) && InFile(h, cur, i) {
      assert HasHeader(h, bytes, i) && InFile(h, bytes, i);
    }
    forall i, j | 0 <= i < h.shnum && 0 <= j < h.shnum ensures Disjoint(h, cur, i, j) {
      assert Disjoint(h, bytes, i, j);
    }
  }

  // ---- then the sections ----

  /** The loop over the sections, from the beginning. */
  lemma {:induction false} SectionsDone(h: Header, b: Bytes, prefix: Bytes)
    requires Layout(h, b)
    ensures var strtab := StrTab(h, b);
            var (r, out, found) := Sections(b, h, strtab, prefix, 0, Found(None, None));
            && (r == Fine || r == Exit) && OutsideKept(h, b, strtab, out)
            && (r == Fine ==> DoneUpTo(h, b, strtab, prefix, h.shnum, out) && FoundUpTo(h, b, strtab, h.shnum, found))
            && (r == Exit <==> SomeNoRoom(h, b, prefix))
  {
    var strtab := StrTab(h, b);
    assert DoneUpTo(h, b, strtab, prefix, 0, b) && FoundUpTo(h, b, strtab, 0, Found(None, None));
    hide *;
    SectionsPatched(h, b, strtab, prefix, 0, b, Found(None, None));
    SectionsFound(h, b, strtab, prefix, 0, b, Found(None, None));
    NoRoomSomewhere(h, b, prefix);
  }

  lemma NoRoomSomewhere(h: Header, b: Bytes, prefix: Bytes)
    ensures SomeNoRoom(h, b, prefix) <==> exists i :: 0 <= i < h.shnum && NoRoom(h, b, StrTab(h, b), prefix, i)
  {
  }

  /** What the loop found, in terms of the file. */
  lemma FoundIs(h: Header, b: Bytes, found: Found) returns (d: nat, l: nat)
    requires FoundUpTo(h, b, StrTab(h, b), h.shnum, found)
    ensures found.sysdirs.None? ==> forall i :: !IsNamed(h, b, i, ".sysdirs") && !IsLast(h, b, i, ".sysdirs")
    ensures found.lens.None? ==> forall i :: !IsNamed(h, b, i, ".sysdirslen") && !IsLast(h, b, i, ".sysdirslen")
    ensures found.sysdirs.Some? ==>
      IsLast(h, b, d, ".sysdirs") && IsNamed(h, b, d, ".sysdirs")
      && found.sysdirs.value == (Content(b, Sec(h, b, d)), Sec(h, b, d).offset, Sec(h, b, d).size)
    ensures found.lens.Some? ==>
      IsLast(h, b, l, ".sysdirslen") && IsNamed(h, b, l, ".sysdirslen") && found.lens.value == Sec(h, b, l).offset
  {
    hide Named, Sec, ReadAt;
    d, l := 0, 0;
    if found.sysdirs.Some? {
      d :| LastNamed(h, b, StrTab(h, b), h.shnum, d, ".sysdirs")
           && found.sysdirs.value == (Content(b, Sec(h, b, d)), Sec(h, b, d).offset, Sec(h, b, d).size);
    }
    if found.lens.Some? {
      l :| LastNamed(h, b, StrTab(h, b), h.shnum, l, ".sysdirslen") && found.lens.value == Sec(h, b, l).offset;
    }
  }

  lemma OneLast(h: Header, b: Bytes, i: nat, j: nat, name: string)
    requires IsLast(h, b, i, name) && IsLast(h, b, j, name)
    ensures i == j
  {
    hide Named;
  }

  /** No new path is too long, empty, or has a NUL. */
  lemma {:induction false} NewPathsGood(h: Header, b: Bytes, prefix: Bytes, d: nat, l: nat)
    requires Layout(h, b) && NulFree(prefix) && d < h.shnum && SysdirsFit(h, b, prefix, d, l)
    ensures var paths := OldPaths(h, b, d);
            forall i :: 0 <= i < |paths| ==>
              NulFree(Sub(prefix, paths[i])) && Sub(prefix, paths[i]) != [] && |Sub(prefix, paths[i])| < Power(Width(h))
  {
    assert HasHeader(h, b, d);
    SizeBounded(h, ReadAt(b, HeaderAt(h, d), h.shentsize));
    var paths, text := OldPaths(h, b, d), Content(b, Sec(h, b, d));
    hide Sub, NulFree, Power, Width, NewDirs, Paths, ReadAt, SectionHeader, HeaderAt;
    forall i | 0 <= i < |paths|
      ensures NulFree(Sub(prefix, paths[i])) && Sub(prefix, paths[i]) != [] && |Sub(prefix, paths[i])| < Power(Width(h))
    {
      NewPathsNulFree(prefix, text, i);
      PathShorter(prefix, paths, i);
      assert Subs(prefix, paths)[i] == Sub(prefix, paths[i]);
    }
  }

  /** Two sections with different names are apart. */
  lemma NamesApart(h: Header, b: Bytes, i: nat, j: nat)
    requires Layout(h, b) && i < h.shnum && j < h.shnum && Sec(h, b, i).kind == 1 && Sec(h, b, j).kind == 1
    requires Name(h, b, StrTab(h, b), i) != Name(h, b, StrTab(h, b), j)
    ensures Apart(Sec(h, b, i).offset, Sec(h, b, i).size, Sec(h, b, j).offset, Sec(h, b, j).size)
  {
    hide SectionAt, NameAt, HeaderAt;
    assert Disjoint(h, b, i, j);
  }

  /** The bytes of two sections may have changed, and no others. */
  ghost predicate SameBut(a: Bytes, b: Bytes, s: Section, t: Section) {
    |a| == |b| && forall k :: 0 <= k < |a| && !(s.offset <= k < s.offset + s.size) && !(t.offset <= k < t.offset + t.size) ==> a[k] == b[k]
  }

  /** With both sections there. */
  lemma {:induction false} BothFound(h: Header, b: Bytes, prefix: Bytes, cur: Bytes, d: nat, l: nat)
    requires Layout(h, b) && NulFree(prefix) && |cur| == |b|
    requires IsNamed(h, b, d, ".sysdirs") && IsNamed(h, b, l, ".sysdirslen") && SysdirsFit(h, b, prefix, d, l)
    ensures var s, t := Sec(h, b, d), Sec(h, b, l);
            var (r, out) := PatchSysdirs(cur, h, prefix, Found(Some((Content(b, s), s.offset, s.size)), Some(t.offset)));
            r == Fine && SameBut(out, cur, s, t) && SysdirsAre(h, b, prefix, d, l, out)
  {
    hide *;
    var s, t, paths := Sec(h, b, d), Sec(h, b, l), OldPaths(h, b, d);
    SysdirsPlace(h, b, prefix, d, l);
    NewPathsGood(h, b, prefix, d, l);
    SysdirsPatched(cur, h, prefix, Content(b, s), s.offset, s.size, t.offset, paths, Width(h));
    SysdirsAsPatched(h, b, prefix, cur, d, l);
  }

  lemma {:induction false} SysdirsPlace(h: Header, b: Bytes, prefix: Bytes, d: nat, l: nat)
    requires Layout(h, b) && IsNamed(h, b, d, ".sysdirs") && IsNamed(h, b, l, ".sysdirslen") && SysdirsFit(h, b, prefix, d, l)
    ensures var s, t, paths := Sec(h, b, d), Sec(h, b, l), OldPaths(h, b, d);
            && d < h.shnum && l < h.shnum && paths == Paths(Content(b, s))
            && s.offset + s.size <= |b| && t.offset + |paths| * Width(h) <= |b|
            && |paths| * Width(h) <= t.size && Apart(s.offset, s.size, t.offset, |paths| * Width(h))
            && |NewDirs(prefix, paths)| <= s.size
  {
    assert InFile(h, b, d) && InFile(h, b, l);
    hide SectionAt, NameAt, HeaderAt, NewDirs, Width, Paths, ReadAt;
    NamesApart(h, b, d, l);
  }

  lemma {:induction false} SysdirsAsPatched(h: Header, b: Bytes, prefix: Bytes, cur: Bytes, d: nat, l: nat)
    requires var s, t, paths := Sec(h, b, d), Sec(h, b, l), OldPaths(h, b, d);
             var (r, out) := PatchSysdirs(cur, h, prefix, Found(Some((Content(b, s), s.offset, s.size)), Some(t.offset)));
             && s.offset + s.size <= |out| == |cur| && |paths| * Width(h) <= t.size
             && Paths(out[s.offset..s.offset + s.size]) == Subs(prefix, paths)
             && LensPacked(out, t.offset, prefix, paths, Width(h))
             && (LensHold(h.little, out, t.offset, prefix, paths, Width(h)) <==> h.little || SameBackwards(prefix, paths, Width(h)))
             && (forall k :: 0 <= k < |cur| && !(s.offset <= k < s.offset + s.size) && !(t.offset <= k < t.offset + |paths| * Width(h)) ==> out[k] == cur[k])
    ensures var s, t := Sec(h, b, d), Sec(h, b, l);
            var (r, out) := PatchSysdirs(cur, h, prefix, Found(Some((Content(b, s), s.offset, s.size)), Some(t.offset)));
            SameBut(out, cur, s, t) && SysdirsAre(h, b, prefix, d, l, out)
  {
    hide Sec, PatchSysdirs, LensPacked, LensHold, SameBackwards, Paths, Subs, Width, ReadAt;
  }

  /** Sections with other names are not touched. */
  lemma {:induction false} OtherSectionsStay(h: Header, b: Bytes, prefix: Bytes, cur: Bytes, out: Bytes, d: nat, l: nat)
    requires Layout(h, b) && DoneUpTo(h, b, StrTab(h, b), prefix, h.shnum, cur)
    requires IsNamed(h, b, d, ".sysdirs") && IsNamed(h, b, l, ".sysdirslen") && SameBut(out, cur, Sec(h, b, d), Sec(h, b, l))
    ensures forall i :: 0 <= i < h.shnum ==> SectionIs(h, b, prefix, i, out)
  {
    hide SectionAt, NameAt, HeaderAt, Want, ReadAt, InRewritten;
    forall i | 0 <= i < h.shnum ensures SectionIs(h, b, prefix, i, out) {
      var sec := Sec(h, b, i);
      if Rewritten(Name(h, b, StrTab(h, b), i), sec) {
        assert InFile(h, b, i);
        NamesApart(h, b, i, d);
        NamesApart(h, b, i, l);
        SliceOf(cur, out, sec.offset, sec.size);
      }
    }
  }

  lemma {:induction false} OtherBytesStay(h: Header, b: Bytes, prefix: Bytes, cur: Bytes, out: Bytes, d: nat, l: nat)
    requires OutsideKept(h, b, StrTab(h, b), cur)
    requires cur == out || (IsNamed(h, b, d, ".sysdirs") && IsNamed(h, b, l, ".sysdirslen") && SameBut(out, cur, Sec(h, b, d), Sec(h, b, l)))
    ensures OthersKept(h, b, 0, 0, out)
  {
    hide SectionAt, NameAt;
    forall k | 0 <= k < |b| && !MayChange(h, b, 0, 0, k) ensures out[k] == b[k] {
      assert cur != out ==> Special(h, b, d) && Special(h, b, l);
      assert forall i :: 0 <= i < h.shnum && Rewritten(Name(h, b, StrTab(h, b), i), Sec(h, b, i)) ==> Special(h, b, i);
      assert !InRewritten(h, b, StrTab(h, b), h.shnum, k);
    }
  }

  /** What becomes of the sections, and why the script stops, if it does. */
  ghost predicate AllSectionsDone(h: Header, b: Bytes, prefix: Bytes, r: Outcome, out: Bytes) {
    && OthersKept(h, b, 0, 0, out)
    && r == (if SomeNoRoom(h, b, prefix) then Exit else if LensMissing(h, b) then Raised else Fine)
    && (r == Fine ==> (forall i :: 0 <= i < h.shnum ==> SectionIs(h, b, prefix, i, out)) && SysdirsDone(h, b, prefix, out))
  }

  /** All that change_dl_sysdirs does. */
  lemma {:induction false} SysdirsOverall(h: Header, b: Bytes, prefix: Bytes)
    requires Layout(h, b) && h.shstrndx < h.shnum && NulFree(prefix) && Fits(h, b, prefix)
    ensures var (r, out) := Sysdirs(b, h, prefix);
            AllSectionsDone(h, b, prefix, r, out)
  {
    assert HasHeader(h, b, h.shstrndx);
    var (r, cur, found) := Sections(b, h, StrTab(h, b), prefix, 0, Found(None, None));
    assert Sysdirs(b, h, prefix) == if r != Fine then (r, cur) else PatchSysdirs(cur, h, prefix, found);
    SectionsDone(h, b, prefix);
    hide *;
    if r == Fine {
      AfterSections(h, b, prefix, cur, found);
    } else {
      OtherBytesStay(h, b, prefix, cur, cur, 0, 0);
      StoppedThere(h, b, prefix, cur);
    }
  }

  lemma StoppedThere(h: Header, b: Bytes, prefix: Bytes, out: Bytes)
    requires OthersKept(h, b, 0, 0, out) && SomeNoRoom(h, b, prefix)
    ensures AllSectionsDone(h, b, prefix, Exit, out)
  {
  }

  /** What is done after the loop has gone through. */
  lemma {:induction false} AfterSections(h: Header, b: Bytes, prefix: Bytes, cur: Bytes, found: Found)
    requires Layout(h, b) && h.shstrndx < h.shnum && NulFree(prefix) && Fits(h, b, prefix) && !SomeNoRoom(h, b, prefix)
    requires DoneUpTo(h, b, StrTab(h, b), prefix, h.shnum, cur) && FoundUpTo(h, b, StrTab(h, b), h.shnum, found)
    requires OutsideKept(h, b, StrTab(h, b), cur)
    ensures var (r, out) := PatchSysdirs(cur, h, prefix, found);
            AllSectionsDone(h, b, prefix, r, out)
  {
    hide SectionAt, NameAt, HeaderAt, Want, Named, SysdirsFit, SysdirsAre, Layout, OthersKept, SomeNoRoom, SectionIs,
      DoneUpTo, FoundUpTo, OutsideKept, Special, NulFree, SameBut;
    var d, l := FoundIs(h, b, found);
    DoneLength(h, b, prefix, cur);
    SectionsAre(h, b, prefix, cur);
    OtherBytesStay(h, b, prefix, cur, cur, 0, 0);
    if found.sysdirs.Some? && found.lens.Some? {
      assert SysdirsFit(h, b, prefix, d, l);
      BothFound(h, b, prefix, cur, d, l);
      var (r, out) := PatchSysdirs(cur, h, prefix, found);
      hide PatchSysdirs;
      OtherSectionsStay(h, b, prefix, cur, out, d, l);
      OtherBytesStay(h, b, prefix, cur, out, d, l);
      LastOnes(h, b, prefix, d, l, out);
      assert IsNamed(h, b, l, ".sysdirslen");
    }
  }

  lemma LastOnes(h: Header, b: Bytes, prefix: Bytes, d: nat, l: nat, out: Bytes)
    requires IsLast(h, b, d, ".sysdirs") && IsLast(h, b, l, ".sysdirslen") && SysdirsAre(h, b, prefix, d, l, out)
    ensures SysdirsDone(h, b, prefix, out)
  {
    hide IsLast, SysdirsAre;
    forall d': nat, l': nat | IsLast(h, b, d', ".sysdirs") && IsLast(h, b, l', ".sysdirslen") ensures SysdirsAre(h, b, prefix, d', l', out) {
      OneLast(h, b, d, d', ".sysdirs");
      OneLast(h, b, l, l', ".sysdirslen");
    }
  }

  /** `change_dl_sysdirs(elf_file_name)` */
  method ChangeDlSysdirs(f: File, h: Header, prefix: Bytes) returns (r: Outcome)
    modifies f
    ensures (r, f.bytes) == Sysdirs(old(f.bytes), h, prefix)
    ensures Layout(h, old(f.bytes)) && h.shstrndx < h.shnum && NulFree(prefix) && Fits(h, old(f.bytes), prefix) ==>
      AllSectionsDone(h, old(f.bytes), prefix, r, f.bytes)
  {
    hide SectionHeader, ReadAt, WriteAt, PatchSection, PatchSysdirs, NameAt, Sections, Layout, Fits, AllSectionsDone, NulFree;
    ghost var bytes := f.bytes;
    f.Seek(h.shoff + h.shstrndx * h.shentsize);
    var shHdr := f.Read(h.shentsize);
    var strsec := SectionHeader(h, shHdr);
    if strsec.None? {
      r := Raised;
    } else {
      f.Seek(strsec.value.offset);
      var strtab := f.Read(strsec.value.size);
      var found;
      r, found := ChangeSections(f, h, strtab, prefix);
      if r == Fine {
        r := ChangeSysdirs(f, h, prefix, found);
      }
    }
    if Layout(h, bytes) && h.shstrndx < h.shnum && NulFree(prefix) && Fits(h, bytes, prefix) {
      SysdirsOverall(h, bytes, prefix);
    }
  }

  lemma DoneLength(h: Header, b: Bytes, prefix: Bytes, cur: Bytes)
    requires DoneUpTo(h, b, StrTab(h, b), prefix, h.shnum, cur)
    ensures |cur| == |b|
  {
  }

  lemma SectionsAre(h: Header, b: Bytes, prefix: Bytes, cur: Bytes)
    requires DoneUpTo(h, b, StrTab(h, b), prefix, h.shnum, cur)
    ensures forall i :: 0 <= i < h.shnum ==> SectionIs(h, b, prefix, i, cur)
  {
    hide Sec, Name, Want, ReadAt;
  }

  // ---- one after the other ----

  lemma AlikeAt(h: Header, a: Bytes, b: Bytes, i: nat)
    requires Alike(h, a, b) && i < h.shnum
    ensures Sec(h, b, i) == Sec(h, a, i) && Name(h, b, StrTab(h, b), i) == Name(h, a, StrTab(h, a), i)
    ensures Special(h, b, i) == Special(h, a, i)
    ensures Special(h, a, i) ==> Content(b, Sec(h, b, i)) == Content(a, Sec(h, a, i))
    ensures forall name :: IsNamed(h, b, i, name) <==> IsNamed(h, a, i, name)
  {
    hide SectionAt, NameAt, ReadAt;
  }

  lemma {:induction false} AlikeSections(h: Header, a: Bytes, b: Bytes, prefix: Bytes)
    requires Alike(h, a, b)
    ensures SomeNoRoom(h, b, prefix) == SomeNoRoom(h, a, prefix)
    ensures forall i, out :: 0 <= i < h.shnum ==> SectionIs(h, b, prefix, i, out) == SectionIs(h, a, prefix, i, out)
  {
    forall i: nat | i < h.shnum
      ensures NoRoom(h, b, StrTab(h, b), prefix, i) == NoRoom(h, a, StrTab(h, a), prefix, i)
      ensures forall out :: SectionIs(h, b, prefix, i, out) == SectionIs(h, a, prefix, i, out)
    {
      AlikeAt(h, a, b, i);
      hide Sec, Name, ReadAt, Want, StrTab;
    }
  }

  lemma {:induction false} AlikeNames(h: Header, a: Bytes, b: Bytes)
    requires Alike(h, a, b)
    ensures forall i: nat, name :: IsNamed(h, b, i, name) <==> IsNamed(h, a, i, name)
    ensures LensMissing(h, b) == LensMissing(h, a)
  {
    forall i: nat, name ensures IsNamed(h, b, i, name) <==> IsNamed(h, a, i, name) {
      if i < h.shnum {
        AlikeAt(h, a, b, i);
      } else {
        hide Named;
      }
    }
    hide IsNamed;
  }

  lemma {:induction false} AlikeLast(h: Header, a: Bytes, b: Bytes, i: nat, name: string)
    requires Alike(h, a, b)
    ensures IsLast(h, b, i, name) <==> IsLast(h, a, i, name)
  {
    hide Named, Alike, StrTab;
    forall k: nat | i <= k < h.shnum ensures Named(h, b, StrTab(h, b), k, name) <==> Named(h, a, StrTab(h, a), k, name) {
      AlikeAt(h, a, b, k);
      assert IsNamed(h, b, k, name) <==> IsNamed(h, a, k, name);
    }
  }

  lemma {:induction false} AlikeFits(h: Header, a: Bytes, b: Bytes, prefix: Bytes)
    requires Alike(h, a, b)
    ensures Fits(h, b, prefix) == Fits(h, a, prefix)
  {
    AlikeNames(h, a, b);
    hide Alike, IsNamed, SysdirsFit, LensMissing;
    forall d: nat, l: nat | IsNamed(h, a, d, ".sysdirs") && IsNamed(h, a, l, ".sysdirslen")
      ensures SysdirsFit(h, b, prefix, d, l) == SysdirsFit(h, a, prefix, d, l)
    {
      NamedIsSpecial(h, a, d, l);
      AlikeFit(h, a, b, prefix, d, l);
    }
  }

  lemma {:induction false} AlikeFit(h: Header, a: Bytes, b: Bytes, prefix: Bytes, d: nat, l: nat)
    requires Alike(h, a, b) && d < h.shnum && l < h.shnum && Special(h, a, d)
    ensures SysdirsFit(h, b, prefix, d, l) == SysdirsFit(h, a, prefix, d, l)
  {
    AlikeAt(h, a, b, d);
    AlikeAt(h, a, b, l);
    hide Alike, Special, NewDirs, Paths, Subs, Width, ReadAt, Sec;
  }

  lemma {:induction false} AlikeSysdirs(h: Header, a: Bytes, b: Bytes, prefix: Bytes, out: Bytes)
    requires Alike(h, a, b) && SysdirsDone(h, b, prefix, out)
    ensures SysdirsDone(h, a, prefix, out)
  {
    hide Alike, IsLast, SysdirsAre, Special;
    forall d: nat, l: nat | IsLast(h, a, d, ".sysdirs") && IsLast(h, a, l, ".sysdirslen") ensures SysdirsAre(h, a, prefix, d, l, out) {
      AlikeLast(h, a, b, d, ".sysdirs");
      AlikeLast(h, a, b, l, ".sysdirslen");
      assert SysdirsAre(h, b, prefix, d, l, out);
      LastIsSpecial(h, a, d, l);
      AlikeAre(h, a, b, prefix, d, l, out);
    }
  }

  lemma {:induction false} AlikeAre(h: Header, a: Bytes, b: Bytes, prefix: Bytes, d: nat, l: nat, out: Bytes)
    requires Alike(h, a, b) && d < h.shnum && l < h.shnum && Special(h, a, d)
    ensures SysdirsAre(h, b, prefix, d, l, out) == SysdirsAre(h, a, prefix, d, l, out)
  {
    AlikeAt(h, a, b, d);
    AlikeAt(h, a, b, l);
    hide Alike, Special, Paths, Subs, Width, ReadAt, Sec, LensPacked, LensHold, SameBackwards;
  }

  lemma NamedIsSpecial(h: Header, a: Bytes, d: nat, l: nat)
    requires IsNamed(h, a, d, ".sysdirs") && IsNamed(h, a, l, ".sysdirslen")
    ensures d < h.shnum && l < h.shnum && Special(h, a, d) && Special(h, a, l)
  {
  }

  lemma LastIsSpecial(h: Header, a: Bytes, d: nat, l: nat)
    requires IsLast(h, a, d, ".sysdirs") && IsLast(h, a, l, ".sysdirslen")
    ensures d < h.shnum && l < h.shnum && Special(h, a, d) && Special(h, a, l)
  {
  }

  lemma {:induction false} OthersKeptToo(h: Header, bytes: Bytes, offset: nat, filesz: nat, dl: Bytes, cur: Bytes, out: Bytes)
    requires WellFormed(h, bytes, offset, filesz) && Alike(h, bytes, cur) && SameOutside(bytes, cur, offset, offset + filesz)
    requires OthersKept(h, cur, 0, 0, out) && InterpDone(h, bytes, offset, filesz, dl, cur)
    ensures OthersKept(h, bytes, offset, filesz, out) && InterpDone(h, bytes, offset, filesz, dl, out)
  {
    hide InterpAt, Layout, SectionAt, StrTab, SystemLib, ReadAt, CString, Special, Sec;
    forall k | 0 <= k < |bytes| && !MayChange(h, bytes, offset, filesz, k) ensures out[k] == bytes[k] {
      NoneNearer(h, bytes, cur, k);
    }
    forall k | offset <= k < offset + filesz ensures out[k] == cur[k] {
      forall i | 0 <= i < h.shnum && Special(h, bytes, i) ensures !(Sec(h, bytes, i).offset <= k < Sec(h, bytes, i).offset + Sec(h, bytes, i).size) {
        assert ApartFromSection(h, bytes, offset, filesz, i);
      }
      NoneNearer(h, bytes, cur, k);
    }
    assert out[offset..offset + filesz] == cur[offset..offset + filesz];
  }

  lemma NoneNearer(h: Header, bytes: Bytes, cur: Bytes, k: nat)
    requires Alike(h, bytes, cur)
    requires forall i :: 0 <= i < h.shnum && Special(h, bytes, i) ==> !(Sec(h, bytes, i).offset <= k < Sec(h, bytes, i).offset + Sec(h, bytes, i).size)
    ensures !MayChange(h, cur, 0, 0, k)
  {
    forall i | 0 <= i < h.shnum ensures Special(h, cur, i) == Special(h, bytes, i) && Sec(h, cur, i) == Sec(h, bytes, i) {
      AlikeAt(h, bytes, cur, i);
    }
    hide Special, Sec;
  }

  /**
   * A whole file. The length and all bytes stay but those of the interpreter and of the four sections; the
   * interpreter reads the new path, if it is one of the SDK and there is room; every other section became
   * what its own original text asks for; and why the script stops, if it does.
   */
  lemma {:induction false} FilePatched(bytes: Bytes, h: Header, offset: nat, filesz: nat, prefix: Bytes, dl: Bytes)
    requires |bytes| >= 64 && ParseHeader(bytes) == Some(h) && WellFormed(h, bytes, offset, filesz)
    requires Fits(h, bytes, prefix) && NulFree(prefix) && NulFree(dl)
    ensures var (r, out) := Patch(bytes, prefix, dl);
            Done(h, bytes, offset, filesz, prefix, dl, r, out)
  {
    var (r1, cur) := Interp(bytes, h, dl, 0);
    var (r, out) := Sysdirs(cur, h, prefix);
    assert Patch(bytes, prefix, dl) ==
           if r1 == Raised then (r1, cur) else if r != Fine then (r, out) else if |out| != |bytes| then (Exit, out) else (r1, out);
    assert offset + filesz <= |bytes| && h.shstrndx < h.shnum && InterpAt(h, bytes, offset, filesz);
    hide Patch, Interp, Sysdirs, WellFormed, Fits, NulFree, SomeNoRoom, LensMissing, SectionIs, SysdirsDone, InterpDone, SystemLib, ReadAt,
      ParseHeader, InterpAt, Alike, Layout;
    InterpFirst(h, bytes, dl, offset, filesz);
    AllStillThere(h, bytes, offset, filesz, cur);
    AlikeNames(h, bytes, cur);
    AlikeFits(h, bytes, cur, prefix);
    AlikeSections(h, bytes, cur, prefix);
    SysdirsOverall(h, cur, prefix);
    OthersKeptToo(h, bytes, offset, filesz, dl, cur, out);
    if r == Fine {
      AlikeSysdirs(h, bytes, cur, prefix, out);
    }
  }

  /** Only the interpreter can be too long. */
  lemma {:induction false} SectionsOutcome(b: Bytes, h: Header, strtab: Bytes, prefix: Bytes, i: nat, found: Found)
    ensures Sections(b, h, strtab, prefix, i, found).0 != NotRelocated
    decreases h.shnum - i
  {
    hide SectionAt;
    if i < h.shnum {
      var sec := SectionAt(h, b, i);
      if sec.Some? {
        var (r, out, found') := PatchSection(b, NameAt(strtab, sec.value.name), sec.value, prefix, found);
        hide PatchSection, NameAt;
        SectionOutcome(b, NameAt(strtab, sec.value.name), sec.value, prefix, found);
        SectionsOutcome(out, h, strtab, prefix, i + 1, found');
      }
    }
  }

  lemma {:induction false} SectionOutcome(b: Bytes, name: Bytes, sec: Section, prefix: Bytes, found: Found)
    ensures PatchSection(b, name, sec, prefix, found).0 != NotRelocated
  {
    hide Relocated, ReadAt, WriteAt, PatchSlots;
    SlotsOutcome(b, prefix, sec.offset, sec.size, 0);
  }

  lemma {:induction false} SlotsOutcome(b: Bytes, prefix: Bytes, at: nat, size: nat, offset: nat)
    ensures PatchSlots(b, prefix, at, size, offset).0 != NotRelocated
    decreases size - offset
  {
    hide Relocated, ReadAt, WriteAt;
    if offset + SLOT <= size {
      var r := Relocated(prefix, ReadAt(b, at + offset, SLOT), SLOT);
      if r.Some? {
        SlotsOutcome(WriteAt(b, at + offset, r.value), prefix, at, size, offset + SLOT);
      }
    }
  }

  lemma {:induction false} SysdirsOutcome(b: Bytes, h: Header, prefix: Bytes)
    ensures Sysdirs(b, h, prefix).0 != NotRelocated
  {
    hide Sections, SectionAt;
    var strsec := SectionAt(h, b, h.shstrndx);
    if strsec.Some? {
      SectionsOutcome(b, h, ReadAt(b, strsec.value.offset, strsec.value.size), prefix, 0, Found(None, None));
    }
  }

  /** What the script does for one file that it can open. */
  method RelocateFile(f: File, prefix: Bytes, dl: Bytes) returns (r: Outcome)
    modifies f
    ensures |old(f.bytes)| >= 64 ==> (r, f.bytes) == Patch(old(f.bytes), prefix, dl)
    ensures r == Fine || r == NotRelocated ==> |f.bytes| == |old(f.bytes)|
    ensures |old(f.bytes)| < 64 || ParseHeader(old(f.bytes)).None? ==> r == Fine && f.bytes == old(f.bytes)
    ensures forall offset, filesz ::
      |old(f.bytes)| >= 64 && ParseHeader(old(f.bytes)).Some? && NulFree(prefix) && NulFree(dl)
      && WellFormed(ParseHeader(old(f.bytes)).value, old(f.bytes), offset, filesz)
      && Fits(ParseHeader(old(f.bytes)).value, old(f.bytes), prefix)
      ==> Done(ParseHeader(old(f.bytes)).value, old(f.bytes), offset, filesz, prefix, dl, r, f.bytes)
  {
    hide Interp, Sysdirs, ParseHeader, WellFormed, Fits, Done, NulFree;
    var oldSize := |f.bytes|;
    ghost var bytes := f.bytes;
    if oldSize < 64 {
      return Fine;
    }
    var h := ParseHeader(f.bytes);
    if h.None? {
      return Fine;
    }
    r := ChangeInterpreter(f, h.value, dl);
    if r != Raised {
      SysdirsOutcome(f.bytes, h.value, prefix);
      var r' := ChangeDlSysdirs(f, h.value, prefix);
      if r' != Fine {
        r := r';
      } else if oldSize != |f.bytes| {
        r := Exit;
      }
    }
    forall offset, filesz | NulFree(prefix) && NulFree(dl) && WellFormed(h.value, bytes, offset, filesz) && Fits(h.value, bytes, prefix)
      ensures Done(h.value, bytes, offset, filesz, prefix, dl, r, f.bytes)
    {
      FilePatched(bytes, h.value, offset, filesz, prefix, dl);
    }
  }
}
