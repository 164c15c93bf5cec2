// Patching the binaries of an SDK in place: the interpreter, and paths in sections of the loader.
module Relocate {
  import opened Options
  import opened ByteStrings

  // ---- files ----

  /** What `f.seek(pos); f.read(n)` gives: less at the end of the file. */
  function ReadAt(bytes: Bytes, pos: nat, n: nat): (r: Bytes)
    ensures |r| <= n && (pos + n <= |bytes| ==> r == bytes[pos..pos + n])
  {
    if pos >= |bytes| then [] else if pos + n <= |bytes| then bytes[pos..pos + n] else bytes[pos..]
  }

  /** What `f.seek(pos); f.write(b)` leaves: the file grows if need be. */
  function WriteAt(bytes: Bytes, pos: nat, b: Bytes): Bytes {
    if b == [] then bytes
    else if pos > |bytes| then bytes + Nuls(pos - |bytes|) + b
    else if pos + |b| <= |bytes| then bytes[..pos] + b + bytes[pos + |b|..]
    else bytes[..pos] + b
  }

  /** A read gives the bytes from its place on, as far as there are any. */
  lemma ReadIs(bytes: Bytes, pos: nat, n: nat)
    ensures var r := ReadAt(bytes, pos, n);
            && |r| == (if pos >= |bytes| then 0 else if pos + n <= |bytes| then n else |bytes| - pos)
            && forall k :: 0 <= k < |r| ==> r[k] == bytes[pos + k]
  {
  }

  /** What is written stands at its place, everything else stays, and a gap behind the old end is filled with NULs. */
  lemma WrittenIs(bytes: Bytes, pos: nat, b: Bytes)
    requires b != []
    ensures var r := WriteAt(bytes, pos, b);
            && |r| == (if pos + |b| <= |bytes| then |bytes| else pos + |b|)
            && forall k :: 0 <= k < |r| ==> r[k] == if pos <= k < pos + |b| then b[k - pos] else if k < |bytes| then bytes[k] else '\0'
  {
  }

  class File {
    var bytes: Bytes
    var pos: nat

    method Seek(n: nat)
      modifies this
      ensures pos == n && bytes == old(bytes)
    {
      pos := n;
    }

    method Read(n: nat) returns (b: Bytes)
      modifies this
      ensures b == ReadAt(bytes, old(pos), n) && bytes == old(bytes) && pos == old(pos) + |b|
    {
      b := ReadAt(bytes, pos, n);
      pos := pos + |b|;
    }

    method Write(b: Bytes)
      modifies this
      ensures bytes == WriteAt(old(bytes), old(pos), b) && pos == old(pos) + |b|
    {
      bytes := WriteAt(bytes, pos, b);
      pos := pos + |b|;
    }
  }

  // ---- struct.unpack ----

  /** An unsigned number in little-endian order. */
  function Little(b: Bytes): nat {
    if b == [] then 0 else b[0] as int + 256 * Little(b[1..])
  }

  function Reversed(b: Bytes): Bytes {
    if b == [] then [] else Reversed(b[1..]) + [b[0]]
  }

  function Number(little: bool, b: Bytes): nat {
    if little then Little(b) else Little(Reversed(b))
  }

  /** The number of size bytes at an offset. */
  function Field(little: bool, b: Bytes, at: nat, size: nat): nat
    requires at + size <= |b|
  {
    Number(little, b[at..at + size])
  }

  /** `struct.pack("<L", n)`, `struct.pack("<Q", n)` */
  function Packed(n: nat, size: nat): (b: Bytes)
    ensures |b| == size
  {
    if size == 0 then [] else [(n % 256) as char] + Packed(n / 256, size - 1)
  }

  /** The fields of the ELF header that matter. */
  datatype Header = Header(wide: bool, little: bool, phoff: nat, phentsize: nat, phnum: nat,
                           shoff: nat, shentsize: nat, shnum: nat, shstrndx: nat)

  datatype Outcome = Fine | NotRelocated | Exit | Raised

  /** `get_arch()` and `parse_elf_header()`; None is a file that is left alone. */
  function ParseHeader(bytes: Bytes): Option<Header>
    requires |bytes| >= 64
  {
    var little := bytes[5] == 1 as char;
    var f := (at: nat, size: nat) requires at + size <= 64 => Field(little, bytes, at, size);
    if bytes[0] != 0x7f as char then None
    else if bytes[4] == 1 as char then
      Some(Header(false, little, f(28, 4), f(42, 2), f(44, 2), f(32, 4), f(46, 2), f(48, 2), f(50, 2)))
    else if bytes[4] == 2 as char then
      Some(Header(true, little, f(32, 8), f(54, 2), f(56, 2), f(40, 8), f(58, 2), f(60, 2), f(62, 2)))
    else None
  }

  /** A program header: p_type, p_offset and p_filesz; None is a struct.error. */
  function ProgramHeader(h: Header, b: Bytes): Option<(nat, nat, nat)> {
    if h.wide then
      if |b| != 56 then None else Some((Field(h.little, b, 0, 4), Field(h.little, b, 8, 8), Field(h.little, b, 32, 8)))
    else
      if |b| != 32 then None else Some((Field(h.little, b, 0, 4), Field(h.little, b, 4, 4), Field(h.little, b, 16, 4)))
  }

  function ProgramAt(h: Header, bytes: Bytes, i: nat): Option<(nat, nat, nat)> {
    ProgramHeader(h, ReadAt(bytes, h.phoff + i * h.phentsize, h.phentsize))
  }

  datatype Section = Section(name: nat, kind: nat, offset: nat, size: nat)

  /** A section header: sh_name, sh_type, sh_offset and sh_size. */
  function SectionHeader(h: Header, b: Bytes): Option<Section> {
    if h.wide then
      if |b| != 64 then None
      else Some(Section(Field(h.little, b, 0, 4), Field(h.little, b, 4, 4), Field(h.little, b, 24, 8), Field(h.little, b, 32, 8)))
    else
      if |b| != 40 then None
      else Some(Section(Field(h.little, b, 0, 4), Field(h.little, b, 4, 4), Field(h.little, b, 16, 4), Field(h.little, b, 20, 4)))
  }

  /** Where section header i is. */
  function HeaderAt(h: Header, i: nat): nat {
    h.shoff + i * h.shentsize
  }

  function SectionAt(h: Header, bytes: Bytes, i: nat): Option<Section> {
    SectionHeader(h, ReadAt(bytes, HeaderAt(h, i), h.shentsize))
  }

  // ---- change_interpreter ----

  predicate StartsWith(b: Bytes, p: string) {
    |p| <= |b| && b[..|p|] == p
  }

  /** The interpreter of a binary that is not part of the SDK. */
  predicate SystemLib(fname: Bytes) {
    StartsWith(fname, "/lib/") || StartsWith(fname, "/lib64/") || StartsWith(fname, "/lib32/")
    || StartsWith(fname, "/usr/lib32/") || StartsWith(fname, "/usr/lib64/")
  }

  /** What is done for one program header of type PT_INTERP. */
  function PatchInterp(bytes: Bytes, offset: nat, filesz: nat, dl: Bytes): (Outcome, Bytes) {
    if SystemLib(ReadAt(bytes, offset, 11)) || filesz == 0 then (Fine, bytes)
    else if |dl| >= filesz then (NotRelocated, bytes)
    else (Fine, WriteAt(bytes, offset, dl + Nuls(filesz - |dl|)))
  }

  /** From program header i on: only the first of type PT_INTERP counts. */
  function Interp(bytes: Bytes, h: Header, dl: Bytes, i: nat): (Outcome, Bytes)
    decreases h.phnum - i
  {
    if i >= h.phnum then (Fine, bytes)
    else
      var ph := ProgramAt(h, bytes, i);
      if ph.None? then (Raised, bytes)
      else if ph.value.0 != 3 then Interp(bytes, h, dl, i + 1)
      else PatchInterp(bytes, ph.value.1, ph.value.2, dl)
  }

  /** `change_interpreter(elf_file_name)` */
  method ChangeInterpreter(f: File, h: Header, newDlPath: Bytes) returns (r: Outcome)
    modifies f
    ensures (r, f.bytes) == Interp(old(f.bytes), h, newDlPath, 0)
  {
    hide ProgramHeader, SystemLib, ReadAt, WriteAt, Nuls, Field;
    for i := 0 to h.phnum
      invariant f.bytes == old(f.bytes) && Interp(f.bytes, h, newDlPath, 0) == Interp(f.bytes, h, newDlPath, i)
    {
      f.Seek(h.phoff + i * h.phentsize);
      var phHdr := f.Read(h.phentsize);
      var ph := ProgramHeader(h, phHdr);
      if ph.None? {
        return Raised;
      }
      var (pType, pOffset, pFilesz) := ph.value;
      if pType == 3 {
        f.Seek(pOffset);
        var fname := f.Read(11);
        if SystemLib(fname) || pFilesz == 0 {
          return Fine;
        }
        if |newDlPath| >= pFilesz {
          return NotRelocated;
        }
        var dlPath := newDlPath + Nuls(pFilesz - |newDlPath|);
        f.Seek(pOffset);
        f.Write(dlPath);
        return Fine;
      }
    }
    r := Fine;
  }

  /** The bytes up to the first NUL. */
  function CString(b: Bytes): Bytes {
    if b == [] || b[0] == '\0' then [] else [b[0]] + CString(b[1..])
  }

  ghost predicate NulFree(b: Bytes) {
    forall i :: 0 <= i < |b| ==> b[i] != '\0'
  }

  lemma {:induction false} CStringPadded(b: Bytes, n: nat)
    requires NulFree(b)
    ensures CString(b + Nuls(n)) == b
  {
    if b == [] {
      assert b + Nuls(n) == Nuls(n);
    } else {
      assert (b + Nuls(n))[1..] == b[1..] + Nuls(n);
      CStringPadded(b[1..], n);
    }
  }

  /** Only bytes from lo up to hi may differ, and the length stays. */
  ghost predicate SameOutside(a: Bytes, b: Bytes, lo: int, hi: int) {
    |a| == |b| && forall k :: 0 <= k < |a| && !(lo <= k < hi) ==> a[k] == b[k]
  }

  lemma WriteInRange(bytes: Bytes, pos: nat, b: Bytes)
    requires pos + |b| <= |bytes|
    ensures var r := WriteAt(bytes, pos, b);
            SameOutside(bytes, r, pos, pos + |b|) && r[pos..pos + |b|] == b
  {
  }

  /** The first program header of type PT_INTERP, from i on. */
  ghost predicate IsInterp(bytes: Bytes, h: Header, i: nat, at: nat, offset: nat, filesz: nat) {
    && i <= at < h.phnum
    && (forall k :: i <= k <= at ==> ProgramAt(h, bytes, k).Some?)
    && (forall k :: i <= k < at ==> ProgramAt(h, bytes, k).value.0 != 3)
    && ProgramAt(h, bytes, at).value == (3, offset, filesz)
  }

  lemma {:induction false} InterpIsFirst(bytes: Bytes, h: Header, dl: Bytes, i: nat, at: nat, offset: nat, filesz: nat)
    requires IsInterp(bytes, h, i, at, offset, filesz)
    ensures Interp(bytes, h, dl, i) == PatchInterp(bytes, offset, filesz, dl)
    decreases at - i
  {
    hide ProgramAt;
    assert i <= at && ProgramAt(h, bytes, i).Some?;
    if i < at {
      InterpIsFirst(bytes, h, dl, i + 1, at, offset, filesz);
    }
  }

  /**
   * With the interpreter inside the file, patching keeps the length and every byte outside it; and exactly
   * if the binary is one of the SDK and there is room, the path of the interpreter is then the new one.
   */
  lemma {:induction false} InterpreterPatched(bytes: Bytes, h: Header, dl: Bytes, at: nat, offset: nat, filesz: nat)
    requires IsInterp(bytes, h, 0, at, offset, filesz) && offset + filesz <= |bytes| && NulFree(dl)
    ensures var (r, out) := Interp(bytes, h, dl, 0);
            && SameOutside(bytes, out, offset, offset + filesz)
            && (if SystemLib(ReadAt(bytes, offset, 11)) || filesz == 0 then r == Fine && out == bytes
                else if |dl| >= filesz then r == NotRelocated && out == bytes
                else r == Fine && CString(out[offset..offset + filesz]) == dl)
  {
    InterpIsFirst(bytes, h, dl, 0, at, offset, filesz);
    hide *;
    InterpPatched(bytes, offset, filesz, dl);
  }

  lemma {:induction false} InterpPatched(bytes: Bytes, offset: nat, filesz: nat, dl: Bytes)
    requires offset + filesz <= |bytes| && NulFree(dl)
    ensures var (r, out) := PatchInterp(bytes, offset, filesz, dl);
            && SameOutside(bytes, out, offset, offset + filesz)
            && (if SystemLib(ReadAt(bytes, offset, 11)) || filesz == 0 then r == Fine && out == bytes
                else if |dl| >= filesz then r == NotRelocated && out == bytes
                else r == Fine && CString(out[offset..offset + filesz]) == dl)
  {
    hide SystemLib, WriteAt, ReadAt, CString, Nuls, NulFree;
    if |dl| < filesz {
      var padded := dl + Nuls(filesz - |dl|);
      WriteInRange(bytes, offset, padded);
      CStringPadded(dl, filesz - |dl|);
    }
  }

  // ---- replacing the prefix ----

  const OLD_PREFIX: string := "##DEFAULT_INSTALL_DIR##"

  /** `old_prefix.sub(new_prefix, s)`, for a new prefix without backslashes. */
  function Sub(prefix: Bytes, s: Bytes): Bytes
    decreases |s|
  {
    if s == [] then []
    else if StartsWith(s, OLD_PREFIX) then prefix + Sub(prefix, s[|OLD_PREFIX|..])
    else [s[0]] + Sub(prefix, s[1..])
  }

  ghost predicate OccursAt(s: Bytes, k: nat) {
    k + |OLD_PREFIX| <= |s| && s[k..k + |OLD_PREFIX|] == OLD_PREFIX
  }

  lemma {:induction false} SubStep(prefix: Bytes, s: Bytes)
    requires s != []
    ensures OccursAt(s, 0) ==> Sub(prefix, s) == prefix + Sub(prefix, s[|OLD_PREFIX|..])
    ensures !OccursAt(s, 0) ==> Sub(prefix, s) == [s[0]] + Sub(prefix, s[1..])
  {
    assert StartsWith(s, OLD_PREFIX) <==> OccursAt(s, 0);
  }

  lemma OccursLater(s: Bytes, j: nat)
    requires s != []
    ensures OccursAt(s[1..], j) <==> OccursAt(s, j + 1)
  {
    var rest, n := s[1..], |OLD_PREFIX|;
    if j + n <= |rest| {
      assert rest[j..j + n] == s[j + 1..j + 1 + n];
    }
  }

  /** Text before the first occurrence stays, the occurrence is replaced, and it goes on behind it. */
  lemma {:induction false} SubFirst(prefix: Bytes, s: Bytes, k: nat)
    requires OccursAt(s, k) && forall j :: 0 <= j < k ==> !OccursAt(s, j)
    ensures Sub(prefix, s) == s[..k] + (prefix + Sub(prefix, s[k + |OLD_PREFIX|..]))
    decreases k
  {
    var n := |OLD_PREFIX|;
    assert s != [] && k + n <= |s|;
    hide Sub, OccursAt;
    SubStep(prefix, s);
    if k == 0 {
      assert s[..0] == [];
    } else {
      assert !OccursAt(s, 0);
      var rest := s[1..];
      forall j | 0 <= j < k ensures OccursAt(rest, j) <==> OccursAt(s, j + 1) {
        OccursLater(s, j);
      }
      SubFirst(prefix, rest, k - 1);
      assert s[..k] == [s[0]] + rest[..k - 1] && rest[k - 1 + n..] == s[k + n..];
    }
  }

  /** What is replaced, spelled out. */
  lemma {:induction false} PrefixReplaced(prefix: Bytes, a: Bytes, b: Bytes)
    requires forall i :: 0 <= i < |a| ==> a[i] != '#'
    ensures Sub(prefix, a + "##DEFAULT_INSTALL_DIR##" + b) == a + (prefix + Sub(prefix, b))
  {
    var p := "##DEFAULT_INSTALL_DIR##";
    var s := a + p + b;
    assert s[|a|..|a| + |p|] == p && s[|a| + |p|..] == b && s[..|a|] == a;
    forall j | 0 <= j < |a| ensures !OccursAt(s, j) {
      assert s[j] == a[j] && p[0] == '#';
      assert j + |p| <= |s| ==> s[j..j + |p|][0] == s[j];
    }
    SubFirst(prefix, s, |a|);
  }

  /** Without an occurrence nothing changes. */
  lemma {:induction false} SubNone(prefix: Bytes, s: Bytes)
    requires forall j :: 0 <= j < |s| ==> !OccursAt(s, j)
    ensures Sub(prefix, s) == s
  {
    if s != [] {
      hide OccursAt;
      SubStep(prefix, s);
      assert !OccursAt(s, 0);
      forall j | 0 <= j < |s| - 1 ensures !OccursAt(s[1..], j) {
        OccursLater(s, j);
      }
      SubNone(prefix, s[1..]);
      assert s == [s[0]] + s[1..];
    }
  }

  lemma {:induction false} SubNulFree(prefix: Bytes, s: Bytes)
    requires NulFree(prefix) && NulFree(s)
    ensures NulFree(Sub(prefix, s))
    decreases |s|
  {
    if s != [] {
      if StartsWith(s, OLD_PREFIX) {
        SubNulFree(prefix, s[|OLD_PREFIX|..]);
      } else {
        SubNulFree(prefix, s[1..]);
      }
    }
  }

  /** A path substituted and padded to its room; None when there is not enough of it. */
  function Relocated(prefix: Bytes, path: Bytes, room: nat): (r: Option<Bytes>)
    ensures r.Some? ==> |r.value| == room
  {
    var p := RStrip(Sub(prefix, path), '\0');
    if |p| >= room then None else Some(p + Nuls(room - |p|))
  }

  const SLOT: nat := 4096

  /** From slot offset on, the slots of .gccrelocprefix. */
  function PatchSlots(bytes: Bytes, prefix: Bytes, at: nat, size: nat, offset: nat): (Outcome, Bytes)
    decreases size - offset
  {
    if offset + SLOT > size then (Fine, bytes)
    else
      var r := Relocated(prefix, ReadAt(bytes, at + offset, SLOT), SLOT);
      if r.None? then (Exit, bytes)
      else PatchSlots(WriteAt(bytes, at + offset, r.value), prefix, at, size, offset + SLOT)
  }

  method ChangeSlots(f: File, prefix: Bytes, at: nat, size: nat) returns (r: Outcome)
    requires f.pos == at
    modifies f
    ensures (r, f.bytes) == PatchSlots(old(f.bytes), prefix, at, size, 0)
  {
    hide Relocated, ReadAt, WriteAt;
    var offset := 0;
    while offset + 4096 <= size
      invariant f.pos == at + offset
      invariant PatchSlots(old(f.bytes), prefix, at, size, 0) == PatchSlots(f.bytes, prefix, at, size, offset)
      decreases size - offset
    {
      var path := f.Read(4096);
      var newPath := Relocated(prefix, path, 4096);
      if newPath.None? {
        return Exit;
      }
      f.Seek(at + offset);
      f.Write(newPath.value);
      offset := offset + 4096;
    }
    r := Fine;
  }

  /** The slots of a section, each from its own text; what is left over stays. */
  function Slots(prefix: Bytes, content: Bytes): (r: Option<Bytes>)
    ensures r.Some? ==> |r.value| == |content|
  {
    if |content| < SLOT then Some(content)
    else
      var first, rest := Relocated(prefix, content[..SLOT], SLOT), Slots(prefix, content[SLOT..]);
      if first.None? || rest.None? then None else Some(first.value + rest.value)
  }

  /** Where both agree outside of a range, so they do on what is inside of it and is not. */
  lemma SameSlice(a: Bytes, b: Bytes, lo: int, hi: int, from: nat, to: nat)
    requires SameOutside(a, b, lo, hi) && from <= to <= |a| && (to <= lo || hi <= from)
    ensures a[from..to] == b[from..to]
  {
  }

  lemma {:induction false} SlotsPatched(bytes: Bytes, prefix: Bytes, at: nat, size: nat, offset: nat)
    requires offset <= size && at + size <= |bytes|
    ensures var (r, out) := PatchSlots(bytes, prefix, at, size, offset);
            var want := Slots(prefix, bytes[at + offset..at + size]);
            && SameOutside(bytes, out, at + offset, at + size)
            && (r == if want.Some? then Fine else Exit)
            && (want.Some? ==> out[at + offset..at + size] == want.value)
    decreases size - offset
  {
    hide Relocated, WriteAt, ReadAt;
    var content := bytes[at + offset..at + size];
    if offset + SLOT <= size {
      assert content[..SLOT] == bytes[at + offset..at + offset + SLOT];
      var r := Relocated(prefix, content[..SLOT], SLOT);
      if r.Some? {
        var next := WriteAt(bytes, at + offset, r.value);
        WriteInRange(bytes, at + offset, r.value);
        SlotsPatched(next, prefix, at, size, offset + SLOT);
        SameSlice(bytes, next, at + offset, at + offset + SLOT, at + offset + SLOT, at + size);
        assert content[SLOT..] == bytes[at + offset + SLOT..at + size];
        var out := PatchSlots(next, prefix, at, size, offset + SLOT).1;
        SameSlice(next, out, at + offset + SLOT, at + size, at + offset, at + offset + SLOT);
        assert out[at + offset..at + size] == out[at + offset..at + offset + SLOT] + out[at + offset + SLOT..at + size];
      }
    }
  }

  /** Every full slot becomes its own text substituted and padded. */
  lemma {:induction false} SlotIsOwnText(prefix: Bytes, content: Bytes, j: nat)
    requires Slots(prefix, content).Some? && (j + 1) * SLOT <= |content|
    ensures var out := Slots(prefix, content).value;
            Relocated(prefix, content[j * SLOT..(j + 1) * SLOT], SLOT) == Some(out[j * SLOT..(j + 1) * SLOT])
    decreases j
  {
    hide Relocated;
    var out, rest := Slots(prefix, content).value, content[SLOT..];
    if j > 0 {
      SlotIsOwnText(prefix, rest, j - 1);
      assert rest[(j - 1) * SLOT..j * SLOT] == content[j * SLOT..(j + 1) * SLOT];
      assert Slots(prefix, rest).value == out[SLOT..];
      assert out[SLOT..][(j - 1) * SLOT..j * SLOT] == out[j * SLOT..(j + 1) * SLOT];
    }
  }

  // ---- change_dl_sysdirs ----

  /** `b.find(b"\0", from)`, the length standing for -1. */
  function FindNul(b: Bytes, from: nat): (k: nat)
    ensures k <= |b|
    decreases |b| - from
  {
    if from >= |b| then |b| else if b[from] == '\0' then from else FindNul(b, from + 1)
  }

  /** The name of a section; Python takes one byte off when there is no NUL. */
  function NameAt(strtab: Bytes, at: nat): Bytes {
    var k := FindNul(strtab, at);
    var end := if k < |strtab| then k else |strtab| - 1;
    if at <= end then strtab[at..end] else []
  }

  /** What was seen of .sysdirs (its text, offset and size) and of .sysdirslen (its offset). */
  datatype Found = Found(sysdirs: Option<(Bytes, nat, nat)>, lens: Option<nat>)

  /** What is done for one section. */
  function PatchSection(bytes: Bytes, name: Bytes, sec: Section, prefix: Bytes, found: Found): (Outcome, Bytes, Found) {
    if sec.kind != 1 then (Fine, bytes, found)
    else if name == ".sysdirs" then
      (Fine, bytes, found.(sysdirs := Some((ReadAt(bytes, sec.offset, sec.size), sec.offset, sec.size))))
    else if name == ".sysdirslen" then (Fine, bytes, found.(lens := Some(sec.offset)))
    else if name == ".ldsocache" then
      var r := Relocated(prefix, ReadAt(bytes, sec.offset, sec.size), sec.size);
      if r.None? then (Exit, bytes, found) else (Fine, WriteAt(bytes, sec.offset, r.value), found)
    else if name == ".gccrelocprefix" then
      var (r, out) := PatchSlots(bytes, prefix, sec.offset, sec.size, 0);
      (r, out, found)
    else (Fine, bytes, found)
  }

  /** The loop over the sections, from section i on. */
  function Sections(bytes: Bytes, h: Header, strtab: Bytes, prefix: Bytes, i: nat, found: Found): (Outcome, Bytes, Found)
    decreases h.shnum - i
  {
    if i >= h.shnum then (Fine, bytes, found)
    else
      var sec := SectionAt(h, bytes, i);
      if sec.None? then (Raised, bytes, found)
      else
        var (r, out, found') := PatchSection(bytes, NameAt(strtab, sec.value.name), sec.value, prefix, found);
        if r != Fine then (r, out, found') else Sections(out, h, strtab, prefix, i + 1, found')
  }

  /** The strings up to the first that is empty. */
  function Paths(b: Bytes): seq<Bytes>
    decreases |b|
  {
    var first := CString(b);
    if first == [] then [] else [first] + if |first| < |b| then Paths(b[|first| + 1..]) else []
  }

  function NewDirs(prefix: Bytes, paths: seq<Bytes>): Bytes {
    if paths == [] then []
    else NewDirs(prefix, paths[..|paths| - 1]) + (Sub(prefix, paths[|paths| - 1]) + ['\0'])
  }

  function NewLens(prefix: Bytes, paths: seq<Bytes>, width: nat): Bytes {
    if paths == [] then []
    else NewLens(prefix, paths[..|paths| - 1], width) + Packed(|Sub(prefix, paths[|paths| - 1])|, width)
  }

  function Width(h: Header): nat {
    if h.wide then 8 else 4
  }

  /** What is done after the loop; without .sysdirslen a variable is not bound. */
  function PatchSysdirs(bytes: Bytes, h: Header, prefix: Bytes, found: Found): (Outcome, Bytes) {
    if found.sysdirs.None? then (Fine, bytes)
    else if found.lens.None? then (Raised, bytes)
    else
      var (text, offset, size) := found.sysdirs.value;
      var dirs := NewDirs(prefix, Paths(text));
      var padding := if |dirs| < size then Nuls(size - |dirs|) else [];
      (Fine, WriteAt(WriteAt(bytes, offset, dirs + padding), found.lens.value, NewLens(prefix, Paths(text), Width(h))))
  }

  /** All of it. */
  function Sysdirs(bytes: Bytes, h: Header, prefix: Bytes): (Outcome, Bytes) {
    var strsec := SectionAt(h, bytes, h.shstrndx);
    if strsec.None? then (Raised, bytes)
    else
      var strtab := ReadAt(bytes, strsec.value.offset, strsec.value.size);
      var (r, out, found) := Sections(bytes, h, strtab, prefix, 0, Found(None, None));
      if r != Fine then (r, out) else PatchSysdirs(out, h, prefix, found)
  }

  /** The loop of `change_dl_sysdirs` over the sections. */
  method ChangeSections(f: File, h: Header, strtab: Bytes, prefix: Bytes) returns (r: Outcome, found: Found)
    modifies f
    ensures (r, f.bytes, found) == Sections(old(f.bytes), h, strtab, prefix, 0, Found(None, None))
  {
    hide SectionHeader, ReadAt, WriteAt, PatchSection, NameAt;
    found := Found(None, None);
    for i := 0 to h.shnum
      invariant Sections(old(f.bytes), h, strtab, prefix, 0, Found(None, None)) == Sections(f.bytes, h, strtab, prefix, i, found)
    {
      f.Seek(h.shoff + i * h.shentsize);
      var shHdr := f.Read(h.shentsize);
      var sec := SectionHeader(h, shHdr);
      if sec.None? {
        return Raised, found;
      }
      r, found := ChangeSection(f, NameAt(strtab, sec.value.name), sec.value, prefix, found);
      if r != Fine {
        return;
      }
    }
    r := Fine;
  }

  /** The body of that loop. */
  method ChangeSection(f: File, name: Bytes, sec: Section, prefix: Bytes, found: Found) returns (r: Outcome, found': Found)
    modifies f
    ensures (r, f.bytes, found') == PatchSection(old(f.bytes), name, sec, prefix, found)
  {
    hide ReadAt, WriteAt, Sub, RStrip, Nuls, PatchSlots;
    r, found' := Fine, found;
    if sec.kind == 1 {
      f.Seek(sec.offset);
      if name == ".sysdirs" {
        var text := f.Read(sec.size);
        found' := found.(sysdirs := Some((text, sec.offset, sec.size)));
      } else if name == ".sysdirslen" {
        var text := f.Read(sec.size);
        found' := found.(lens := Some(sec.offset));
      } else if name == ".ldsocache" {
        var path := f.Read(sec.size);
        var newPath := RStrip(Sub(prefix, path), '\0');
        if |newPath| >= sec.size {
          return Exit, found;
        }
        newPath := newPath + Nuls(sec.size - |newPath|);
        f.Seek(sec.offset);
        f.Write(newPath);
      } else if name == ".gccrelocprefix" {
        r := ChangeSlots(f, prefix, sec.offset, sec.size);
      }
    }
  }

  /** What comes after the loop. */
  method ChangeSysdirs(f: File, h: Header, prefix: Bytes, found: Found) returns (r: Outcome)
    modifies f
    ensures (r, f.bytes) == PatchSysdirs(old(f.bytes), h, prefix, found)
  {
    hide ReadAt, WriteAt, Sub, Packed, Nuls;
    if found.sysdirs.None? {
      return Fine;
    }
    if found.lens.None? {
      return Raised;
    }
    var (text, offset, size) := found.sysdirs.value;
    var paths := Paths(text);
    var dirs: Bytes, lens: Bytes := [], [];
    for i := 0 to |paths|
      invariant dirs == NewDirs(prefix, paths[..i]) && lens == NewLens(prefix, paths[..i], Width(h))
    {
      assert paths[..i + 1][..i] == paths[..i];
      var newPath := Sub(prefix, paths[i]);
      dirs := dirs + (newPath + ['\0']);
      lens := lens + Packed(|newPath|, Width(h));
    }
    assert paths[..|paths|] == paths;
    dirs := dirs + if |dirs| < size then Nuls(size - |dirs|) else [];
    f.Seek(offset);
    f.Write(dirs);
    f.Seek(found.lens.value);
    f.Write(lens);
    r := Fine;
  }

  // ---- sections in their place ----

  /** A section that is rewritten in the loop. */
  predicate Rewritten(name: Bytes, sec: Section) {
    sec.kind == 1 && (name == ".ldsocache" || name == ".gccrelocprefix")
  }

  /** What it is rewritten to. */
  function Want(name: Bytes, sec: Section, prefix: Bytes, content: Bytes): Option<Bytes> {
    if name == ".ldsocache" then Relocated(prefix, content, sec.size) else Slots(prefix, content)
  }

  function Sec(h: Header, bytes: Bytes, i: nat): Section {
    var sec := SectionAt(h, bytes, i);
    if sec.None? then Section(0, 0, 0, 0) else sec.value
  }

  function Name(h: Header, bytes: Bytes, strtab: Bytes, i: nat): Bytes {
    NameAt(strtab, Sec(h, bytes, i).name)
  }

  predicate Apart(lo: nat, size: nat, lo': nat, size': nat) {
    lo + size <= lo' || lo' + size' <= lo
  }

  predicate HasHeader(h: Header, bytes: Bytes, i: nat) {
    SectionAt(h, bytes, i).Some? && HeaderAt(h, i) + h.shentsize <= |bytes|
  }

  predicate InFile(h: Header, bytes: Bytes, i: nat) {
    var sec := Sec(h, bytes, i);
    sec.kind == 1 ==> sec.offset + sec.size <= |bytes|
  }

  /** Section i does not share bytes with header j, nor with another section j. */
  predicate Disjoint(h: Header, bytes: Bytes, i: nat, j: nat) {
    var si, sj := Sec(h, bytes, i), Sec(h, bytes, j);
    && (si.kind == 1 ==> Apart(si.offset, si.size, HeaderAt(h, j), h.shentsize))
    && (i != j && si.kind == 1 && sj.kind == 1 ==> Apart(si.offset, si.size, sj.offset, sj.size))
  }

  /** The sections of kind SHT_PROGBITS are inside the file, and apart from each other and from the headers. */
  ghost predicate Layout(h: Header, bytes: Bytes) {
    && (forall i :: 0 <= i < h.shnum ==> HasHeader(h, bytes, i))
    && (forall i :: 0 <= i < h.shnum ==> InFile(h, bytes, i))
    && (forall i, j :: 0 <= i < h.shnum && 0 <= j < h.shnum ==> Disjoint(h, bytes, i, j))
  }

  function Content(bytes: Bytes, sec: Section): Bytes {
    ReadAt(bytes, sec.offset, sec.size)
  }

  /** A byte of a section that is rewritten before section n. */
  ghost predicate InRewritten(h: Header, bytes: Bytes, strtab: Bytes, n: nat, k: nat) {
    exists i :: 0 <= i < n && i < h.shnum && Rewritten(Name(h, bytes, strtab, i), Sec(h, bytes, i))
                && Sec(h, bytes, i).offset <= k < Sec(h, bytes, i).offset + Sec(h, bytes, i).size
  }

  /** cur is the file when the sections before n are done. */
  ghost predicate DoneUpTo(h: Header, bytes: Bytes, strtab: Bytes, prefix: Bytes, n: nat, cur: Bytes) {
    && |cur| == |bytes|
    && (forall k :: 0 <= k < |bytes| && !InRewritten(h, bytes, strtab, n, k) ==> cur[k] == bytes[k])
    && (forall i :: 0 <= i < n && i < h.shnum && Rewritten(Name(h, bytes, strtab, i), Sec(h, bytes, i)) ==>
          Want(Name(h, bytes, strtab, i), Sec(h, bytes, i), prefix, Content(bytes, Sec(h, bytes, i)))
          == Some(Content(cur, Sec(h, bytes, i))))
  }

  lemma SliceOf(bytes: Bytes, cur: Bytes, at: nat, size: nat)
    requires |cur| == |bytes| && at + size <= |bytes|
    requires forall k :: at <= k < at + size ==> cur[k] == bytes[k]
    ensures ReadAt(cur, at, size) == ReadAt(bytes, at, size)
  {
  }

  lemma NotRewrittenYet(h: Header, bytes: Bytes, strtab: Bytes, n: nat, k: nat)
    requires Layout(h, bytes) && n < h.shnum
    requires var sec := Sec(h, bytes, n);
             || HeaderAt(h, n) <= k < HeaderAt(h, n) + h.shentsize
             || (sec.kind == 1 && sec.offset <= k < sec.offset + sec.size)
    ensures !InRewritten(h, bytes, strtab, n, k)
  {
    hide SectionAt, HeaderAt, NameAt;
    forall i: nat | i < n
      ensures !(Rewritten(Name(h, bytes, strtab, i), Sec(h, bytes, i))
                && Sec(h, bytes, i).offset <= k < Sec(h, bytes, i).offset + Sec(h, bytes, i).size)
    {
      assert Disjoint(h, bytes, i, n);
    }
  }

  /** Section n is still as it was, and so is its header. */
  lemma StillThere(h: Header, bytes: Bytes, strtab: Bytes, prefix: Bytes, n: nat, cur: Bytes)
    requires Layout(h, bytes) && DoneUpTo(h, bytes, strtab, prefix, n, cur) && n < h.shnum
    ensures SectionAt(h, cur, n) == SectionAt(h, bytes, n)
    ensures Sec(h, bytes, n).kind == 1 ==> Content(cur, Sec(h, bytes, n)) == Content(bytes, Sec(h, bytes, n))
  {
    hide SectionHeader, ReadAt, NameAt, Want, HeaderAt;
    assert HasHeader(h, bytes, n) && InFile(h, bytes, n);
    forall k | HeaderAt(h, n) <= k < HeaderAt(h, n) + h.shentsize ensures cur[k] == bytes[k] {
      NotRewrittenYet(h, bytes, strtab, n, k);
    }
    SliceOf(bytes, cur, HeaderAt(h, n), h.shentsize);
    if Sec(h, bytes, n).kind == 1 {
      forall k | Sec(h, bytes, n).offset <= k < Sec(h, bytes, n).offset + Sec(h, bytes, n).size ensures cur[k] == bytes[k] {
        NotRewrittenYet(h, bytes, strtab, n, k);
      }
      SliceOf(bytes, cur, Sec(h, bytes, n).offset, Sec(h, bytes, n).size);
    }
  }

  /** What is done for a section stays in it. */
  lemma SectionPatched(bytes: Bytes, name: Bytes, sec: Section, prefix: Bytes, found: Found)
    requires sec.kind == 1 ==> sec.offset + sec.size <= |bytes|
    ensures var (r, out, found') := PatchSection(bytes, name, sec, prefix, found);
            if Rewritten(name, sec) then
              var want := Want(name, sec, prefix, Content(bytes, sec));
              && found' == found && SameOutside(bytes, out, sec.offset, sec.offset + sec.size)
              && (r == if want.Some? then Fine else Exit)
              && (want.Some? ==> Content(out, sec) == want.value)
            else r == Fine && out == bytes
  {
    hide Slots, PatchSlots, Relocated, WriteAt;
    if Rewritten(name, sec) {
      if name == ".ldsocache" {
        var r := Relocated(prefix, Content(bytes, sec), sec.size);
        if r.Some? {
          WriteInRange(bytes, sec.offset, r.value);
        }
      } else {
        SlotsPatched(bytes, prefix, sec.offset, sec.size, 0);
      }
    }
  }

  lemma OneMoreDone(h: Header, bytes: Bytes, strtab: Bytes, prefix: Bytes, n: nat, cur: Bytes, next: Bytes)
    requires Layout(h, bytes) && DoneUpTo(h, bytes, strtab, prefix, n, cur) && n < h.shnum
    requires var sec, name := Sec(h, bytes, n), Name(h, bytes, strtab, n);
             if Rewritten(name, sec) then
               SameOutside(cur, next, sec.offset, sec.offset + sec.size)
               && Want(name, sec, prefix, Content(bytes, sec)) == Some(Content(next, sec))
             else next == cur
    ensures DoneUpTo(h, bytes, strtab, prefix, n + 1, next)
  {
    hide SectionAt, NameAt, ReadAt, Want, HeaderAt;
    var sec, name := Sec(h, bytes, n), Name(h, bytes, strtab, n);
    forall k | 0 <= k < |bytes| && !InRewritten(h, bytes, strtab, n + 1, k) ensures next[k] == bytes[k] {
      assert !InRewritten(h, bytes, strtab, n, k);
    }
    forall i | 0 <= i < n && Rewritten(Name(h, bytes, strtab, i), Sec(h, bytes, i))
      ensures Content(next, Sec(h, bytes, i)) == Content(cur, Sec(h, bytes, i))
    {
      if Rewritten(name, sec) {
        assert Disjoint(h, bytes, n, i) && InFile(h, bytes, i);
        SliceOf(cur, next, Sec(h, bytes, i).offset, Sec(h, bytes, i).size);
      }
    }
  }

  /** There is not enough room in section i. */
  ghost predicate NoRoom(h: Header, bytes: Bytes, strtab: Bytes, prefix: Bytes, i: nat) {
    var name, sec := Name(h, bytes, strtab, i), Sec(h, bytes, i);
    Rewritten(name, sec) && Want(name, sec, prefix, Content(bytes, sec)).None?
  }

  /** Bytes outside the rewritten sections are as they were. */
  ghost predicate OutsideKept(h: Header, bytes: Bytes, strtab: Bytes, out: Bytes) {
    |out| == |bytes| && forall k :: 0 <= k < |bytes| && !InRewritten(h, bytes, strtab, h.shnum, k) ==> out[k] == bytes[k]
  }

  lemma DoneKeepsOutside(h: Header, bytes: Bytes, strtab: Bytes, prefix: Bytes, n: nat, cur: Bytes, next: Bytes)
    requires Layout(h, bytes) && DoneUpTo(h, bytes, strtab, prefix, n, cur) && n < h.shnum
    requires Rewritten(Name(h, bytes, strtab, n), Sec(h, bytes, n))
    requires SameOutside(cur, next, Sec(h, bytes, n).offset, Sec(h, bytes, n).offset + Sec(h, bytes, n).size)
    ensures OutsideKept(h, bytes, strtab, next)
  {
    hide SectionAt, NameAt, ReadAt, Want, HeaderAt;
    forall k | 0 <= k < |bytes| && !InRewritten(h, bytes, strtab, h.shnum, k) ensures next[k] == bytes[k] {
      assert !InRewritten(h, bytes, strtab, n, k);
    }
  }

  /** One turn of the loop. */
  lemma {:induction false} SectionDone(h: Header, bytes: Bytes, strtab: Bytes, prefix: Bytes, n: nat, cur: Bytes, found: Found)
    requires Layout(h, bytes) && n < h.shnum && DoneUpTo(h, bytes, strtab, prefix, n, cur)
    ensures var (r, next, found1) := PatchSection(cur, Name(h, bytes, strtab, n), Sec(h, bytes, n), prefix, found);
            && (r == Fine ==> DoneUpTo(h, bytes, strtab, prefix, n + 1, next))
            && (r != Fine ==> r == Exit && OutsideKept(h, bytes, strtab, next))
            && (r == Exit <==> NoRoom(h, bytes, strtab, prefix, n))
            && Sections(cur, h, strtab, prefix, n, found) ==
               if r != Fine then (r, next, found1) else Sections(next, h, strtab, prefix, n + 1, found1)
  {
    assert HasHeader(h, bytes, n) && InFile(h, bytes, n);
    var name, sec := Name(h, bytes, strtab, n), Sec(h, bytes, n);
    StillThere(h, bytes, strtab, prefix, n, cur);
    SectionPatched(cur, name, sec, prefix, found);
    var (r, next, found1) := PatchSection(cur, name, sec, prefix, found);
    hide PatchSection, Rewritten, Want, NameAt, HeaderAt, ReadAt, Layout, DoneUpTo;
    if r == Fine {
      OneMoreDone(h, bytes, strtab, prefix, n, cur, next);
    } else {
      DoneKeepsOutside(h, bytes, strtab, prefix, n, cur, next);
    }
  }

  lemma {:induction false} NoneLeft(h: Header, bytes: Bytes, strtab: Bytes, prefix: Bytes, cur: Bytes, found: Found)
    requires DoneUpTo(h, bytes, strtab, prefix, h.shnum, cur)
    ensures Sections(cur, h, strtab, prefix, h.shnum, found) == (Fine, cur, found) && OutsideKept(h, bytes, strtab, cur)
  {
    hide InRewritten, Want, Rewritten, Sec, Name;
  }

  /**
   * With the sections inside the file and apart, the loop keeps the length and every byte outside the
   * sections it rewrites, and each of these becomes what its own original text asks for; it stops exactly
   * if one of them has not enough room.
   */
  lemma {:induction false} SectionsPatched(h: Header, bytes: Bytes, strtab: Bytes, prefix: Bytes, n: nat, cur: Bytes, found: Found)
    requires Layout(h, bytes) && n <= h.shnum && DoneUpTo(h, bytes, strtab, prefix, n, cur)
    ensures var (r, out, found') := Sections(cur, h, strtab, prefix, n, found);
            && (r == Fine || r == Exit) && OutsideKept(h, bytes, strtab, out)
            && (r == Fine ==> DoneUpTo(h, bytes, strtab, prefix, h.shnum, out))
            && (r == Exit <==> exists i :: n <= i < h.shnum && NoRoom(h, bytes, strtab, prefix, i))
    decreases h.shnum - n
  {
    hide *;
    if n == h.shnum {
      NoneLeft(h, bytes, strtab, prefix, cur, found);
    } else {
      SectionDone(h, bytes, strtab, prefix, n, cur, found);
      var (r, next, found1) := PatchSection(cur, Name(h, bytes, strtab, n), Sec(h, bytes, n), prefix, found);
      if r == Fine {
        SectionsPatched(h, bytes, strtab, prefix, n + 1, next, found1);
      }
    }
  }

  /** Section i has this name and is of kind SHT_PROGBITS. */
  ghost predicate Named(h: Header, bytes: Bytes, strtab: Bytes, i: nat, name: string) {
    Sec(h, bytes, i).kind == 1 && Name(h, bytes, strtab, i) == name
  }

  /** Section i is the last one before n with this name. */
  ghost predicate LastNamed(h: Header, bytes: Bytes, strtab: Bytes, n: nat, i: nat, name: string) {
    i < n && Named(h, bytes, strtab, i, name) && forall k :: i < k < n ==> !Named(h, bytes, strtab, k, name)
  }

  /** What was found before section n: the original text of the last .sysdirs, and where the last .sysdirslen is. */
  ghost predicate FoundUpTo(h: Header, bytes: Bytes, strtab: Bytes, n: nat, found: Found) {
    && (found.sysdirs.Some? ==>
          exists i :: (LastNamed(h, bytes, strtab, n, i, ".sysdirs")
                       && found.sysdirs.value == (Content(bytes, Sec(h, bytes, i)), Sec(h, bytes, i).offset, Sec(h, bytes, i).size)))
    && (found.lens.Some? ==>
          exists i :: (LastNamed(h, bytes, strtab, n, i, ".sysdirslen") && found.lens.value == Sec(h, bytes, i).offset))
    && (found.sysdirs.None? ==> forall i :: 0 <= i < n ==> !Named(h, bytes, strtab, i, ".sysdirs"))
    && (found.lens.None? ==> forall i :: 0 <= i < n ==> !Named(h, bytes, strtab, i, ".sysdirslen"))
  }

  lemma {:induction false} OneMoreFound(h: Header, bytes: Bytes, strtab: Bytes, prefix: Bytes, n: nat, cur: Bytes, found: Found)
    requires FoundUpTo(h, bytes, strtab, n, found)
    requires Sec(h, bytes, n).kind == 1 ==> Content(cur, Sec(h, bytes, n)) == Content(bytes, Sec(h, bytes, n))
    ensures FoundUpTo(h, bytes, strtab, n + 1, PatchSection(cur, Name(h, bytes, strtab, n), Sec(h, bytes, n), prefix, found).2)
  {
    hide Sec, Name, ReadAt, WriteAt, Relocated, PatchSlots;
    var found' := PatchSection(cur, Name(h, bytes, strtab, n), Sec(h, bytes, n), prefix, found).2;
    if Named(h, bytes, strtab, n, ".sysdirs") {
      assert LastNamed(h, bytes, strtab, n + 1, n, ".sysdirs");
    } else if found.sysdirs.Some? {
      var i :| LastNamed(h, bytes, strtab, n, i, ".sysdirs")
               && found.sysdirs.value == (Content(bytes, Sec(h, bytes, i)), Sec(h, bytes, i).offset, Sec(h, bytes, i).size);
      assert LastNamed(h, bytes, strtab, n + 1, i, ".sysdirs");
    }
    if Named(h, bytes, strtab, n, ".sysdirslen") {
      assert LastNamed(h, bytes, strtab, n + 1, n, ".sysdirslen");
    } else if found.lens.Some? {
      var i :| LastNamed(h, bytes, strtab, n, i, ".sysdirslen") && found.lens.value == Sec(h, bytes, i).offset;
      assert LastNamed(h, bytes, strtab, n + 1, i, ".sysdirslen");
    }
  }

  /** The loop finds .sysdirs and .sysdirslen if and where they are, with the text as it was at first. */
  lemma {:induction false} SectionsFound(h: Header, bytes: Bytes, strtab: Bytes, prefix: Bytes, n: nat, cur: Bytes, found: Found)
    requires Layout(h, bytes) && n <= h.shnum && DoneUpTo(h, bytes, strtab, prefix, n, cur)
    requires FoundUpTo(h, bytes, strtab, n, found)
    ensures var (r, out, found') := Sections(cur, h, strtab, prefix, n, found);
            r == Fine ==> FoundUpTo(h, bytes, strtab, h.shnum, found')
    decreases h.shnum - n
  {
    hide *;
    if n == h.shnum {
      NoneLeft(h, bytes, strtab, prefix, cur, found);
    } else {
      SectionDone(h, bytes, strtab, prefix, n, cur, found);
      StillThere(h, bytes, strtab, prefix, n, cur);
      OneMoreFound(h, bytes, strtab, prefix, n, cur, found);
      var (r, next, found1) := PatchSection(cur, Name(h, bytes, strtab, n), Sec(h, bytes, n), prefix, found);
      if r == Fine {
        SectionsFound(h, bytes, strtab, prefix, n + 1, next, found1);
      }
    }
  }

  // ---- the library paths and their lengths ----

  function Subs(prefix: Bytes, paths: seq<Bytes>): (r: seq<Bytes>)
    ensures |r| == |paths|
  {
    seq(|paths|, i requires 0 <= i < |paths| => Sub(prefix, paths[i]))
  }

  lemma {:induction false} FirstDir(prefix: Bytes, paths: seq<Bytes>)
    requires paths != []
    ensures NewDirs(prefix, paths) == Sub(prefix, paths[0]) + ['\0'] + NewDirs(prefix, paths[1..])
    decreases |paths|
  {
    hide Sub;
    if |paths| == 1 {
      assert paths[..0] == [] && paths[1..] == [];
    } else {
      var front := paths[..|paths| - 1];
      FirstDir(prefix, front);
      assert front[1..] == paths[1..][..|paths[1..]| - 1];
    }
  }

  lemma {:induction false} CStringFirst(a: Bytes, b: Bytes)
    requires NulFree(a)
    ensures CString(a + ['\0'] + b) == a
  {
    if a == [] {
      assert (a + ['\0'] + b)[0] == '\0';
    } else {
      assert (a + ['\0'] + b)[1..] == a[1..] + ['\0'] + b;
      CStringFirst(a[1..], b);
    }
  }

  /** The new text holds the new paths, one behind the other. */
  lemma {:induction false} PathsOfDirs(prefix: Bytes, paths: seq<Bytes>, n: nat)
    requires forall i :: 0 <= i < |paths| ==> NulFree(Sub(prefix, paths[i])) && Sub(prefix, paths[i]) != []
    ensures Paths(NewDirs(prefix, paths) + Nuls(n)) == Subs(prefix, paths)
    decreases |paths|
  {
    hide Sub, NulFree;
    if paths == [] {
      assert CString(Nuls(n)) == [];
      assert [] + Nuls(n) == Nuls(n);
    } else {
      var first, more := Sub(prefix, paths[0]), NewDirs(prefix, paths[1..]) + Nuls(n);
      FirstDir(prefix, paths);
      PathsOfDirs(prefix, paths[1..], n);
      var all := NewDirs(prefix, paths) + Nuls(n);
      assert all == first + ['\0'] + more;
      CStringFirst(first, more);
      assert all[|first| + 1..] == more;
      assert Subs(prefix, paths) == [first] + Subs(prefix, paths[1..]);
    }
  }

  function Power(size: nat): nat {
    if size == 0 then 1 else 256 * Power(size - 1)
  }

  lemma {:induction false} PackedIsNumber(n: nat, size: nat)
    requires n < Power(size)
    ensures Little(Packed(n, size)) == n
  {
    if size > 0 {
      PackedIsNumber(n / 256, size - 1);
    }
  }

  lemma {:induction false} LittleInjective(a: Bytes, b: Bytes)
    requires |a| == |b| && Little(a) == Little(b)
    ensures a == b
  {
    if a != [] {
      assert a[0] as int == Little(a) % 256 && b[0] as int == Little(b) % 256;
      LittleInjective(a[1..], b[1..]);
      assert a == [a[0]] + a[1..] && b == [b[0]] + b[1..];
    }
  }

  lemma {:induction false} ReversedLength(b: Bytes)
    ensures |Reversed(b)| == |b|
  {
    if b != [] {
      ReversedLength(b[1..]);
    }
  }

  /**
   * The lengths are packed in little-endian order in every binary. One of the other order reads the number
   * that was meant exactly if its bytes are the same backwards.
   */
  lemma {:induction false} ReadsPackedIff(little: bool, n: nat, size: nat)
    requires n < Power(size)
    ensures Number(little, Packed(n, size)) == n <==> little || Reversed(Packed(n, size)) == Packed(n, size)
  {
    var b := Packed(n, size);
    hide Packed, Little, Reversed, Power;
    PackedIsNumber(n, size);
    ReversedLength(b);
    if Little(Reversed(b)) == n {
      LittleInjective(Reversed(b), b);
    }
  }

  /** So a big-endian binary misreads every length from 1 to 65535. */
  lemma {:induction false} BigEndianMisreads(n: nat, size: nat)
    requires 0 < n < 0x1_0000 && (size == 4 || size == 8)
    ensures n < Power(size) && Number(false, Packed(n, size)) != n
  {
    PackedZeros(size - 2);
    var z := Packed(0, size - 2);
    var b := Packed(n, size);
    var rest := Packed(n / 256, size - 1);
    assert b == [(n % 256) as char] + rest && n / 256 < 256 && n / 256 / 256 == 0;
    assert rest == [(n / 256) as char] + z;
    assert b[0] as int == n % 256 && b[1] as int == n / 256 && b[2..] == z;
    ReversedEnds(b);
    PowerGrows(size);
    ReadsPackedIff(false, n, size);
    hide Packed, Number, Power, Reversed;
    assert b[size - 1] == z[size - 3] && b[size - 2] == z[size - 4];
  }

  lemma {:induction false} PackedZeros(size: nat)
    ensures forall i :: 0 <= i < size ==> Packed(0, size)[i] == '\0'
  {
    if size > 0 {
      PackedZeros(size - 1);
    }
  }

  lemma {:induction false} ReversedEnds(b: Bytes)
    requires |b| >= 2
    ensures |Reversed(b)| == |b| && Reversed(b)[|b| - 1] == b[0] && Reversed(b)[|b| - 2] == b[1]
  {
    ReversedLength(b[1..][1..]);
  }

  lemma PowerGrows(size: nat)
    requires size >= 2
    ensures 0x1_0000 <= Power(size)
  {
    if size == 2 {
      assert Power(1) == 256 * Power(0) && Power(0) == 1;
    } else {
      PowerGrows(size - 1);
    }
  }

  lemma {:induction false} LenAt(prefix: Bytes, paths: seq<Bytes>, width: nat, i: nat)
    requires i < |paths|
    ensures |NewLens(prefix, paths, width)| == |paths| * width
    ensures i * width + width <= |paths| * width
    ensures NewLens(prefix, paths, width)[i * width..i * width + width] == Packed(|Sub(prefix, paths[i])|, width)
    decreases |paths|
  {
    hide Sub, Packed;
    var front, n := paths[..|paths| - 1], |paths| - 1;
    LensLength(prefix, front, width);
    LensLength(prefix, paths, width);
    if i < n {
      LenAt(prefix, front, width, i);
      assert |paths| * width == n * width + width;
    } else {
      assert |paths| * width == i * width + width;
    }
  }

  lemma {:induction false} LensLength(prefix: Bytes, paths: seq<Bytes>, width: nat)
    ensures |NewLens(prefix, paths, width)| == |paths| * width
  {
    hide Sub, Packed;
    if paths != [] {
      LensLength(prefix, paths[..|paths| - 1], width);
      assert |paths| * width == (|paths| - 1) * width + width;
    }
  }

  /** Entry i of the lengths is the length of new path i, packed. */
  ghost predicate LensPacked(out: Bytes, at: nat, prefix: Bytes, paths: seq<Bytes>, width: nat) {
    forall i :: 0 <= i < |paths| ==>
      at + i * width + width <= |out| && out[at + i * width..at + i * width + width] == Packed(|Sub(prefix, paths[i])|, width)
  }

  /** Read in one byte order or the other, entry i is the length of new path i. */
  ghost predicate LensHold(little: bool, out: Bytes, at: nat, prefix: Bytes, paths: seq<Bytes>, width: nat) {
    forall i :: 0 <= i < |paths| ==>
      at + i * width + width <= |out| && Number(little, out[at + i * width..at + i * width + width]) == |Sub(prefix, paths[i])|
  }

  /** The bytes of every length are the same backwards. */
  ghost predicate SameBackwards(prefix: Bytes, paths: seq<Bytes>, width: nat) {
    forall i :: 0 <= i < |paths| ==> Reversed(Packed(|Sub(prefix, paths[i])|, width)) == Packed(|Sub(prefix, paths[i])|, width)
  }

  lemma {:induction false} LensHoldIff(little: bool, out: Bytes, at: nat, prefix: Bytes, paths: seq<Bytes>, width: nat)
    requires LensPacked(out, at, prefix, paths, width)
    requires forall i :: 0 <= i < |paths| ==> |Sub(prefix, paths[i])| < Power(width)
    ensures LensHold(little, out, at, prefix, paths, width) <==> little || SameBackwards(prefix, paths, width)
  {
    hide Sub, Power, Number, Packed, Reversed;
    forall i | 0 <= i < |paths|
      ensures Number(little, out[at + i * width..at + i * width + width]) == |Sub(prefix, paths[i])| <==>
        little || Reversed(Packed(|Sub(prefix, paths[i])|, width)) == Packed(|Sub(prefix, paths[i])|, width)
    {
      ReadsPackedIff(little, |Sub(prefix, paths[i])|, width);
    }
  }

  /**
   * If the rewritten .sysdirs fits, both sections are inside the file and apart, and no new path is empty or
   * has a NUL: .sysdirs holds the new paths, entry i of .sysdirslen is the length of path i, which the binary
   * reads in its own order exactly if that makes no difference or is little-endian, and every other byte stays.
   */
  lemma {:induction false} SysdirsPatched(
      bytes: Bytes, h: Header, prefix: Bytes, text: Bytes, offset: nat, size: nat, at: nat, paths: seq<Bytes>, width: nat)
    requires paths == Paths(text) && width == Width(h)
    requires offset + size <= |bytes| && at + |paths| * width <= |bytes| && Apart(offset, size, at, |paths| * width)
    requires |NewDirs(prefix, paths)| <= size
    requires forall i :: 0 <= i < |paths| ==>
      NulFree(Sub(prefix, paths[i])) && Sub(prefix, paths[i]) != [] && |Sub(prefix, paths[i])| < Power(width)
    ensures var (r, out) := PatchSysdirs(bytes, h, prefix, Found(Some((text, offset, size)), Some(at)));
            && r == Fine && |out| == |bytes|
            && Paths(out[offset..offset + size]) == Subs(prefix, paths)
            && LensPacked(out, at, prefix, paths, width)
            && (LensHold(h.little, out, at, prefix, paths, width) <==> h.little || SameBackwards(prefix, paths, width))
            && (forall k :: 0 <= k < |bytes| && !(offset <= k < offset + size) && !(at <= k < at + |paths| * width) ==> out[k] == bytes[k])
  {
    hide *;
    var found := Found(Some((text, offset, size)), Some(at));
    var dirs, lens := NewDirs(prefix, paths), NewLens(prefix, paths, width);
    SysdirsWritten(bytes, h, prefix, found);
    LensLength(prefix, paths, width);
    PathsOfDirs(prefix, paths, size - |dirs|);
    TwoWrites(bytes, offset, dirs + Nuls(size - |dirs|), at, lens);
    var out := PatchSysdirs(bytes, h, prefix, found).1;
    LensRead(out, at, prefix, paths, width);
    LensHoldIff(h.little, out, at, prefix, paths, width);
  }

  lemma {:induction false} SysdirsWritten(bytes: Bytes, h: Header, prefix: Bytes, found: Found)
    requires found.sysdirs.Some? && found.lens.Some?
    ensures var (text, offset, size) := found.sysdirs.value;
            var dirs, lens := NewDirs(prefix, Paths(text)), NewLens(prefix, Paths(text), Width(h));
            |dirs| <= size ==>
              PatchSysdirs(bytes, h, prefix, found)
              == (Fine, WriteAt(WriteAt(bytes, offset, dirs + Nuls(size - |dirs|)), found.lens.value, lens))
  {
    hide Paths, NewDirs, NewLens, WriteAt, Width;
    assert Nuls(0) == [];
  }

  lemma {:induction false} TwoWrites(bytes: Bytes, offset: nat, a: Bytes, at: nat, b: Bytes)
    requires offset + |a| <= |bytes| && at + |b| <= |bytes| && Apart(offset, |a|, at, |b|)
    ensures var out := WriteAt(WriteAt(bytes, offset, a), at, b);
            && |out| == |bytes| && out[offset..offset + |a|] == a && out[at..at + |b|] == b
            && (forall k :: 0 <= k < |bytes| && !(offset <= k < offset + |a|) && !(at <= k < at + |b|) ==> out[k] == bytes[k])
  {
    hide WriteAt;
    var mid := WriteAt(bytes, offset, a);
    WriteInRange(bytes, offset, a);
    WriteInRange(mid, at, b);
    SameSlice(mid, WriteAt(mid, at, b), at, at + |b|, offset, offset + |a|);
  }

  lemma SubSlice(out: Bytes, at: nat, n: nat, lo: nat, size: nat)
    requires at + n <= |out| && lo + size <= n
    ensures out[at..at + n][lo..lo + size] == out[at + lo..at + lo + size]
  {
    var x, y := out[at..at + n][lo..lo + size], out[at + lo..at + lo + size];
    assert forall k :: 0 <= k < size ==> x[k] == y[k];
  }

  lemma {:induction false} LensRead(out: Bytes, at: nat, prefix: Bytes, paths: seq<Bytes>, width: nat)
    requires at + |paths| * width <= |out| && out[at..at + |paths| * width] == NewLens(prefix, paths, width)
    ensures LensPacked(out, at, prefix, paths, width)
  {
    hide Sub, Packed, NewLens;
    forall i | 0 <= i < |paths|
      ensures at + i * width + width <= |out| && out[at + i * width..at + i * width + width] == Packed(|Sub(prefix, paths[i])|, width)
    {
      LenAt(prefix, paths, width, i);
      SubSlice(out, at, |paths| * width, i * width, width);
    }
  }

  /** A number of some bytes is bounded by them. */
  lemma {:induction false} LittleBounded(b: Bytes)
    ensures Little(b) < Power(|b|)
  {
    if b != [] {
      LittleBounded(b[1..]);
    }
  }

  /** The size of a section fits in a length. */
  lemma {:induction false} SizeBounded(h: Header, b: Bytes)
    requires SectionHeader(h, b).Some?
    ensures SectionHeader(h, b).value.size < Power(Width(h))
  {
    hide Little, Reversed, Power;
    var f := if h.wide then b[32..32 + 8] else b[20..20 + 4];
    ReversedLength(f);
    LittleBounded(f);
    LittleBounded(Reversed(f));
  }

  lemma {:induction false} PathShorter(prefix: Bytes, paths: seq<Bytes>, i: nat)
    requires i < |paths|
    ensures |Sub(prefix, paths[i])| < |NewDirs(prefix, paths)|
    decreases |paths|
  {
    hide Sub;
    if i < |paths| - 1 {
      PathShorter(prefix, paths[..|paths| - 1], i);
    }
  }

  /** Paths of a text have no NUL and are not empty; nor are the new ones, unless one is the old prefix and nothing else. */
  lemma {:induction false} NewPathsNulFree(prefix: Bytes, text: Bytes, i: nat)
    requires NulFree(prefix) && i < |Paths(text)|
    ensures NulFree(Paths(text)[i]) && Paths(text)[i] != [] && NulFree(Sub(prefix, Paths(text)[i]))
    ensures prefix != [] ==> Sub(prefix, Paths(text)[i]) != []
    decreases |text|
  {
    hide OLD_PREFIX;
    var first := CString(text);
    CStringNulFree(text);
    if i == 0 {
      SubNulFree(prefix, first);
    } else {
      NewPathsNulFree(prefix, text[|first| + 1..], i - 1);
    }
  }

  lemma {:induction false} CStringNulFree(b: Bytes)
    ensures NulFree(CString(b)) && |CString(b)| <= |b|
  {
    if b != [] && b[0] != '\0' {
      CStringNulFree(b[1..]);
    }
  }
}
