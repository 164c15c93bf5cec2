// ELF files as the ABI lays them out, and that the script reads them so.
module ElfLayout {
  import opened Options
  import opened ByteStrings
  import opened Relocate

  // ---- numbers ----

  /** n in size bytes, the low one first or last. */
  function BytesOf(little: bool, n: nat, size: nat): (b: Bytes)
    ensures |b| == size
  {
    if size == 0 then []
    else if little then [(n % 256) as char] + BytesOf(little, n / 256, size - 1)
    else BytesOf(little, n / 256, size - 1) + [(n % 256) as char]
  }

  lemma {:induction false} ReversedAppend(a: Bytes, x: Byte)
    ensures Reversed(a + [x]) == [x] + Reversed(a)
  {
    if a == [] {
      assert [] + [x] == [x];
      assert [x][1..] == [];
      assert Reversed([x]) == [] + [x] == [x] + [];
    } else {
      assert (a + [x])[1..] == a[1..] + [x];
      ReversedAppend(a[1..], x);
      assert [x] + Reversed(a[1..]) + [a[0]] == [x] + (Reversed(a[1..]) + [a[0]]);
    }
  }

  /** A number in range is read as it was written. */
  lemma {:induction false} NumberRead(little: bool, n: nat, size: nat)
    requires n < Power(size)
    ensures Number(little, BytesOf(little, n, size)) == n
  {
    if size > 0 {
      var rest := BytesOf(little, n / 256, size - 1);
      NumberRead(little, n / 256, size - 1);
      if little {
        assert ([(n % 256) as char] + rest)[1..] == rest;
      } else {
        ReversedAppend(rest, (n % 256) as char);
        assert ([(n % 256) as char] + Reversed(rest))[1..] == Reversed(rest);
      }
    }
  }

  // ---- fields one behind the other ----

  datatype Slot = Slot(size: nat, value: nat)

  function Fields(little: bool, fs: seq<Slot>): Bytes {
    if fs == [] then [] else BytesOf(little, fs[0].value, fs[0].size) + Fields(little, fs[1..])
  }

  ghost predicate InRange(fs: seq<Slot>) {
    forall i :: 0 <= i < |fs| ==> fs[i].value < Power(fs[i].size)
  }

  /** Where field i starts. */
  function Start(fs: seq<Slot>, i: nat): nat
    requires i <= |fs|
  {
    if i == 0 then 0 else fs[0].size + Start(fs[1..], i - 1)
  }

  /** Field i of a structure that follows pre is read as it was written. */
  lemma {:induction false} FieldRead(little: bool, pre: Bytes, fs: seq<Slot>, post: Bytes, i: nat)
    requires i < |fs| && InRange(fs)
    ensures var b := pre + Fields(little, fs) + post;
            |pre| + Start(fs, i) + fs[i].size <= |b| && Field(little, b, |pre| + Start(fs, i), fs[i].size) == fs[i].value
    decreases i
  {
    hide Number, Power, BytesOf;
    var first, rest := BytesOf(little, fs[0].value, fs[0].size), Fields(little, fs[1..]);
    var b := pre + Fields(little, fs) + post;
    if i == 0 {
      assert b == pre + first + (rest + post);
      assert b[|pre|..|pre| + fs[0].size] == first;
      NumberRead(little, fs[0].value, fs[0].size);
    } else {
      assert b == (pre + first) + rest + post;
      assert forall j :: 0 <= j < |fs[1..]| ==> fs[1..][j] == fs[j + 1];
      FieldRead(little, pre + first, fs[1..], post, i - 1);
    }
  }

  /** So is a field of a structure by itself. */
  lemma FieldAlone(little: bool, fs: seq<Slot>, i: nat)
    requires i < |fs| && InRange(fs)
    ensures Start(fs, i) + fs[i].size <= |Fields(little, fs)| == Start(fs, |fs|)
    ensures Field(little, Fields(little, fs), Start(fs, i), fs[i].size) == fs[i].value
  {
    assert [] + Fields(little, fs) + [] == Fields(little, fs);
    FieldRead(little, [], fs, [], i);
    FieldsLength(little, fs);
  }

  // ---- the structures of the ABI ----

  /** The ELF header, but for the magic bytes, the class and the byte order. */
  datatype ElfHeader = ElfHeader(
    wide: bool, little: bool, ident: Bytes, kind: nat, machine: nat, version: nat, entry: nat, phoff: nat, shoff: nat, flags: nat,
    ehsize: nat, phentsize: nat, phnum: nat, shentsize: nat, shnum: nat, shstrndx: nat)

  datatype Program = Program(kind: nat, offset: nat, vaddr: nat, paddr: nat, filesz: nat, memsz: nat, flags: nat, align: nat)

  datatype SectionEntry = SectionEntry(
    name: nat, kind: nat, flags: nat, addr: nat, offset: nat, size: nat, link: nat, info: nat, addralign: nat, entsize: nat)

  /** The size of an address. */
  function Word(wide: bool): nat {
    if wide then 8 else 4
  }

  function HeaderFields(e: ElfHeader): seq<Slot> {
    var w := Word(e.wide);
    [Slot(2, e.kind), Slot(2, e.machine), Slot(4, e.version), Slot(w, e.entry), Slot(w, e.phoff), Slot(w, e.shoff), Slot(4, e.flags),
     Slot(2, e.ehsize), Slot(2, e.phentsize), Slot(2, e.phnum), Slot(2, e.shentsize), Slot(2, e.shnum), Slot(2, e.shstrndx)]
  }

  /** e_ident: the magic bytes, the class, the byte order, and what the script does not look at. */
  function Ident(e: ElfHeader): Bytes {
    [0x7f as char, 'E', 'L', 'F', if e.wide then 2 as char else 1 as char, if e.little then 1 as char else 2 as char] + e.ident
  }

  /** Elf32_Ehdr or Elf64_Ehdr: the identification, then the fields. */
  function EncodeHeader(e: ElfHeader): Bytes {
    Ident(e) + Fields(e.little, HeaderFields(e))
  }

  /** Elf32_Phdr or Elf64_Phdr, which has the flags earlier. */
  function ProgramFields(wide: bool, p: Program): seq<Slot> {
    if wide then
      [Slot(4, p.kind), Slot(4, p.flags), Slot(8, p.offset), Slot(8, p.vaddr), Slot(8, p.paddr), Slot(8, p.filesz), Slot(8, p.memsz), Slot(8, p.align)]
    else
      [Slot(4, p.kind), Slot(4, p.offset), Slot(4, p.vaddr), Slot(4, p.paddr), Slot(4, p.filesz), Slot(4, p.memsz), Slot(4, p.flags), Slot(4, p.align)]
  }

  /** Elf32_Shdr or Elf64_Shdr. */
  function SectionFields(wide: bool, s: SectionEntry): seq<Slot> {
    var w := Word(wide);
    [Slot(4, s.name), Slot(4, s.kind), Slot(w, s.flags), Slot(w, s.addr), Slot(w, s.offset), Slot(w, s.size), Slot(4, s.link), Slot(4, s.info),
     Slot(w, s.addralign), Slot(w, s.entsize)]
  }

  /** What the script keeps of the header. */
  function Kept(e: ElfHeader): Header {
    Header(e.wide, e.little, e.phoff, e.phentsize, e.phnum, e.shoff, e.shentsize, e.shnum, e.shstrndx)
  }

  lemma StartNext(fs: seq<Slot>, i: nat)
    requires i < |fs|
    ensures Start(fs, i + 1) == Start(fs, i) + fs[i].size
    decreases i
  {
    if i > 0 {
      assert fs[1..][i - 1] == fs[i];
      StartNext(fs[1..], i - 1);
    }
  }

  lemma HeaderStarts(e: ElfHeader)
    ensures var fs, w := HeaderFields(e), Word(e.wide);
            && Start(fs, 4) == 8 + w && Start(fs, 5) == 8 + 2 * w && Start(fs, 8) == 14 + 3 * w && Start(fs, 9) == 16 + 3 * w
            && Start(fs, 10) == 18 + 3 * w && Start(fs, 11) == 20 + 3 * w && Start(fs, 12) == 22 + 3 * w && Start(fs, 13) == 24 + 3 * w
  {
    hide Start;
    var fs := HeaderFields(e);
    assert Start(fs, 0) == 0 by {
      StartZero(fs);
    }
    StartNext(fs, 0);
    StartNext(fs, 1);
    StartNext(fs, 2);
    StartNext(fs, 3);
    StartNext(fs, 4);
    StartNext(fs, 5);
    StartNext(fs, 6);
    StartNext(fs, 7);
    StartNext(fs, 8);
    StartNext(fs, 9);
    StartNext(fs, 10);
    StartNext(fs, 11);
    StartNext(fs, 12);
  }

  lemma StartZero(fs: seq<Slot>)
    ensures Start(fs, 0) == 0
  {
  }

  lemma {:induction false} FieldsLength(little: bool, fs: seq<Slot>)
    ensures |Fields(little, fs)| == Start(fs, |fs|)
  {
    if fs != [] {
      FieldsLength(little, fs[1..]);
    }
  }

  /** For all fields in range, both classes and both byte orders: a file that begins with the header is read as what was written. */
  lemma {:induction false} HeaderRead(e: ElfHeader, rest: Bytes)
    requires |e.ident| == 10 && InRange(HeaderFields(e)) && |EncodeHeader(e) + rest| >= 64
    ensures ParseHeader(EncodeHeader(e) + rest) == Some(Kept(e))
  {
    hide *;
    var b := EncodeHeader(e) + rest;
    IdentIs(e, rest);
    HeaderStarts(e);
    HeaderFieldsAre(e);
    HeaderField(e, rest, 4);
    HeaderField(e, rest, 5);
    HeaderField(e, rest, 8);
    HeaderField(e, rest, 9);
    HeaderField(e, rest, 10);
    HeaderField(e, rest, 11);
    HeaderField(e, rest, 12);
    HeaderIs(b, Kept(e)) by {
      KeptIs(e);
    }
  }

  lemma KeptIs(e: ElfHeader)
    ensures Kept(e) == Header(e.wide, e.little, e.phoff, e.phentsize, e.phnum, e.shoff, e.shentsize, e.shnum, e.shstrndx)
  {
  }

  lemma HeaderField(e: ElfHeader, rest: Bytes, i: nat)
    requires |e.ident| == 10 && InRange(HeaderFields(e)) && i < |HeaderFields(e)|
    ensures var f, at := HeaderFields(e)[i], 16 + Start(HeaderFields(e), i);
            at + f.size <= |EncodeHeader(e) + rest| && Field(e.little, EncodeHeader(e) + rest, at, f.size) == f.value
  {
    hide Field, Fields, Start, InRange, HeaderFields;
    FieldRead(e.little, Ident(e), HeaderFields(e), rest, i);
  }

  lemma IdentIs(e: ElfHeader, rest: Bytes)
    requires |e.ident| == 10
    ensures var b := EncodeHeader(e) + rest;
            && |b| >= 16 && b[0] == 0x7f as char && b[4] == (if e.wide then 2 as char else 1 as char)
            && b[5] == (if e.little then 1 as char else 2 as char)
  {
  }

  /** A header is what its fields are. */
  lemma HeaderIs(b: Bytes, h: Header)
    requires |b| >= 64 && b[0] == 0x7f as char && b[4] == (if h.wide then 2 as char else 1 as char) && h.little == (b[5] == 1 as char)
    requires var w, little := Word(h.wide), h.little;
             && Field(little, b, 24 + w, w) == h.phoff && Field(little, b, 24 + 2 * w, w) == h.shoff
             && Field(little, b, 30 + 3 * w, 2) == h.phentsize && Field(little, b, 32 + 3 * w, 2) == h.phnum
             && Field(little, b, 34 + 3 * w, 2) == h.shentsize && Field(little, b, 36 + 3 * w, 2) == h.shnum
             && Field(little, b, 38 + 3 * w, 2) == h.shstrndx
    ensures ParseHeader(b) == Some(h)
  {
    hide Field;
  }

  /** Files without the first magic byte, or of another class, are left alone. */
  lemma NoHeaderIff(bytes: Bytes)
    requires |bytes| >= 64
    ensures ParseHeader(bytes).None? <==> bytes[0] as int != 0x7f || (bytes[4] as int != 1 && bytes[4] as int != 2)
  {
    hide Field;
  }

  lemma HeaderFieldsAre(e: ElfHeader)
    ensures var fs, w := HeaderFields(e), Word(e.wide);
            && |fs| == 13 && fs[4] == Slot(w, e.phoff) && fs[5] == Slot(w, e.shoff) && fs[8] == Slot(2, e.phentsize) && fs[9] == Slot(2, e.phnum)
            && fs[10] == Slot(2, e.shentsize) && fs[11] == Slot(2, e.shnum) && fs[12] == Slot(2, e.shstrndx)
  {
  }

  /** So is a program header. */
  lemma {:induction false} ProgramRead(h: Header, p: Program)
    requires InRange(ProgramFields(h.wide, p))
    ensures |Fields(h.little, ProgramFields(h.wide, p))| == if h.wide then 56 else 32
    ensures ProgramHeader(h, Fields(h.little, ProgramFields(h.wide, p))) == Some((p.kind, p.offset, p.filesz))
  {
    var fs := ProgramFields(h.wide, p);
    ProgramStarts(h.wide, p);
    assert fs[0] == Slot(4, p.kind) && fs[if h.wide then 2 else 1] == Slot(if h.wide then 8 else 4, p.offset)
           && fs[if h.wide then 5 else 4] == Slot(if h.wide then 8 else 4, p.filesz);
    hide Field, Fields, Start, InRange, ProgramFields;
    FieldAlone(h.little, fs, 0);
    FieldAlone(h.little, fs, if h.wide then 2 else 1);
    FieldAlone(h.little, fs, if h.wide then 5 else 4);
  }

  lemma ProgramStarts(wide: bool, p: Program)
    ensures var fs := ProgramFields(wide, p);
            && |fs| == 8 && Start(fs, 0) == 0
            && if wide then Start(fs, 2) == 8 && Start(fs, 5) == 32 && Start(fs, 8) == 56
               else Start(fs, 1) == 4 && Start(fs, 4) == 16 && Start(fs, 8) == 32
  {
    var fs := ProgramFields(wide, p);
    StartZero(fs);
    hide Start;
    StartNext(fs, 0);
    StartNext(fs, 1);
    StartNext(fs, 2);
    StartNext(fs, 3);
    StartNext(fs, 4);
    StartNext(fs, 5);
    StartNext(fs, 6);
    StartNext(fs, 7);
  }

  /** And a section header. */
  lemma {:induction false} SectionRead(h: Header, s: SectionEntry)
    requires InRange(SectionFields(h.wide, s))
    ensures |Fields(h.little, SectionFields(h.wide, s))| == if h.wide then 64 else 40
    ensures SectionHeader(h, Fields(h.little, SectionFields(h.wide, s))) == Some(Section(s.name, s.kind, s.offset, s.size))
  {
    var fs, w := SectionFields(h.wide, s), Word(h.wide);
    SectionStarts(h.wide, s);
    assert fs[0] == Slot(4, s.name) && fs[1] == Slot(4, s.kind) && fs[4] == Slot(w, s.offset) && fs[5] == Slot(w, s.size);
    hide Field, Fields, Start, InRange, SectionFields;
    FieldAlone(h.little, fs, 0);
    FieldAlone(h.little, fs, 1);
    FieldAlone(h.little, fs, 4);
    FieldAlone(h.little, fs, 5);
  }

  lemma SectionStarts(wide: bool, s: SectionEntry)
    ensures var fs, w := SectionFields(wide, s), Word(wide);
            && |fs| == 10 && Start(fs, 0) == 0 && Start(fs, 1) == 4
            && Start(fs, 4) == 8 + 2 * w && Start(fs, 5) == 8 + 3 * w && Start(fs, 10) == 16 + 6 * w
  {
    var fs := SectionFields(wide, s);
    StartZero(fs);
    hide Start;
    StartNext(fs, 0);
    StartNext(fs, 1);
    StartNext(fs, 2);
    StartNext(fs, 3);
    StartNext(fs, 4);
    StartNext(fs, 5);
    StartNext(fs, 6);
    StartNext(fs, 7);
    StartNext(fs, 8);
    StartNext(fs, 9);
  }

  // ---- whole files ----

  datatype Elf = Elf(header: ElfHeader, programs: seq<Program>, sections: seq<SectionEntry>)

  /** These bytes are in the file at this place. */
  predicate Holds(bytes: Bytes, at: nat, b: Bytes) {
    at + |b| <= |bytes| && bytes[at..at + |b|] == b
  }

  /** The file begins with the header, and has both tables where the header says. */
  ghost predicate Encodes(e: Elf, bytes: Bytes) {
    var h := e.header;
    && |bytes| >= 64 && |h.ident| == 10 && InRange(HeaderFields(h)) && Holds(bytes, 0, EncodeHeader(h))
    && h.phnum == |e.programs| && h.phentsize == (if h.wide then 56 else 32)
    && h.shnum == |e.sections| && h.shentsize == (if h.wide then 64 else 40)
    && (forall i :: 0 <= i < |e.programs| ==>
          InRange(ProgramFields(h.wide, e.programs[i]))
          && Holds(bytes, h.phoff + i * h.phentsize, Fields(h.little, ProgramFields(h.wide, e.programs[i]))))
    && (forall i :: 0 <= i < |e.sections| ==>
          InRange(SectionFields(h.wide, e.sections[i]))
          && Holds(bytes, h.shoff + i * h.shentsize, Fields(h.little, SectionFields(h.wide, e.sections[i]))))
  }

  /** The script finds the tables, and in them what was written. */
  lemma TablesRead(e: Elf, bytes: Bytes)
    requires Encodes(e, bytes)
    ensures ParseHeader(bytes) == Some(Kept(e.header))
    ensures forall i :: 0 <= i < |e.programs| ==>
              ProgramAt(Kept(e.header), bytes, i) == Some((e.programs[i].kind, e.programs[i].offset, e.programs[i].filesz))
    ensures forall i :: 0 <= i < |e.sections| ==>
              SectionAt(Kept(e.header), bytes, i)
              == Some(Section(e.sections[i].name, e.sections[i].kind, e.sections[i].offset, e.sections[i].size))
              && HeaderAt(Kept(e.header), i) + e.header.shentsize <= |bytes|
  {
    var h := e.header;
    hide InRange, HeaderFields, ProgramFields, SectionFields, Fields, ProgramHeader, SectionHeader, ParseHeader, EncodeHeader;
    var first := EncodeHeader(h);
    assert bytes == first + bytes[|first|..];
    HeaderRead(h, bytes[|first|..]);
    forall i | 0 <= i < |e.programs|
      ensures ProgramAt(Kept(h), bytes, i) == Some((e.programs[i].kind, e.programs[i].offset, e.programs[i].filesz))
    {
      ProgramRead(Kept(h), e.programs[i]);
    }
    forall i | 0 <= i < |e.sections|
      ensures SectionAt(Kept(h), bytes, i)
              == Some(Section(e.sections[i].name, e.sections[i].kind, e.sections[i].offset, e.sections[i].size))
              && HeaderAt(Kept(h), i) + h.shentsize <= |bytes|
    {
      SectionRead(Kept(h), e.sections[i]);
    }
  }
}
