/**
 An ELF file as libelf presents it, and what the loaders make of it. Only the header
 fields that the debugger reads are kept; multi-byte fields are 64-bit patterns.
 */
module Elf {
  import opened Words
  import opened Options

  const PT_LOAD: Word := 1
  const PF_X: Word := 1
  const PF_R: Word := 4
  const SHT_PROGBITS: Word := 1
  const SHT_SYMTAB: Word := 2
  const SHT_STRTAB: Word := 3
  const SHT_DYNSYM: Word := 11
  const SHF_ALLOC: Word := 2
  const SHF_EXECINSTR: Word := 4

  datatype Class = Class32 | Class64

  datatype Phdr = Phdr(kind: Word, vaddr: Word, flags: Word)

  datatype Shdr = Shdr(kind: Word, flags: Word, addr: Word, offset: Word, size: Word, link: Word)

  datatype ElfFile = ElfFile(clazz: Class, phdr: seq<Phdr>, shdr: seq<Shdr>, shstrndx: int, entry: Word,
                             contents: seq<Byte>)

  /** One node of the string table list. */
  datatype StrTab = StrTab(id: int, data: seq<Byte>)

  datatype Handle = Handle(file: ElfFile, strtab: seq<StrTab>)

  predicate HasFlag(flags: Word, flag: Word) {
    And(flags, flag, 64) != 0
  }

  /** pread of `size` bytes at `offset` delivers all of them. */
  predicate Readable(file: ElfFile, offset: Word, size: Word) {
    Signed(offset) >= 0 && Signed(size) >= 0 && (size == 0 || offset + size <= |file.contents|)
  }

  function ReadBytes(file: ElfFile, offset: Word, size: Word): (bs: seq<Byte>)
    requires Readable(file, offset, size)
    ensures |bs| == size && forall k | 0 <= k < size :: bs[k] == file.contents[offset + k]
  {
    if size == 0 then [] else file.contents[offset..offset + size]
  }

  /** The list after the first `n` sections, newest node first; None when a read fails. */
  function StrTabs(file: ElfFile, n: nat): Option<seq<StrTab>>
    requires n <= |file.shdr|
  {
    if n == 0 then Some([])
    else
      var s := file.shdr[n - 1];
      match StrTabs(file, n - 1)
      case None => None
      case Some(tabs) =>
        if s.kind != SHT_STRTAB then Some(tabs)
        else if !Readable(file, s.offset, s.size) then None
        else Some([StrTab(n - 1, ReadBytes(file, s.offset, s.size))] + tabs)
  }

  /** elf_load_all: program headers, section headers and at least one string table are needed. */
  function LoadAll(file: ElfFile): Option<Handle> {
    if file.phdr == [] || file.shdr == [] then None
    else match StrTabs(file, |file.shdr|)
         case None => None
         case Some(tabs) => if tabs == [] then None else Some(Handle(file, tabs))
  }

  /** The first table in the list with the given id. */
  function FindStrTab(tabs: seq<StrTab>, id: int): Option<StrTab> {
    if tabs == [] then None
    else if tabs[0].id == id then Some(tabs[0])
    else FindStrTab(tabs[1..], id)
  }

  /** The first section of the given type from index `i` on. */
  function FirstOfKind(ss: seq<Shdr>, kind: Word, i: nat): (s: Option<Shdr>)
    requires i <= |ss|
    ensures s.Some? ==>
              exists k | i <= k < |ss| ::
                ss[k] == s.value && s.value.kind == kind && forall j | i <= j < k :: ss[j].kind != kind
    ensures s.None? ==> forall j | i <= j < |ss| :: ss[j].kind != kind
    decreases |ss| - i
  {
    if i == |ss| then None
    else if ss[i].kind == kind then Some(ss[i])
    else FirstOfKind(ss, kind, i + 1)
  }

  predicate IsTextSegment(p: Phdr) {
    p.kind == PT_LOAD && HasFlag(p.flags, PF_R) && HasFlag(p.flags, PF_X)
  }

  /** Signed comparison, as the source's long long fields compare. */
  predicate HoldsEntry(s: Shdr, entry: Word) {
    Signed(s.addr) <= Signed(entry) < Signed(s.addr) + Signed(s.size)
  }

  predicate IsTextSection(s: Shdr, entry: Word) {
    s.kind == SHT_PROGBITS && HasFlag(s.flags, SHF_ALLOC) && HasFlag(s.flags, SHF_EXECINSTR) && HoldsEntry(s, entry)
  }

  /** The first readable and executable segment from index `i` on. */
  function TextSegment(ps: seq<Phdr>, i: nat): Option<Phdr>
    requires i <= |ps|
    decreases |ps| - i
  {
    if i == |ps| then None
    else if IsTextSegment(ps[i]) then Some(ps[i])
    else TextSegment(ps, i + 1)
  }

  /** The first executable section from index `i` on that holds the entry point. */
  function TextSection(ss: seq<Shdr>, entry: Word, i: nat): (s: Option<Shdr>)
    requires i <= |ss|
    ensures s.Some? ==> IsTextSection(s.value, entry)
    decreases |ss| - i
  {
    if i == |ss| then None
    else if IsTextSection(ss[i], entry) then Some(ss[i])
    else TextSection(ss, entry, i + 1)
  }
}
