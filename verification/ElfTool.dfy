/** The loops that read an ELF file's tables and search them. */
module ElfTool {
  import opened Words
  import opened Bits
  import opened Options
  import opened Elf

  /** elf_load_strtab: one node for each string table section, each put in front of the last. */
  method LoadStrTab(file: ElfFile) returns (tabs: Option<seq<StrTab>>)
    ensures tabs == StrTabs(file, |file.shdr|)
  {
    var strtab := [];
    var i := 0;
    while i < |file.shdr|
      invariant i <= |file.shdr| && StrTabs(file, i) == Some(strtab)
    {
      var s := file.shdr[i];
      if s.kind == SHT_STRTAB {
        if !Readable(file, s.offset, s.size) {
          StrTabsFail(file, i + 1, |file.shdr|);
          return None;
        }
        strtab := [StrTab(i, ReadBytes(file, s.offset, s.size))] + strtab;
      }
      i := i + 1;
    }
    tabs := Some(strtab);
  }

  /** One unreadable string table makes the whole load fail. */
  lemma {:induction false} StrTabsFail(file: ElfFile, i: nat, n: nat)
    requires i <= n <= |file.shdr| && StrTabs(file, i).None?
    ensures StrTabs(file, n).None?
    decreases n
  {
    if i < n {
      StrTabsFail(file, i, n - 1);
    }
  }

  method LoadAll(file: ElfFile) returns (h: Option<Handle>)
    ensures h == Elf.LoadAll(file)
  {
    if file.phdr == [] || file.shdr == [] {
      return None;
    }
    var tabs := LoadStrTab(file);
    if tabs.None? || tabs.value == [] {
      return None;
    }
    h := Some(Handle(file, tabs.value));
  }

  method FindTab(tabs: seq<StrTab>, id: int) returns (r: Option<StrTab>)
    ensures r == FindStrTab(tabs, id)
  {
    var i := 0;
    while i < |tabs|
      invariant i <= |tabs| && FindStrTab(tabs, id) == FindStrTab(tabs[i..], id)
    {
      if tabs[i].id == id {
        return Some(tabs[i]);
      }
      assert tabs[i..][1..] == tabs[i + 1..];
      i := i + 1;
    }
    r := None;
  }

  method FindTextSegment(ps: seq<Phdr>) returns (r: Option<Phdr>)
    ensures r == TextSegment(ps, 0)
  {
    var i := 0;
    while i < |ps|
      invariant i <= |ps| && TextSegment(ps, 0) == TextSegment(ps, i)
    {
      if IsTextSegment(ps[i]) {
        return Some(ps[i]);
      }
      i := i + 1;
    }
    r := None;
  }

  method FindTextSection(ss: seq<Shdr>, entry: Word) returns (r: Option<Shdr>)
    ensures r == TextSection(ss, entry, 0)
  {
    var i := 0;
    while i < |ss|
      invariant i <= |ss| && TextSection(ss, entry, 0) == TextSection(ss, entry, i)
    {
      if IsTextSection(ss[i], entry) {
        return Some(ss[i]);
      }
      i := i + 1;
    }
    r := None;
  }

  // ----- what the searches find

  /** A program header of a segment to load, with bits 2 and 0 of its flags: readable and executable. */
  predicate CodeSegment(p: Phdr) {
    p.kind == 1 && Bit(p.flags, 2) && Bit(p.flags, 0)
  }

  /** A section of the program's own, with bits 1 and 2: in memory and executable, around the entry point. */
  predicate CodeSection(s: Shdr, entry: Word) {
    && s.kind == 1 && Bit(s.flags, 1) && Bit(s.flags, 2)
    && Signed(s.addr) <= Signed(entry) < Signed(s.addr) + Signed(s.size)
  }

  /** `r` is the first such program header from index `i` on, None if there is none. */
  ghost predicate FirstCodeSegment(ps: seq<Phdr>, i: nat, r: Option<Phdr>) {
    match r
    case None => forall j | i <= j < |ps| :: !CodeSegment(ps[j])
    case Some(p) =>
      exists k | i <= k < |ps| :: ps[k] == p && CodeSegment(p) && forall j | i <= j < k :: !CodeSegment(ps[j])
  }

  ghost predicate FirstCodeSection(ss: seq<Shdr>, entry: Word, i: nat, r: Option<Shdr>) {
    match r
    case None => forall j | i <= j < |ss| :: !CodeSection(ss[j], entry)
    case Some(s) =>
      exists k | i <= k < |ss| ::
        ss[k] == s && CodeSection(s, entry) && forall j | i <= j < k :: !CodeSection(ss[j], entry)
  }

  /** The list holds each string table section once, so a lookup by section index is exact. */
  lemma {:induction false} StrTabLookup(file: ElfFile, n: nat, id: int)
    requires n <= |file.shdr| && StrTabs(file, n).Some?
    ensures var tabs := StrTabs(file, n).value;
            if 0 <= id < n && file.shdr[id].kind == SHT_STRTAB
            then Readable(file, file.shdr[id].offset, file.shdr[id].size) &&
                 FindStrTab(tabs, id) == Some(StrTab(id, ReadBytes(file, file.shdr[id].offset, file.shdr[id].size)))
            else FindStrTab(tabs, id).None?
  {
    if n == 0 {
    } else {
      StrTabLookup(file, n - 1, id);
      var tabs, older := StrTabs(file, n).value, StrTabs(file, n - 1).value;
      assert file.shdr[n - 1].kind == SHT_STRTAB ==> tabs[0].id == n - 1 && tabs[1..] == older;
    }
  }

  /** The list is in strictly descending order of section index. */
  lemma {:induction false} StrTabsDescend(file: ElfFile, n: nat)
    requires n <= |file.shdr| && StrTabs(file, n).Some?
    ensures var tabs := StrTabs(file, n).value;
            && (forall i | 0 <= i < |tabs| :: 0 <= tabs[i].id < n)
            && (forall i, j | 0 <= i < j < |tabs| :: tabs[i].id > tabs[j].id)
  {
    if n == 0 {
    } else {
      StrTabsDescend(file, n - 1);
    }
  }

  /** The list is there exactly when each string table can be read, and not empty exactly when there is one. */
  lemma {:induction false} StrTabsReadable(file: ElfFile, n: nat)
    requires n <= |file.shdr|
    ensures StrTabs(file, n).Some? <==>
            forall i | 0 <= i < n && file.shdr[i].kind == 3 :: Readable(file, file.shdr[i].offset, file.shdr[i].size)
    ensures StrTabs(file, n).Some? ==>
              (StrTabs(file, n).value == [] <==> forall i | 0 <= i < n :: file.shdr[i].kind != 3)
  {
    if n == 0 {
    } else {
      StrTabsReadable(file, n - 1);
    }
  }

  /** The flags are single bits. */
  lemma FlagIsBit(flags: Word, k: nat, flag: Word)
    requires k < 64 && flag == Pow2(k)
    ensures HasFlag(flags, flag) <==> Bit(flags, k)
  {
    AndNonzero(flags, k);
  }

  /** The first readable and executable segment of type 1, told by the bits of its flags. */
  lemma {:induction false} SegmentFound(ps: seq<Phdr>, i: nat)
    requires i <= |ps|
    ensures FirstCodeSegment(ps, i, TextSegment(ps, i))
    decreases |ps| - i
  {
    if i < |ps| {
      FlagIsBit(ps[i].flags, 0, PF_X);
      FlagIsBit(ps[i].flags, 2, PF_R);
      SegmentFound(ps, i + 1);
    }
  }

  /** The first executable section of type 1 in memory that holds the entry point. */
  lemma {:induction false} SectionFound(ss: seq<Shdr>, entry: Word, i: nat)
    requires i <= |ss|
    ensures FirstCodeSection(ss, entry, i, TextSection(ss, entry, i))
    decreases |ss| - i
  {
    if i < |ss| {
      FlagIsBit(ss[i].flags, 1, SHF_ALLOC);
      FlagIsBit(ss[i].flags, 2, SHF_EXECINSTR);
      SectionFound(ss, entry, i + 1);
    }
  }
}
