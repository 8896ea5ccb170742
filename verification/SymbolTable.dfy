/**
 The symbol table decoder. Raw records are read into the tail of one buffer, and decoded
 records are written from its front, so the two kinds share the buffer while it works.
 */
module SymbolTable {
  import opened Words
  import opened Options
  import opened Elf
  import ElfTool

  /** A symbol table entry; `bind`, `kind` and `visibility` are taken from `info` and `other`. */
  datatype Symbol = Symbol(name: nat, info: Byte, other: Byte, shndx: nat, value: nat, size: nat,
                           bind: Byte, kind: Byte, visibility: Byte)

  /** sizeof(elf_symbol_t), and the sizes of Elf32_Sym and Elf64_Sym. */
  const DECODED := 40

  function RawSize(clazz: Class): nat {
    match clazz case Class32 => 16 case Class64 => 24
  }

  /** Where record `i` starts in a raw table. */
  function RawOffset(clazz: Class, i: nat): nat {
    match clazz case Class32 => 16 * i case Class64 => 24 * i
  }

  /** An `n`-byte little-endian field. */
  function Field(bs: seq<Byte>, at: nat, n: nat): (w: nat)
    requires at + n <= |bs|
    ensures w < Pow256(n)
  {
    Pack(bs[at..at + n])
  }

  /** The raw record at `at`, with the field order of its class. */
  function RawAt(clazz: Class, bs: seq<Byte>, at: nat): (s: Symbol)
    requires at + RawSize(clazz) <= |bs|
    ensures 16 * s.bind + s.kind == s.info && s.bind < 16 && s.kind < 16 && s.visibility < 4
    ensures s.name < Pow256(4) && s.shndx < Pow256(2) && s.value < Pow256(8) && s.size < Pow256(8)
  {
    assert Pow256(8) > Pow256(4) by { Pow256Eight(); assert Pow256(4) == 0x1_0000_0000; }
    var info := bs[at + match clazz case Class32 => 12 case Class64 => 4];
    var other := bs[at + match clazz case Class32 => 13 case Class64 => 5];
    var (shndx, value, size) := match clazz
      case Class32 => (Field(bs, at + 14, 2), Field(bs, at + 4, 4), Field(bs, at + 8, 4))
      case Class64 => (Field(bs, at + 6, 2), Field(bs, at + 8, 8), Field(bs, at + 16, 8));
    Symbol(Field(bs, at, 4), info, other, shndx, value, size, info / 16, info % 16, other % 4)
  }

  // ----- the layout of raw records

  /** The fields of a symbol table entry. */
  datatype Entry = Entry(name: nat, info: Byte, other: Byte, shndx: nat, value: nat, size: nat)

  /** Addresses and sizes have the width of the class. */
  predicate Fits(clazz: Class, e: Entry) {
    var wide := match clazz case Class32 => 4 case Class64 => 8;
    e.name < Pow256(4) && e.shndx < Pow256(2) && e.value < Pow256(wide) && e.size < Pow256(wide)
  }

  /** Elf32_Sym and Elf64_Sym, as a file has them. */
  function Encode(clazz: Class, e: Entry): (bs: seq<Byte>)
    ensures |bs| == match clazz case Class32 => 16 case Class64 => 24
  {
    match clazz
    case Class32 => Unpack(e.name, 4) + Unpack(e.value, 4) + Unpack(e.size, 4) + [e.info, e.other] + Unpack(e.shndx, 2)
    case Class64 => Unpack(e.name, 4) + [e.info, e.other] + Unpack(e.shndx, 2) + Unpack(e.value, 8) + Unpack(e.size, 8)
  }

  /** A table: one entry after another. */
  function EncodeAll(clazz: Class, es: seq<Entry>): seq<Byte> {
    Concat(seq(|es|, i requires 0 <= i < |es| => Encode(clazz, es[i])))
  }

  function Concat(parts: seq<seq<Byte>>): seq<Byte> {
    if parts == [] then [] else parts[0] + Concat(parts[1..])
  }

  lemma FieldOf(front: seq<Byte>, w: nat, n: nat, back: seq<Byte>, at: nat)
    requires w < Pow256(n) && at == |front|
    ensures Field(front + Unpack(w, n) + back, at, n) == w
  {
    assert (front + Unpack(w, n) + back)[at..at + n] == Unpack(w, n);
    PackUnpack(w, n);
  }

  /** An entry decodes to its own fields, with bind and type in the halves of info, visibility in two bits of other. */
  lemma DecodesEntry(clazz: Class, e: Entry)
    requires Fits(clazz, e)
    ensures RawAt(clazz, Encode(clazz, e), 0) ==
              Symbol(e.name, e.info, e.other, e.shndx, e.value, e.size, e.info / 16, e.info % 16, e.other % 4)
  {
    match clazz
    case Class32 => Fields32(e);
    case Class64 => Fields64(e);
  }

  lemma Fields32(e: Entry)
    requires Fits(Class32, e)
    ensures var bs := Encode(Class32, e);
            && Field(bs, 0, 4) == e.name && Field(bs, 4, 4) == e.value && Field(bs, 8, 4) == e.size
            && bs[12] == e.info && bs[13] == e.other && Field(bs, 14, 2) == e.shndx
  {
    var bs := Encode(Class32, e);
    var name, value, size, mid, shndx :=
      Unpack(e.name, 4), Unpack(e.value, 4), Unpack(e.size, 4), [e.info, e.other], Unpack(e.shndx, 2);
    FieldOf([], e.name, 4, value + size + mid + shndx, 0);
    assert [] + name + (value + size + mid + shndx) == bs;
    FieldOf(name, e.value, 4, size + mid + shndx, 4);
    assert name + value + (size + mid + shndx) == bs;
    FieldOf(name + value, e.size, 4, mid + shndx, 8);
    assert name + value + size + (mid + shndx) == bs;
    FieldOf(name + value + size + mid, e.shndx, 2, [], 14);
    assert name + value + size + mid + shndx + [] == bs;
  }

  lemma Fields64(e: Entry)
    requires Fits(Class64, e)
    ensures var bs := Encode(Class64, e);
            && Field(bs, 0, 4) == e.name && bs[4] == e.info && bs[5] == e.other && Field(bs, 6, 2) == e.shndx
            && Field(bs, 8, 8) == e.value && Field(bs, 16, 8) == e.size
  {
    var bs := Encode(Class64, e);
    var name, mid, shndx, value, size :=
      Unpack(e.name, 4), [e.info, e.other], Unpack(e.shndx, 2), Unpack(e.value, 8), Unpack(e.size, 8);
    FieldOf([], e.name, 4, mid + shndx + value + size, 0);
    assert [] + name + (mid + shndx + value + size) == bs;
    FieldOf(name + mid, e.shndx, 2, value + size, 6);
    assert name + mid + shndx + (value + size) == bs;
    FieldOf(name + mid + shndx, e.value, 8, size, 8);
    assert name + mid + shndx + value + size == bs;
    FieldOf(name + mid + shndx + value, e.size, 8, [], 16);
    assert name + mid + shndx + value + size + [] == bs;
  }

  /** The decoded record at `at`, by the layout of elf_symbol_t. */
  function DecodedAt(bs: seq<Byte>, at: nat): Symbol
    requires at + DECODED <= |bs|
  {
    Symbol(Field(bs, at, 4), bs[at + 4], bs[at + 5], Field(bs, at + 8, 4), Field(bs, at + 16, 8), Field(bs, at + 24, 8),
           bs[at + 32], bs[at + 33], bs[at + 34])
  }

  /** elf_symbol_t, whatever is in its gaps. */
  lemma DecodedLayout(s: Symbol, gap: seq<Byte>, gap': seq<Byte>, tail: seq<Byte>)
    requires s.name < Pow256(4) && s.shndx < Pow256(4) && s.value < Pow256(8) && s.size < Pow256(8)
    requires |gap| == 2 && |gap'| == 4 && |tail| == 5
    ensures DecodedAt(Unpack(s.name, 4) + [s.info, s.other] + gap + Unpack(s.shndx, 4) + gap' +
                      Unpack(s.value, 8) + Unpack(s.size, 8) + [s.bind, s.kind, s.visibility] + tail, 0) == s
  {
    var front, shndx := Unpack(s.name, 4) + [s.info, s.other] + gap, Unpack(s.shndx, 4);
    var value, size, back := Unpack(s.value, 8), Unpack(s.size, 8), [s.bind, s.kind, s.visibility] + tail;
    var bs := front + shndx + gap' + value + size + [s.bind, s.kind, s.visibility] + tail;
    assert bs == front + shndx + gap' + value + size + back;
    FieldOf([], s.name, 4, bs[4..], 0);
    assert [] + Unpack(s.name, 4) + bs[4..] == bs;
    FieldOf(front, s.shndx, 4, bs[12..], 8);
    assert front + shndx + bs[12..] == bs;
    FieldOf(front + shndx + gap', s.value, 8, bs[24..], 16);
    assert front + shndx + gap' + value + bs[24..] == bs;
    FieldOf(front + shndx + gap' + value, s.size, 8, bs[32..], 24);
    assert front + shndx + gap' + value + size + bs[32..] == bs;
  }

  /** The buffers agree except on `n` bytes from `at`. */
  ghost predicate SameOutside(bs: seq<Byte>, bs': seq<Byte>, at: nat, n: nat) {
    |bs| == |bs'| && forall k | 0 <= k < |bs| && !(at <= k < at + n) :: bs'[k] == bs[k]
  }

  lemma FieldSame(bs: seq<Byte>, bs': seq<Byte>, at: nat, n: nat, from: nat, len: nat)
    requires SameOutside(bs, bs', from, len) && at + n <= |bs|
    requires at + n <= from || from + len <= at
    ensures Field(bs', at, n) == Field(bs, at, n)
  {
    assert bs'[at..at + n] == bs[at..at + n];
  }

  lemma DecodedSame(bs: seq<Byte>, bs': seq<Byte>, at: nat, from: nat, len: nat)
    requires SameOutside(bs, bs', from, len) && at + DECODED <= |bs|
    requires at + DECODED <= from || from + len <= at
    ensures DecodedAt(bs', at) == DecodedAt(bs, at)
  {
    FieldSame(bs, bs', at, 4, from, len);
    FieldSame(bs, bs', at + 8, 4, from, len);
    FieldSame(bs, bs', at + 16, 8, from, len);
    FieldSame(bs, bs', at + 24, 8, from, len);
  }

  lemma RawSame(clazz: Class, bs: seq<Byte>, bs': seq<Byte>, at: nat, from: nat, len: nat)
    requires SameOutside(bs, bs', from, len) && at + RawSize(clazz) <= |bs|
    requires from + len <= at
    ensures RawAt(clazz, bs', at) == RawAt(clazz, bs, at)
  {
    FieldSame(bs, bs', at, 4, from, len);
    if clazz == Class32 {
      FieldSame(bs, bs', at + 4, 4, from, len);
      FieldSame(bs, bs', at + 8, 4, from, len);
      FieldSame(bs, bs', at + 14, 2, from, len);
    } else {
      FieldSame(bs, bs', at + 6, 2, from, len);
      FieldSame(bs, bs', at + 8, 8, from, len);
      FieldSame(bs, bs', at + 16, 8, from, len);
    }
  }

  /** Stores the `n` low bytes of `w`. */
  method Store(a: array<Byte>, at: nat, w: nat, n: nat)
    requires at + n <= a.Length && w < Pow256(n)
    modifies a
    ensures SameOutside(old(a[..]), a[..], at, n)
    ensures Field(a[..], at, n) == w
  {
    var bs := Unpack(w, n);
    forall k | 0 <= k < n {
      a[at + k] := bs[k];
    }
    PackUnpack(w, n);
    assert a[..][at..at + n] == bs;
  }

  /** Changes in `n` bytes from `at`, then in `n'` from `at'`, are changes in any range around both. */
  lemma SameAround(b0: seq<Byte>, b1: seq<Byte>, b2: seq<Byte>, at: nat, n: nat, at': nat, n': nat, lo: nat, len: nat)
    requires SameOutside(b0, b1, at, n) && SameOutside(b1, b2, at', n')
    requires lo <= at && at + n <= lo + len && lo <= at' && at' + n' <= lo + len
    ensures SameOutside(b0, b2, lo, len)
  {
  }

  /** Bind, type and visibility, the last three fields. */
  method AssignDerived(a: array<Byte>, clazz: Class, at: nat, raw: nat)
    requires at + DECODED <= raw && raw + RawSize(clazz) <= a.Length
    modifies a
    ensures SameOutside(old(a[..]), a[..], at + 32, 3)
    ensures var s := RawAt(clazz, old(a[..]), raw);
            a[at + 32] == s.bind && a[at + 33] == s.kind && a[at + 34] == s.visibility
  {
    ghost var b0 := a[..];
    a[at + 32] := RawAt(clazz, a[..], raw).info / 16;
    RawSame(clazz, b0, a[..], raw, at + 32, 1);
    a[at + 33] := RawAt(clazz, a[..], raw).info % 16;
    RawSame(clazz, b0, a[..], raw, at + 32, 2);
    a[at + 34] := RawAt(clazz, a[..], raw).other % 4;
  }

  /** Value and size, and what follows them. */
  method AssignExtent(a: array<Byte>, clazz: Class, at: nat, raw: nat)
    requires at + DECODED <= raw && raw + RawSize(clazz) <= a.Length
    modifies a
    ensures SameOutside(old(a[..]), a[..], at + 16, 19)
    ensures var s := RawAt(clazz, old(a[..]), raw);
            && Field(a[..], at + 16, 8) == s.value && Field(a[..], at + 24, 8) == s.size
            && a[at + 32] == s.bind && a[at + 33] == s.kind && a[at + 34] == s.visibility
  {
    ghost var b0 := a[..];
    Store(a, at + 16, RawAt(clazz, a[..], raw).value, 8);
    ghost var b1 := a[..];
    RawSame(clazz, b0, b1, raw, at + 16, 8);
    Store(a, at + 24, RawAt(clazz, a[..], raw).size, 8);
    ghost var b2 := a[..];
    RawSame(clazz, b1, b2, raw, at + 24, 8);
    AssignDerived(a, clazz, at, raw);
    ghost var b3 := a[..];
    FieldSame(b2, b3, at + 24, 8, at + 32, 3);
    SameAround(b1, b2, b3, at + 24, 8, at + 32, 3, at + 24, 11);
    FieldSame(b1, b3, at + 16, 8, at + 24, 11);
    SameAround(b0, b1, b3, at + 16, 8, at + 24, 11, at + 16, 19);
  }

  /** Section index, and what follows it. */
  method AssignWords(a: array<Byte>, clazz: Class, at: nat, raw: nat)
    requires at + DECODED <= raw && raw + RawSize(clazz) <= a.Length
    modifies a
    ensures SameOutside(old(a[..]), a[..], at + 8, 27)
    ensures var s := RawAt(clazz, old(a[..]), raw);
            && Field(a[..], at + 8, 4) == s.shndx
            && Field(a[..], at + 16, 8) == s.value && Field(a[..], at + 24, 8) == s.size
            && a[at + 32] == s.bind && a[at + 33] == s.kind && a[at + 34] == s.visibility
  {
    ghost var b0 := a[..];
    assert Pow256(4) == 256 * 256 * Pow256(2);
    Store(a, at + 8, RawAt(clazz, a[..], raw).shndx, 4);
    ghost var b1 := a[..];
    RawSame(clazz, b0, b1, raw, at + 8, 4);
    AssignExtent(a, clazz, at, raw);
    ghost var b2 := a[..];
    FieldSame(b1, b2, at + 8, 4, at + 16, 19);
    SameAround(b0, b1, b2, at + 8, 4, at + 16, 19, at + 8, 27);
  }

  /** One record: each field is read from the raw record when its turn comes. */
  method AssignSym(a: array<Byte>, clazz: Class, at: nat, raw: nat)
    requires at + DECODED <= raw && raw + RawSize(clazz) <= a.Length
    modifies a
    ensures SameOutside(old(a[..]), a[..], at, DECODED)
    ensures DecodedAt(a[..], at) == RawAt(clazz, old(a[..]), raw)
  {
    ghost var b0 := a[..];
    Store(a, at, RawAt(clazz, a[..], raw).name, 4);
    ghost var b1 := a[..];
    RawSame(clazz, b0, b1, raw, at, 4);
    a[at + 4] := RawAt(clazz, a[..], raw).info;
    ghost var b2 := a[..];
    RawSame(clazz, b1, b2, raw, at + 4, 1);
    a[at + 5] := RawAt(clazz, a[..], raw).other;
    ghost var b3 := a[..];
    RawSame(clazz, b2, b3, raw, at + 5, 1);
    AssignWords(a, clazz, at, raw);
    ghost var b4 := a[..];
    SameAround(b1, b2, b3, at + 4, 1, at + 5, 1, at + 4, 2);
    SameAround(b1, b3, b4, at + 4, 2, at + 8, 27, at + 4, 31);
    FieldSame(b1, b4, at, 4, at + 4, 31);
    assert b4[at + 4] == b3[at + 4] == b2[at + 4] && b4[at + 5] == b3[at + 5];
    SameAround(b0, b1, b4, at, 4, at + 4, 31, at, DECODED);
  }

  // ----- the whole table

  /** What elf_load_symtab_internal hands back: the records lie at the front of `symbol`. */
  datatype SymTab = SymTab(count: nat, strtab: StrTab)

  /** Record `i` of the raw table. */
  function RawRecord(clazz: Class, raw: seq<Byte>, i: nat): Symbol
    requires RawOffset(clazz, i + 1) <= |raw|
  {
    RawAt(clazz, raw, RawOffset(clazz, i))
  }

  /** Where the raw records start, and the size of the buffer. */
  function RawStart(count: nat): nat {
    DECODED * count
  }

  ghost predicate Decodes(clazz: Class, bs: seq<Byte>, raw: seq<Byte>, n: nat)
    requires RawOffset(clazz, n) <= |raw| && DECODED * n <= |bs|
  {
    forall j: nat | j < n :: DecodedRecord(bs, j) == RawRecord(clazz, raw, j)
  }

  function DecodedRecord(bs: seq<Byte>, i: nat): Symbol
    requires DECODED * (i + 1) <= |bs|
  {
    DecodedAt(bs, DECODED * i)
  }

  lemma FieldInTail(bs: seq<Byte>, raw: seq<Byte>, start: nat, at: nat, n: nat)
    requires start <= |bs| && bs[start..] == raw && at + n <= |raw|
    ensures Field(bs, start + at, n) == Field(raw, at, n)
  {
    var s, s' := bs[start + at..start + at + n], raw[at..at + n];
    forall k | 0 <= k < n
      ensures s[k] == s'[k]
    {
      assert bs[start..][at + k] == raw[at + k];
    }
    assert s == s';
  }

  /** A raw record in the tail of the buffer is the record of the raw table. */
  lemma RawInTail(clazz: Class, bs: seq<Byte>, raw: seq<Byte>, start: nat, at: nat)
    requires start <= |bs| && bs[start..] == raw && at + RawSize(clazz) <= |raw|
    ensures RawAt(clazz, bs, start + at) == RawAt(clazz, raw, at)
  {
    FieldInTail(bs, raw, start, at, 4);
    if clazz == Class32 {
      FieldInTail(bs, raw, start, at + 4, 4);
      FieldInTail(bs, raw, start, at + 8, 4);
      FieldInTail(bs, raw, start, at + 14, 2);
      assert bs[start + at + 12] == raw[at + 12] && bs[start + at + 13] == raw[at + 13];
    } else {
      FieldInTail(bs, raw, start, at + 6, 2);
      FieldInTail(bs, raw, start, at + 8, 8);
      FieldInTail(bs, raw, start, at + 16, 8);
      assert bs[start + at + 4] == raw[at + 4] && bs[start + at + 5] == raw[at + 5];
    }
  }

  lemma TailSame(bs: seq<Byte>, bs': seq<Byte>, at: nat, n: nat, start: nat)
    requires SameOutside(bs, bs', at, n) && at + n <= start <= |bs|
    ensures bs'[start..] == bs[start..]
  {
    assert |bs'| == |bs|;
    forall k | start <= k < |bs|
      ensures bs'[k] == bs[k]
    {
    }
  }

  lemma EarlierSame(bs: seq<Byte>, bs': seq<Byte>, i: nat, j: nat)
    requires SameOutside(bs, bs', DECODED * i, DECODED) && j < i && DECODED * (i + 1) <= |bs|
    ensures DecodedRecord(bs', j) == DecodedRecord(bs, j)
  {
    DecodedSame(bs, bs', DECODED * j, DECODED * i, DECODED);
  }

  lemma {:induction false} ConcatLength(clazz: Class, parts: seq<seq<Byte>>)
    requires forall i | 0 <= i < |parts| :: |parts[i]| == RawSize(clazz)
    ensures |Concat(parts)| == RawOffset(clazz, |parts|)
  {
    if parts != [] {
      ConcatLength(clazz, parts[1..]);
    }
  }

  lemma {:induction false} ConcatSplit(parts: seq<seq<Byte>>, i: nat)
    requires i < |parts|
    ensures Concat(parts) == Concat(parts[..i]) + parts[i] + Concat(parts[i + 1..])
  {
    if i == 0 {
      assert parts[..0] == [];
    } else {
      ConcatSplit(parts[1..], i - 1);
      assert parts[..i][0] == parts[0] && parts[..i][1..] == parts[1..][..i - 1];
      assert parts[1..][i..] == parts[i + 1..];
    }
  }

  lemma FieldInside(front: seq<Byte>, bs: seq<Byte>, back: seq<Byte>, at: nat, n: nat)
    requires at + n <= |bs|
    ensures Field(front + bs + back, |front| + at, n) == Field(bs, at, n)
  {
    assert (front + bs + back)[|front| + at..|front| + at + n] == bs[at..at + n];
  }

  /** A record does not depend on what lies around it. */
  lemma RawInside(clazz: Class, front: seq<Byte>, bs: seq<Byte>, back: seq<Byte>)
    requires |bs| == RawSize(clazz)
    ensures RawAt(clazz, front + bs + back, |front|) == RawAt(clazz, bs, 0)
  {
    FieldInside(front, bs, back, 0, 4);
    if clazz == Class32 {
      FieldInside(front, bs, back, 4, 4);
      FieldInside(front, bs, back, 8, 4);
      FieldInside(front, bs, back, 14, 2);
    } else {
      FieldInside(front, bs, back, 6, 2);
      FieldInside(front, bs, back, 8, 8);
      FieldInside(front, bs, back, 16, 8);
    }
  }

  /** Record `i` of a table is entry `i`, field by field. */
  lemma DecodesTable(clazz: Class, es: seq<Entry>, i: nat)
    requires i < |es| && Fits(clazz, es[i])
    ensures RawOffset(clazz, i + 1) <= |EncodeAll(clazz, es)|
    ensures var e := es[i];
            RawRecord(clazz, EncodeAll(clazz, es), i) ==
              Symbol(e.name, e.info, e.other, e.shndx, e.value, e.size, e.info / 16, e.info % 16, e.other % 4)
  {
    var parts := seq(|es|, j requires 0 <= j < |es| => Encode(clazz, es[j]));
    ConcatLength(clazz, parts[..i]);
    ConcatSplit(parts, i);
    RawInside(clazz, Concat(parts[..i]), parts[i], Concat(parts[i + 1..]));
    DecodesEntry(clazz, es[i]);
  }

  /** One more record decoded in its place: the earlier ones and the raw tail are as they were. */
  lemma DecodesOneMore(clazz: Class, bs: seq<Byte>, bs': seq<Byte>, raw: seq<Byte>, start: nat, i: nat)
    requires DECODED * (i + 1) <= start <= |bs| && bs[start..] == raw && RawOffset(clazz, i + 1) <= |raw|
    requires Decodes(clazz, bs, raw, i) && SameOutside(bs, bs', DECODED * i, DECODED)
    requires DecodedAt(bs', DECODED * i) == RawRecord(clazz, raw, i)
    ensures Decodes(clazz, bs', raw, i + 1) && bs'[start..] == raw
  {
    TailSame(bs, bs', DECODED * i, DECODED, start);
    forall j: nat | j < i
      ensures DecodedRecord(bs', j) == RawRecord(clazz, raw, j)
    {
      assert DecodedRecord(bs, j) == RawRecord(clazz, raw, j);
      EarlierSame(bs, bs', i, j);
    }
  }

  /**
   The in-place decoding loop: every decoded record is the decoding of the raw record that
   was read, because no write to the front reaches the tail.
   */
  method DecodeAll(a: array<Byte>, clazz: Class, count: nat, ghost raw: seq<Byte>)
    requires a.Length == RawStart(count) + |raw| && a[RawStart(count)..] == raw
    requires RawOffset(clazz, count) <= |raw|
    modifies a
    ensures Decodes(clazz, a[..], raw, count)
    ensures a[RawStart(count)..] == raw
  {
    var i := 0;
    while i < count
      invariant i <= count && a[..][RawStart(count)..] == raw
      invariant RawOffset(clazz, i) <= |raw| && Decodes(clazz, a[..], raw, i)
    {
      DecodeRecord(a, clazz, count, raw, i);
      i := i + 1;
    }
  }

  method DecodeRecord(a: array<Byte>, clazz: Class, count: nat, ghost raw: seq<Byte>, i: nat)
    requires a.Length == RawStart(count) + |raw| && a[..][RawStart(count)..] == raw
    requires i < count && RawOffset(clazz, i + 1) <= RawOffset(clazz, count) <= |raw|
    requires Decodes(clazz, a[..], raw, i)
    modifies a
    ensures a[..][RawStart(count)..] == raw && Decodes(clazz, a[..], raw, i + 1)
  {
    ghost var before := a[..];
    RawInTail(clazz, before, raw, RawStart(count), RawOffset(clazz, i));
    AssignSym(a, clazz, DECODED * i, RawStart(count) + RawOffset(clazz, i));
    DecodesOneMore(clazz, before, a[..], raw, RawStart(count), i);
  }

  /**
   The result of loading section `s`: a failure without the linked string table or when the
   section cannot be read, and otherwise all its records, decoded at the front of the buffer.
   */
  ghost predicate Loaded(h: Handle, s: Shdr, r: Option<SymTab>, bs: seq<Byte>) {
    && (r.Some? <==> FindStrTab(h.strtab, s.link).Some? && Readable(h.file, s.offset, s.size))
    && (r.Some? ==>
          var count := r.value.count;
          && r.value.strtab == FindStrTab(h.strtab, s.link).value
          && count == s.size / RawSize(h.file.clazz)
          && RawOffset(h.file.clazz, count) <= s.size && DECODED * count <= |bs|
          && Decodes(h.file.clazz, bs, ReadBytes(h.file, s.offset, s.size), count))
  }

  /** If the section is a table of entries, it is loaded as those entries. */
  lemma LoadedTable(h: Handle, s: Shdr, r: Option<SymTab>, bs: seq<Byte>, es: seq<Entry>, i: nat)
    requires Loaded(h, s, r, bs) && r.Some? && i < |es| && Fits(h.file.clazz, es[i])
    requires ReadBytes(h.file, s.offset, s.size) == EncodeAll(h.file.clazz, es)
    ensures r.value.count == |es| && DECODED * |es| <= |bs|
    ensures var e := es[i];
            DecodedRecord(bs, i) ==
              Symbol(e.name, e.info, e.other, e.shndx, e.value, e.size, e.info / 16, e.info % 16, e.other % 4)
  {
    var clazz, raw := h.file.clazz, ReadBytes(h.file, s.offset, s.size);
    EncodeLength(clazz, es);
    CountOf(clazz, |es|);
    assert Decodes(clazz, bs, raw, |es|);
    DecodesTable(clazz, es, i);
  }

  lemma CountOf(clazz: Class, n: nat)
    ensures RawOffset(clazz, n) / RawSize(clazz) == n
  {
  }

  lemma EncodeLength(clazz: Class, es: seq<Entry>)
    ensures |EncodeAll(clazz, es)| == RawOffset(clazz, |es|)
  {
    ConcatLength(clazz, seq(|es|, j requires 0 <= j < |es| => Encode(clazz, es[j])));
  }

  /** elf_load_symtab_internal on a loaded file. */
  method LoadSymTab(h: Handle, s: Shdr) returns (r: Option<SymTab>, symbol: array<Byte>)
    ensures fresh(symbol)
    ensures Loaded(h, s, r, symbol[..])
  {
    r, symbol := None, new Byte[0];
    var tab := ElfTool.FindTab(h.strtab, s.link);
    if tab.None? {
      return;
    }
    var clazz := h.file.clazz;
    var count := s.size / RawSize(clazz);
    if !Readable(h.file, s.offset, s.size) {
      return;
    }
    var raw := ReadBytes(h.file, s.offset, s.size);
    symbol := new Byte[RawStart(count) + s.size];
    forall k | 0 <= k < s.size {
      symbol[RawStart(count) + k] := raw[k];
    }
    assert symbol[RawStart(count)..] == raw;
    DecodeAll(symbol, clazz, count, raw);
    r := Some(SymTab(count, tab.value));
  }

  /** elf_load_symtab and elf_load_dsymtab: the first section of the type, whether or not it loads. */
  method LoadFirst(h: Handle, kind: Word) returns (r: Option<SymTab>, symbol: array<Byte>)
    ensures fresh(symbol)
    ensures match FirstOfKind(h.file.shdr, kind, 0)
            case None => r.None?
            case Some(s) => Loaded(h, s, r, symbol[..])
  {
    var i := 0;
    while i < |h.file.shdr|
      invariant i <= |h.file.shdr| && FirstOfKind(h.file.shdr, kind, 0) == FirstOfKind(h.file.shdr, kind, i)
    {
      if h.file.shdr[i].kind == kind {
        r, symbol := LoadSymTab(h, h.file.shdr[i]);
        return;
      }
      i := i + 1;
    }
    r, symbol := None, new Byte[0];
  }
}
