/** The file format side of libelf: object classes, element types with their file and memory
    sizes, section types, and the field-by-field encoding of header records. */
module ElfFormat {
  import opened Bytes
  import opened Options
  import opened Arith

  datatype Class = Class32 | Class64

  /** The element types that a section can hold. */
  datatype ElfType =
    | TAddr | TByte | TDyn | TMove | TNote | TRel | TRela | TSyminfo | TSym | TVdef | TVneed | TWord

  const EV_NONE := 0
  const EV_CURRENT := 1
  const SHN_LORESERVE := 0xff00
  const PN_XNUM := 0xffff
  const SHN_XINDEX := 0xffff
  const SHT_NULL := 0
  const SHT_STRTAB := 3
  const SHT_NOBITS := 8

  /** The value of e_ident[EI_CLASS]. */
  function ClassCode(cls: Class): byte { if cls.Class32? then 1 else 2 }

  /** The byte order that _libelf_xlate uses for a value of e_ident[EI_DATA]: for ELFDATANONE that of the
      host, and it refuses values other than ELFDATA2LSB and ELFDATA2MSB. */
  function Encoding(data: byte, host: ByteOrder): Option<ByteOrder>
  {
    match data
    case 0 => Some(host)
    case 1 => Some(Lsb)
    case 2 => Some(Msb)
    case _ => None
  }

  /** _libelf_xlate_shtype, for section types other than SHT_NULL. */
  function XlateShtype(shType: nat): Option<ElfType>
  {
    match shType
    case 1 => Some(TByte)            // SHT_PROGBITS
    case 2 => Some(TSym)             // SHT_SYMTAB
    case 3 => Some(TByte)            // SHT_STRTAB
    case 4 => Some(TRela)            // SHT_RELA
    case 5 => Some(TWord)            // SHT_HASH
    case 6 => Some(TDyn)             // SHT_DYNAMIC
    case 7 => Some(TNote)            // SHT_NOTE
    case 8 => Some(TByte)            // SHT_NOBITS
    case 9 => Some(TRel)             // SHT_REL
    case 11 => Some(TSym)            // SHT_DYNSYM
    case 14 => Some(TAddr)           // SHT_INIT_ARRAY
    case 15 => Some(TAddr)           // SHT_FINI_ARRAY
    case 16 => Some(TAddr)           // SHT_PREINIT_ARRAY
    case 17 => Some(TWord)           // SHT_GROUP
    case 18 => Some(TWord)           // SHT_SYMTAB_SHNDX
    case 0x6ffffffa => Some(TMove)   // SHT_SUNW_move
    case 0x6ffffffc => Some(TSyminfo)// SHT_SUNW_syminfo
    case 0x6ffffffd => Some(TVdef)   // SHT_GNU_verdef
    case 0x6ffffffe => Some(TVneed)  // SHT_GNU_verneed
    case _ => None
  }

  /** _libelf_falign. */
  function FileAlign(t: ElfType, cls: Class): (a: nat)
    ensures a in {1, 2, 4, 8}
  {
    match t
    case TByte => 1
    case TSyminfo => 2
    case TNote => 4
    case TVdef => 4
    case TVneed => 4
    case TWord => 4
    case TMove => 8
    case _ => if cls.Class32? then 4 else 8
  }

  /** _libelf_fsize of one element: the sum of its field sizes. */
  function FileSize(t: ElfType, cls: Class): nat
  {
    match t
    case TByte => 1
    case TNote => 1
    case TSyminfo => 4
    case TWord => 4
    case TVdef => 20
    case TVneed => 16
    case TAddr => if cls.Class32? then 4 else 8
    case TDyn => if cls.Class32? then 8 else 16
    case TRel => if cls.Class32? then 8 else 16
    case TRela => if cls.Class32? then 12 else 24
    case TSym => if cls.Class32? then 16 else 24
    case TMove => if cls.Class32? then 20 else 28
  }

  /** _libelf_msize: sizeof the C structure. Only Elf32_Move and Elf64_Move carry padding. */
  function MemSize(t: ElfType, cls: Class): nat
  {
    if t.TMove? then (if cls.Class32? then 24 else 32) else FileSize(t, cls)
  }

  function EhdrSize(cls: Class): nat { if cls.Class32? then 52 else 64 }
  function PhdrSize(cls: Class): nat { if cls.Class32? then 32 else 56 }
  function ShdrSize(cls: Class): nat { if cls.Class32? then 40 else 64 }

  function PhdrTableSize(cls: Class, n: nat): nat { if cls.Class32? then 32 * n else 56 * n }
  function ShdrTableSize(cls: Class, n: nat): nat { if cls.Class32? then 40 * n else 64 * n }

  lemma TableSizeNext(cls: Class, i: nat)
    ensures ShdrTableSize(cls, i + 1) == ShdrTableSize(cls, i) + ShdrSize(cls)
  {
  }

  lemma TableSizeGrows(cls: Class, i: nat, j: nat)
    requires i <= j
    ensures ShdrTableSize(cls, i) <= ShdrTableSize(cls, j)
  {
  }

  /** _libelf_falign of ELF_T_PHDR and of ELF_T_SHDR. */
  function HeaderAlign(cls: Class): nat { if cls.Class32? then 4 else 8 }

  /** The width in bytes of Elf32_Off/Elf64_Off and of the other class-sized header fields. */
  function OffWidth(cls: Class): nat { if cls.Class32? then 4 else 8 }

  /** A value stored in a class-sized header field: 32-bit headers truncate. */
  function Stored(cls: Class, v: nat): nat
  {
    if cls.Class32? then v % 0x1_0000_0000 else v % 0x1_0000_0000_0000_0000
  }

  /** The values that such a field holds unchanged. */
  function FieldLimit(cls: Class): nat { if cls.Class32? then 0x1_0000_0000 else 0x1_0000_0000_0000_0000 }

  lemma StoredIff(cls: Class, v: nat)
    ensures Stored(cls, v) <= v && (Stored(cls, v) == v <==> v < FieldLimit(cls))
  {
  }

  datatype Shdr = Shdr(name: nat, shType: nat, flags: nat, addr: nat, offset: nat, size: nat,
                       link: nat, info: nat, addralign: nat, entsize: nat)

  datatype Ehdr = Ehdr(ident: seq<byte>, etype: nat, machine: nat, version: nat, entry: nat,
                       phoff: nat, shoff: nat, flags: nat, ehsize: nat, phentsize: nat, phnum: nat,
                       shentsize: nat, shnum: nat, shstrndx: nat)

  // ---------------------------------------------------------------- field encoding

  function Pow256(w: nat): (p: nat)
    ensures p > 0
  {
    if w == 0 then 1 else 256 * Pow256(w - 1)
  }

  /** The `w` bytes of `v` in the given order; higher bytes are lost. */
  function EncodeField(v: nat, w: nat, order: ByteOrder): (s: seq<byte>)
    ensures |s| == w
  {
    if w == 0 then []
    else if order.Lsb? then [v % 256] + EncodeField(v / 256, w - 1, order)
    else EncodeField(v / 256, w - 1, order) + [v % 256]
  }

  function DecodeField(s: seq<byte>, order: ByteOrder): nat
  {
    if s == [] then 0
    else if order.Lsb? then s[0] + 256 * DecodeField(s[1..], order)
    else s[|s| - 1] + 256 * DecodeField(s[..|s| - 1], order)
  }

  lemma {:induction false} FieldRoundTrip(v: nat, w: nat, order: ByteOrder)
    requires v < Pow256(w)
    ensures DecodeField(EncodeField(v, w, order), order) == v
  {
    if w > 0 {
      FieldRoundTrip(v / 256, w - 1, order);
      var rest := EncodeField(v / 256, w - 1, order);
      assert ([v % 256] + rest)[1..] == rest;
      assert (rest + [v % 256])[..w - 1] == rest;
    }
  }

  /** A header record: its field values and their widths, in file order. */
  function EncodeRecord(vs: seq<nat>, ws: seq<nat>, order: ByteOrder): (s: seq<byte>)
    requires |vs| == |ws|
    ensures |s| == SumOf(ws)
  {
    if vs == [] then []
    else EncodeField(vs[0], ws[0], order) + EncodeRecord(vs[1..], ws[1..], order)
  }

  function SumOf(ws: seq<nat>): nat
  {
    if ws == [] then 0 else ws[0] + SumOf(ws[1..])
  }

  function DecodeRecord(s: seq<byte>, ws: seq<nat>, order: ByteOrder): (vs: seq<nat>)
    requires |s| == SumOf(ws)
    ensures |vs| == |ws|
  {
    if ws == [] then []
    else [DecodeField(s[..ws[0]], order)] + DecodeRecord(s[ws[0]..], ws[1..], order)
  }

  /** Every value fits in its field. */
  ghost predicate Fits(vs: seq<nat>, ws: seq<nat>)
  {
    |vs| == |ws| && forall i :: 0 <= i < |vs| ==> vs[i] < Pow256(ws[i])
  }

  lemma Pow256Values()
    ensures Pow256(2) == 0x1_0000 && Pow256(4) == 0x1_0000_0000 && Pow256(8) == 0x1_0000_0000_0000_0000
  {
    assert Pow256(4) == 256 * (256 * Pow256(2));
    assert Pow256(6) == 256 * (256 * Pow256(4));
  }

  lemma FitsShdr(h: Shdr, cls: Class)
    ensures Fits(ShdrValues(h), ShdrWidths(cls)) <==>
      var w := Pow256(OffWidth(cls));
      && h.name < 0x1_0000_0000 && h.shType < 0x1_0000_0000 && h.flags < w && h.addr < w && h.offset < w
      && h.size < w && h.link < 0x1_0000_0000 && h.info < 0x1_0000_0000 && h.addralign < w && h.entsize < w
  {
    Pow256Values();
    var vs, ws := ShdrValues(h), ShdrWidths(cls);
    assert Fits(vs, ws) ==>
      && vs[0] < Pow256(ws[0]) && vs[1] < Pow256(ws[1]) && vs[2] < Pow256(ws[2]) && vs[3] < Pow256(ws[3])
      && vs[4] < Pow256(ws[4]) && vs[5] < Pow256(ws[5]) && vs[6] < Pow256(ws[6]) && vs[7] < Pow256(ws[7])
      && vs[8] < Pow256(ws[8]) && vs[9] < Pow256(ws[9]);
  }

  lemma FitsEhdr(h: Ehdr, cls: Class)
    ensures Fits(EhdrValues(h), EhdrWidths(cls)) <==>
      var w := Pow256(OffWidth(cls));
      && h.etype < 0x1_0000 && h.machine < 0x1_0000 && h.version < 0x1_0000_0000 && h.entry < w
      && h.phoff < w && h.shoff < w && h.flags < 0x1_0000_0000 && h.ehsize < 0x1_0000 && h.phentsize < 0x1_0000
      && h.phnum < 0x1_0000 && h.shentsize < 0x1_0000 && h.shnum < 0x1_0000 && h.shstrndx < 0x1_0000
  {
    Pow256Values();
    var vs, ws := EhdrValues(h), EhdrWidths(cls);
    assert Fits(vs, ws) ==>
      && vs[0] < Pow256(ws[0]) && vs[1] < Pow256(ws[1]) && vs[2] < Pow256(ws[2]) && vs[3] < Pow256(ws[3])
      && vs[4] < Pow256(ws[4]) && vs[5] < Pow256(ws[5]) && vs[6] < Pow256(ws[6]) && vs[7] < Pow256(ws[7])
      && vs[8] < Pow256(ws[8]) && vs[9] < Pow256(ws[9]) && vs[10] < Pow256(ws[10]) && vs[11] < Pow256(ws[11])
      && vs[12] < Pow256(ws[12]);
  }

  lemma {:induction false} RecordRoundTrip(vs: seq<nat>, ws: seq<nat>, order: ByteOrder)
    requires Fits(vs, ws)
    ensures DecodeRecord(EncodeRecord(vs, ws, order), ws, order) == vs
  {
    if vs != [] {
      var head := EncodeField(vs[0], ws[0], order);
      var tail := EncodeRecord(vs[1..], ws[1..], order);
      FieldRoundTrip(vs[0], ws[0], order);
      RecordRoundTrip(vs[1..], ws[1..], order);
      assert (head + tail)[..ws[0]] == head && (head + tail)[ws[0]..] == tail;
    }
  }

  function ShdrWidths(cls: Class): seq<nat>
  {
    var w := OffWidth(cls);
    [4, 4, w, w, w, w, 4, 4, w, w]
  }

  function ShdrValues(h: Shdr): seq<nat>
  {
    [h.name, h.shType, h.flags, h.addr, h.offset, h.size, h.link, h.info, h.addralign, h.entsize]
  }

  function EncodeShdr(h: Shdr, cls: Class, order: ByteOrder): (s: seq<byte>)
    ensures |s| == ShdrSize(cls)
  {
    ShdrWidthsSum(cls);
    EncodeRecord(ShdrValues(h), ShdrWidths(cls), order)
  }

  function DecodeShdr(s: seq<byte>, cls: Class, order: ByteOrder): Shdr
    requires |s| == ShdrSize(cls)
  {
    ShdrWidthsSum(cls);
    var v := DecodeRecord(s, ShdrWidths(cls), order);
    Shdr(v[0], v[1], v[2], v[3], v[4], v[5], v[6], v[7], v[8], v[9])
  }

  lemma ShdrWidthsSum(cls: Class)
    ensures SumOf(ShdrWidths(cls)) == ShdrSize(cls)
  {
    var w := OffWidth(cls);
    var ws := ShdrWidths(cls);
    assert ws == [4, 4, w, w] + ([w, w, 4, 4] + [w, w]);
    SumOfFour(4, 4, w, w, [w, w, 4, 4] + [w, w]);
    SumOfFour(w, w, 4, 4, [w, w]);
  }

  lemma SumOfFour(a: nat, b: nat, c: nat, d: nat, rest: seq<nat>)
    ensures SumOf([a, b, c, d] + rest) == a + b + c + d + SumOf(rest)
  {
    var s := [a, b, c, d] + rest;
    assert SumOf(s) == a + SumOf(s[1..]);
    assert SumOf(s[1..]) == b + SumOf(s[1..][1..]);
    assert SumOf(s[1..][1..]) == c + SumOf(s[1..][1..][1..]);
    assert s[1..][1..][1..] == [d] + rest && ([d] + rest)[1..] == rest;
  }

  function EhdrWidths(cls: Class): seq<nat>
  {
    var w := OffWidth(cls);
    [2, 2, 4, w, w, w, 4, 2, 2, 2, 2, 2, 2]
  }

  function EhdrValues(h: Ehdr): seq<nat>
  {
    [h.etype, h.machine, h.version, h.entry, h.phoff, h.shoff, h.flags, h.ehsize, h.phentsize, h.phnum,
     h.shentsize, h.shnum, h.shstrndx]
  }

  lemma EhdrWidthsSum(cls: Class)
    ensures SumOf(EhdrWidths(cls)) == EhdrSize(cls) - 16
  {
    var w := OffWidth(cls);
    var ws := EhdrWidths(cls);
    assert ws == [2, 2, 4, w] + ([w, w, 4, 2] + ([2, 2, 2, 2] + [2]));
    SumOfFour(2, 2, 4, w, [w, w, 4, 2] + ([2, 2, 2, 2] + [2]));
    SumOfFour(w, w, 4, 2, [2, 2, 2, 2] + [2]);
    SumOfFour(2, 2, 2, 2, [2]);
  }

  function EncodeEhdr(h: Ehdr, cls: Class, order: ByteOrder): (s: seq<byte>)
    requires |h.ident| == 16
    ensures |s| == EhdrSize(cls)
  {
    EhdrWidthsSum(cls);
    h.ident + EncodeRecord(EhdrValues(h), EhdrWidths(cls), order)
  }

  function DecodeEhdr(s: seq<byte>, cls: Class, order: ByteOrder): Ehdr
    requires |s| == EhdrSize(cls)
  {
    EhdrWidthsSum(cls);
    var v := DecodeRecord(s[16..], EhdrWidths(cls), order);
    Ehdr(s[..16], v[0], v[1], v[2], v[3], v[4], v[5], v[6], v[7], v[8], v[9], v[10], v[11], v[12])
  }

  lemma ShdrRoundTrip(h: Shdr, cls: Class, order: ByteOrder)
    requires Fits(ShdrValues(h), ShdrWidths(cls))
    ensures DecodeShdr(EncodeShdr(h, cls, order), cls, order) == h
  {
    RecordRoundTrip(ShdrValues(h), ShdrWidths(cls), order);
  }

  lemma EhdrRoundTrip(h: Ehdr, cls: Class, order: ByteOrder)
    requires |h.ident| == 16 && Fits(EhdrValues(h), EhdrWidths(cls))
    ensures DecodeEhdr(EncodeEhdr(h, cls, order), cls, order) == h
  {
    RecordRoundTrip(EhdrValues(h), EhdrWidths(cls), order);
    var body := EncodeRecord(EhdrValues(h), EhdrWidths(cls), order);
    assert (h.ident + body)[16..] == body && (h.ident + body)[..16] == h.ident;
  }

  // ---------------------------------------------------------------- where the bytes are

  /** Byte j of a field counted from its least significant end, which comes first in one order and last in the other. */
  lemma {:induction false} FieldByte(v: nat, w: nat, order: ByteOrder, j: nat)
    requires j < w
    ensures EncodeField(v, w, order)[if order.Lsb? then j else w - 1 - j] == v / Pow256(j) % 256
  {
    if j > 0 {
      FieldByte(v / 256, w - 1, order, j - 1);
      DivDiv(v, 256, Pow256(j - 1), Pow256(j));
    }
  }

  lemma SumTake(ws: seq<nat>, i: nat)
    requires 0 < i <= |ws|
    ensures SumOf(ws[..i]) == ws[0] + SumOf(ws[1..][..i - 1])
  {
    assert ws[..i][0] == ws[0] && ws[..i][1..] == ws[1..][..i - 1];
  }

  lemma {:induction false} RecordField(vs: seq<nat>, ws: seq<nat>, order: ByteOrder, i: nat)
    requires |vs| == |ws| && i < |vs|
    ensures SumOf(ws[..i]) + ws[i] <= SumOf(ws)
    ensures EncodeRecord(vs, ws, order)[SumOf(ws[..i])..SumOf(ws[..i]) + ws[i]] == EncodeField(vs[i], ws[i], order)
  {
    var head, tail := EncodeField(vs[0], ws[0], order), EncodeRecord(vs[1..], ws[1..], order);
    assert EncodeRecord(vs, ws, order) == head + tail;
    if i == 0 {
      assert ws[..0] == [] && (head + tail)[..ws[0]] == head;
    } else {
      RecordField(vs[1..], ws[1..], order, i - 1);
      SumTake(ws, i);
      LaterField(head, tail, SumOf(ws[1..][..i - 1]), ws[i], SumOf(ws[..i]), EncodeField(vs[i], ws[i], order));
    }
  }

  lemma LaterField(head: seq<byte>, tail: seq<byte>, a: nat, w: nat, at: nat, f: seq<byte>)
    requires a + w <= |tail| && tail[a..a + w] == f && at == |head| + a
    ensures at + w <= |head + tail| && (head + tail)[at..at + w] == f
  {
  }

  lemma SumNext(ws: seq<nat>, i: nat)
    requires i < |ws|
    ensures SumOf(ws[..i + 1]) == SumOf(ws[..i]) + ws[i]
  {
    SumSnoc(ws[..i], ws[i]);
    assert ws[..i + 1] == ws[..i] + [ws[i]];
  }

  lemma {:induction false} SumSnoc(ws: seq<nat>, w: nat)
    ensures SumOf(ws + [w]) == SumOf(ws) + w
  {
    if ws == [] {
      assert ws + [w] == [w] && [w][1..] == [];
    } else {
      SumSnoc(ws[1..], w);
      assert (ws + [w])[1..] == ws[1..] + [w];
    }
  }

  /** The field of `w` bytes at `at` of a header holds `v`. */
  ghost predicate HasField(s: seq<byte>, at: nat, w: nat, v: nat, order: ByteOrder)
  {
    at + w <= |s| && s[at..at + w] == EncodeField(v, w, order)
  }

  lemma RecordHas(vs: seq<nat>, ws: seq<nat>, order: ByteOrder, i: nat)
    requires |vs| == |ws| && i < |vs|
    ensures HasField(EncodeRecord(vs, ws, order), SumOf(ws[..i]), ws[i], vs[i], order)
  {
    RecordField(vs, ws, order, i);
  }

  lemma Shifted(a: seq<byte>, b: seq<byte>, at: nat, w: nat, v: nat, order: ByteOrder)
    requires HasField(b, at, w, v, order)
    ensures HasField(a + b, |a| + at, w, v, order)
  {
    assert (a + b)[|a| + at..|a| + at + w] == b[at..at + w];
  }

  /** The offsets of the fields of a section header, with class-sized fields of four and eight bytes. */
  function ShdrAt(cls: Class): (at: seq<nat>)
    ensures |at| == 10
  {
    var w := OffWidth(cls);
    [0, 4, 8, 8 + w, 8 + 2 * w, 8 + 3 * w, 8 + 4 * w, 12 + 4 * w, 16 + 4 * w, 16 + 5 * w]
  }

  /** The offsets `at` of fields of widths `ws` laid one after the other. */
  ghost predicate Successive(ws: seq<nat>, at: seq<nat>)
  {
    |at| == |ws| > 0 && at[0] == 0 && forall k :: 0 <= k < |ws| - 1 ==> at[k + 1] == at[k] + ws[k]
  }

  lemma {:induction false} OffsetsAdd(ws: seq<nat>, at: seq<nat>, i: nat)
    requires Successive(ws, at) && i < |ws|
    ensures SumOf(ws[..i]) == at[i]
  {
    if i == 0 {
      assert ws[..0] == [];
    } else {
      OffsetsAdd(ws, at, i - 1);
      SumNext(ws, i - 1);
    }
  }

  /** Field `i` is `w` bytes for `v`, `a` bytes into the record. */
  ghost predicate EntryIs(vs: seq<nat>, ws: seq<nat>, at: seq<nat>, i: nat, a: nat, w: nat, v: nat)
  {
    i < |vs| == |ws| == |at| && at[i] == a && ws[i] == w && vs[i] == v
  }

  lemma EntryHas(pre: seq<byte>, vs: seq<nat>, ws: seq<nat>, at: seq<nat>, order: ByteOrder, i: nat, a: nat, w: nat,
                 v: nat)
    requires Successive(ws, at) && EntryIs(vs, ws, at, i, a, w, v)
    ensures HasField(pre + EncodeRecord(vs, ws, order), |pre| + a, w, v, order)
  {
    OffsetsAdd(ws, at, i);
    RecordHas(vs, ws, order, i);
    Shifted(pre, EncodeRecord(vs, ws, order), a, w, v, order);
  }

  lemma ShdrSuccessive(cls: Class)
    ensures Successive(ShdrWidths(cls), ShdrAt(cls))
  {
  }

  lemma ShdrField(h: Shdr, cls: Class, order: ByteOrder, i: nat, a: nat, w: nat, v: nat)
    requires EntryIs(ShdrValues(h), ShdrWidths(cls), ShdrAt(cls), i, a, w, v)
    ensures HasField(EncodeShdr(h, cls, order), a, w, v, order)
  {
    ShdrSuccessive(cls);
    EntryHas([], ShdrValues(h), ShdrWidths(cls), ShdrAt(cls), order, i, a, w, v);
    assert [] + EncodeShdr(h, cls, order) == EncodeShdr(h, cls, order);
  }

  lemma ShdrFirst(h: Shdr, cls: Class)
    ensures var w, vs, ws, at := OffWidth(cls), ShdrValues(h), ShdrWidths(cls), ShdrAt(cls);
            && EntryIs(vs, ws, at, 0, 0, 4, h.name) && EntryIs(vs, ws, at, 1, 4, 4, h.shType)
            && EntryIs(vs, ws, at, 2, 8, w, h.flags) && EntryIs(vs, ws, at, 3, 8 + w, w, h.addr)
            && EntryIs(vs, ws, at, 4, 8 + 2 * w, w, h.offset)
  {
  }

  lemma ShdrStart(h: Shdr, cls: Class, order: ByteOrder)
    ensures var s, w := EncodeShdr(h, cls, order), OffWidth(cls);
            && HasField(s, 0, 4, h.name, order) && HasField(s, 4, 4, h.shType, order)
            && HasField(s, 8, w, h.flags, order) && HasField(s, 8 + w, w, h.addr, order)
            && HasField(s, 8 + 2 * w, w, h.offset, order)
  {
    ShdrFirst(h, cls);
    var w := OffWidth(cls);
    ShdrField(h, cls, order, 0, 0, 4, h.name);
    ShdrField(h, cls, order, 1, 4, 4, h.shType);
    ShdrField(h, cls, order, 2, 8, w, h.flags);
    ShdrField(h, cls, order, 3, 8 + w, w, h.addr);
    ShdrField(h, cls, order, 4, 8 + 2 * w, w, h.offset);
  }

  lemma ShdrLast(h: Shdr, cls: Class)
    ensures var w, vs, ws, at := OffWidth(cls), ShdrValues(h), ShdrWidths(cls), ShdrAt(cls);
            && EntryIs(vs, ws, at, 5, 8 + 3 * w, w, h.size) && EntryIs(vs, ws, at, 6, 8 + 4 * w, 4, h.link)
            && EntryIs(vs, ws, at, 7, 12 + 4 * w, 4, h.info) && EntryIs(vs, ws, at, 8, 16 + 4 * w, w, h.addralign)
            && EntryIs(vs, ws, at, 9, 16 + 5 * w, w, h.entsize)
  {
  }

  lemma ShdrEnd(h: Shdr, cls: Class, order: ByteOrder)
    ensures var s, w := EncodeShdr(h, cls, order), OffWidth(cls);
            && HasField(s, 8 + 3 * w, w, h.size, order) && HasField(s, 8 + 4 * w, 4, h.link, order)
            && HasField(s, 12 + 4 * w, 4, h.info, order) && HasField(s, 16 + 4 * w, w, h.addralign, order)
            && HasField(s, 16 + 5 * w, w, h.entsize, order)
  {
    ShdrLast(h, cls);
    var w := OffWidth(cls);
    ShdrField(h, cls, order, 5, 8 + 3 * w, w, h.size);
    ShdrField(h, cls, order, 6, 8 + 4 * w, 4, h.link);
    ShdrField(h, cls, order, 7, 12 + 4 * w, 4, h.info);
    ShdrField(h, cls, order, 8, 16 + 4 * w, w, h.addralign);
    ShdrField(h, cls, order, 9, 16 + 5 * w, w, h.entsize);
  }

  /** The fields of a section header are at the offsets of Elf32_Shdr and Elf64_Shdr. */
  lemma ShdrBytes(h: Shdr, cls: Class, order: ByteOrder)
    ensures var s, w := EncodeShdr(h, cls, order), OffWidth(cls);
            && HasField(s, 0, 4, h.name, order) && HasField(s, 4, 4, h.shType, order)
            && HasField(s, 8, w, h.flags, order) && HasField(s, 8 + w, w, h.addr, order)
            && HasField(s, 8 + 2 * w, w, h.offset, order) && HasField(s, 8 + 3 * w, w, h.size, order)
            && HasField(s, 8 + 4 * w, 4, h.link, order) && HasField(s, 12 + 4 * w, 4, h.info, order)
            && HasField(s, 16 + 4 * w, w, h.addralign, order) && HasField(s, 16 + 5 * w, w, h.entsize, order)
            && |s| == 16 + 6 * w && w == if cls.Class32? then 4 else 8
  {
    ShdrStart(h, cls, order);
    ShdrEnd(h, cls, order);
  }

  /** The offsets of the fields of an executable header after e_ident. */
  function EhdrAt(cls: Class): (at: seq<nat>)
    ensures |at| == 13
  {
    var w := OffWidth(cls);
    [0, 2, 4, 8, 8 + w, 8 + 2 * w, 8 + 3 * w, 12 + 3 * w, 14 + 3 * w, 16 + 3 * w, 18 + 3 * w, 20 + 3 * w, 22 + 3 * w]
  }

  lemma EhdrSuccessive(cls: Class)
    ensures Successive(EhdrWidths(cls), EhdrAt(cls))
  {
  }

  lemma EhdrField(h: Ehdr, cls: Class, order: ByteOrder, i: nat, a: nat, w: nat, v: nat)
    requires |h.ident| == 16 && EntryIs(EhdrValues(h), EhdrWidths(cls), EhdrAt(cls), i, a, w, v)
    ensures HasField(EncodeEhdr(h, cls, order), 16 + a, w, v, order)
  {
    EhdrSuccessive(cls);
    EntryHas(h.ident, EhdrValues(h), EhdrWidths(cls), EhdrAt(cls), order, i, a, w, v);
  }

  lemma IdentBytes(h: Ehdr, cls: Class, order: ByteOrder)
    requires |h.ident| == 16
    ensures EncodeEhdr(h, cls, order)[..16] == h.ident
  {
    EhdrWidthsSum(cls);
    assert (h.ident + EncodeRecord(EhdrValues(h), EhdrWidths(cls), order))[..16] == h.ident;
  }

  lemma EhdrFirst(h: Ehdr, cls: Class)
    ensures var w, vs, ws, at := OffWidth(cls), EhdrValues(h), EhdrWidths(cls), EhdrAt(cls);
            && EntryIs(vs, ws, at, 0, 0, 2, h.etype) && EntryIs(vs, ws, at, 1, 2, 2, h.machine)
            && EntryIs(vs, ws, at, 2, 4, 4, h.version) && EntryIs(vs, ws, at, 3, 8, w, h.entry)
  {
  }

  lemma EhdrStart(h: Ehdr, cls: Class, order: ByteOrder)
    requires |h.ident| == 16
    ensures var s, w := EncodeEhdr(h, cls, order), OffWidth(cls);
            && HasField(s, 16, 2, h.etype, order) && HasField(s, 18, 2, h.machine, order)
            && HasField(s, 20, 4, h.version, order) && HasField(s, 24, w, h.entry, order)
  {
    EhdrFirst(h, cls);
    EhdrField(h, cls, order, 0, 0, 2, h.etype);
    EhdrField(h, cls, order, 1, 2, 2, h.machine);
    EhdrField(h, cls, order, 2, 4, 4, h.version);
    EhdrField(h, cls, order, 3, 8, OffWidth(cls), h.entry);
  }

  lemma EhdrNext(h: Ehdr, cls: Class)
    ensures var w, vs, ws, at := OffWidth(cls), EhdrValues(h), EhdrWidths(cls), EhdrAt(cls);
            && EntryIs(vs, ws, at, 4, 8 + w, w, h.phoff) && EntryIs(vs, ws, at, 5, 8 + 2 * w, w, h.shoff)
            && EntryIs(vs, ws, at, 6, 8 + 3 * w, 4, h.flags) && EntryIs(vs, ws, at, 7, 12 + 3 * w, 2, h.ehsize)
  {
  }

  lemma EhdrMiddle(h: Ehdr, cls: Class, order: ByteOrder)
    requires |h.ident| == 16
    ensures var s, w := EncodeEhdr(h, cls, order), OffWidth(cls);
            && HasField(s, 24 + w, w, h.phoff, order) && HasField(s, 24 + 2 * w, w, h.shoff, order)
            && HasField(s, 24 + 3 * w, 4, h.flags, order) && HasField(s, 28 + 3 * w, 2, h.ehsize, order)
  {
    EhdrNext(h, cls);
    var w := OffWidth(cls);
    EhdrField(h, cls, order, 4, 8 + w, w, h.phoff);
    EhdrField(h, cls, order, 5, 8 + 2 * w, w, h.shoff);
    EhdrField(h, cls, order, 6, 8 + 3 * w, 4, h.flags);
    EhdrField(h, cls, order, 7, 12 + 3 * w, 2, h.ehsize);
  }

  lemma EhdrLast(h: Ehdr, cls: Class)
    ensures var w, vs, ws, at := OffWidth(cls), EhdrValues(h), EhdrWidths(cls), EhdrAt(cls);
            && EntryIs(vs, ws, at, 8, 14 + 3 * w, 2, h.phentsize) && EntryIs(vs, ws, at, 9, 16 + 3 * w, 2, h.phnum)
            && EntryIs(vs, ws, at, 10, 18 + 3 * w, 2, h.shentsize) && EntryIs(vs, ws, at, 11, 20 + 3 * w, 2, h.shnum)
            && EntryIs(vs, ws, at, 12, 22 + 3 * w, 2, h.shstrndx)
  {
  }

  lemma EhdrEnd(h: Ehdr, cls: Class, order: ByteOrder)
    requires |h.ident| == 16
    ensures var s, w := EncodeEhdr(h, cls, order), OffWidth(cls);
            && HasField(s, 30 + 3 * w, 2, h.phentsize, order) && HasField(s, 32 + 3 * w, 2, h.phnum, order)
            && HasField(s, 34 + 3 * w, 2, h.shentsize, order) && HasField(s, 36 + 3 * w, 2, h.shnum, order)
            && HasField(s, 38 + 3 * w, 2, h.shstrndx, order)
  {
    EhdrLast(h, cls);
    var w := OffWidth(cls);
    EhdrField(h, cls, order, 8, 14 + 3 * w, 2, h.phentsize);
    EhdrField(h, cls, order, 9, 16 + 3 * w, 2, h.phnum);
    EhdrField(h, cls, order, 10, 18 + 3 * w, 2, h.shentsize);
    EhdrField(h, cls, order, 11, 20 + 3 * w, 2, h.shnum);
    EhdrField(h, cls, order, 12, 22 + 3 * w, 2, h.shstrndx);
  }

  /** The fields of an executable header are at the offsets of Elf32_Ehdr and Elf64_Ehdr. */
  lemma EhdrBytes(h: Ehdr, cls: Class, order: ByteOrder)
    requires |h.ident| == 16
    ensures var s, w := EncodeEhdr(h, cls, order), OffWidth(cls);
            && s[..16] == h.ident && HasField(s, 16, 2, h.etype, order) && HasField(s, 18, 2, h.machine, order)
            && HasField(s, 20, 4, h.version, order) && HasField(s, 24, w, h.entry, order)
            && HasField(s, 24 + w, w, h.phoff, order) && HasField(s, 24 + 2 * w, w, h.shoff, order)
            && HasField(s, 24 + 3 * w, 4, h.flags, order) && HasField(s, 28 + 3 * w, 2, h.ehsize, order)
            && HasField(s, 30 + 3 * w, 2, h.phentsize, order) && HasField(s, 32 + 3 * w, 2, h.phnum, order)
            && HasField(s, 34 + 3 * w, 2, h.shentsize, order) && HasField(s, 36 + 3 * w, 2, h.shnum, order)
            && HasField(s, 38 + 3 * w, 2, h.shstrndx, order)
            && |s| == 40 + 3 * w && w == if cls.Class32? then 4 else 8
  {
    IdentBytes(h, cls, order);
    EhdrStart(h, cls, order);
    EhdrMiddle(h, cls, order);
    EhdrEnd(h, cls, order);
  }
}
