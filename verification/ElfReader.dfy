/** Reading a written object back: the section headers that _libelf_load_scn finds in the image,
    and the section contents that they lead to. */
module ElfReader {
  import opened Bytes
  import opened Options
  import opened ElfFormat
  import opened ElfLayout
  import opened ElfImage

  /** What elf_memory finds in e_ident of an ELF object. */
  datatype Ident = Ident(cls: Class, order: ByteOrder, version: nat)

  /** elf_memory, for ELF objects: nothing if the image is not accepted as one. The byte order must be named:
      unlike _libelf_xlate, it does not take ELFDATANONE for that of the host. */
  function Identify(img: seq<byte>): Option<Ident>
  {
    if |img| <= 16 || img[..4] != [0x7f, 0x45, 0x4c, 0x46] then None
    else if img[6] > EV_CURRENT || img[5] !in {1, 2} || img[4] !in {1, 2} then None
    else Some(Ident(if img[4] == 1 then Class32 else Class64, if img[5] == 1 then Lsb else Msb, img[6]))
  }

  /** What _libelf_ehdr leaves in a descriptor: the executable header, the numbers of sections and segments and the
      index of the string table, and section header 0 if it was read for them. */
  datatype Header = Header(ehdr: Ehdr, nscn: nat, nphdr: nat, strndx: nat, first: Option<Shdr>)

  /** _libelf_ehdr on an object opened for reading. */
  function ReadEhdr(img: seq<byte>, id: Ident): Option<Header>
  {
    if id.version != EV_CURRENT || |img| < EhdrSize(id.cls) then None else
    var h := DecodeEhdr(img[..EhdrSize(id.cls)], id.cls, id.order);
    if h.shnum >= SHN_LORESERVE then None
    else if h.shoff == 0 && (h.shnum != 0 || h.phnum == PN_XNUM || h.shstrndx == SHN_XINDEX) then None
    else if h.shnum != 0 || h.shoff == 0 then Some(Plain(h))
    else ReadExtended(img, id, h)
  }

  /** Without extended numbering all numbers are those of the executable header, whatever they are. */
  function Plain(h: Ehdr): Header { Header(h, h.shnum, h.phnum, h.shstrndx, None) }

  /** _libelf_load_extended. */
  function ReadExtended(img: seq<byte>, id: Ident, h: Ehdr): Option<Header>
  {
    if |img| < h.shoff + ShdrSize(id.cls) then None else
    var first := EntryAt(img, h.shoff, id.cls, id.order, 0);
    if first.shType != SHT_NULL then None else
    var nphdr := if h.phnum != PN_XNUM then h.phnum else first.info;
    var strndx := if h.shstrndx != SHN_XINDEX then h.shstrndx else first.link;
    Some(Header(h, first.size, nphdr, strndx, Some(first)))
  }

  /** The section header table lies in the image and has entries of the right size. */
  predicate TableInside(img: seq<byte>, h: Header, cls: Class)
  {
    h.ehdr.shentsize == ShdrSize(cls) && h.ehdr.shoff + ShdrTableSize(cls, h.nscn) <= |img|
  }

  /** `shdrs` are the section headers from the table. With extended numbering there is always one. */
  ghost predicate TableRead(img: seq<byte>, h: Header, cls: Class, order: ByteOrder, shdrs: seq<Shdr>)
    requires TableInside(img, h, cls)
  {
    && |shdrs| == (if h.first.Some? && h.nscn == 0 then 1 else h.nscn)
    && (h.first.Some? ==> shdrs[0] == h.first.value)
    && forall i :: 0 <= i < h.nscn && (h.first.Some? ==> 0 < i) ==>
         shdrs[i] == EntryAt(img, h.ehdr.shoff, cls, order, i)
  }

  /** _libelf_load_scn. */
  method LoadScn(img: seq<byte>, h: Header, cls: Class, order: ByteOrder) returns (r: Option<seq<Shdr>>)
    ensures r.Some? <==> TableInside(img, h, cls)
    ensures r.Some? ==> TableRead(img, h, cls, order, r.value)
  {
    if h.ehdr.shentsize != ShdrSize(cls) || h.ehdr.shoff + ShdrTableSize(cls, h.nscn) > |img| {
      return None;
    }
    var shdrs := if h.first.Some? then [h.first.value] else [];
    var i, src := |shdrs|, h.ehdr.shoff + ShdrTableSize(cls, |shdrs|);
    while i < h.nscn
      invariant |shdrs| == i && src == h.ehdr.shoff + ShdrTableSize(cls, i)
      invariant i <= h.nscn || (h.first.Some? && h.nscn == 0 && i == 1)
      invariant h.first.Some? ==> 0 < i && shdrs[0] == h.first.value
      invariant forall k :: 0 <= k < i <= h.nscn && (h.first.Some? ==> 0 < k) ==>
        shdrs[k] == EntryAt(img, h.ehdr.shoff, cls, order, k)
    {
      shdrs := shdrs + [DecodeShdr(img[src..src + ShdrSize(cls)], cls, order)];
      i, src := i + 1, src + ShdrSize(cls);
    }
    r := Some(shdrs);
  }

  /** An object that has been read. */
  datatype File = File(id: Ident, header: Header, shdrs: seq<Shdr>)

  /** The tests that an image has to pass for its section headers to be loaded. */
  predicate Loadable(img: seq<byte>)
  {
    && Identify(img).Some?
    && ReadEhdr(img, Identify(img).value).Some?
    && TableInside(img, ReadEhdr(img, Identify(img).value).value, Identify(img).value.cls)
  }

  /** e_ident names a class, a byte order and at most the current version. */
  ghost predicate Named(img: seq<byte>, id: Ident)
  {
    && |img| > 16 && img[0] == 0x7f && img[1] == 0x45 && img[2] == 0x4c && img[3] == 0x46
    && img[4] == (if id.cls.Class32? then 1 else 2) && img[5] == (if id.order.Lsb? then 1 else 2)
    && img[6] == id.version <= 1
  }

  lemma IdentifyIff(img: seq<byte>, id: Ident)
    ensures Identify(img) == Some(id) <==> Named(img, id)
  {
    if |img| > 16 {
      assert img[..4] == [img[0], img[1], img[2], img[3]];
    }
  }

  /** What is asked of the executable header: the count of sections is not a reserved number, and what is to be found
      in section header 0 can be found there. */
  ghost predicate HeaderFits(img: seq<byte>, h: Ehdr, cls: Class, order: ByteOrder)
  {
    && h.shnum < 0xff00
    && (h.shoff == 0 ==> h.shnum == 0 && h.phnum != 0xffff && h.shstrndx != 0xffff)
    && (h.shoff != 0 && h.shnum == 0 ==>
          |img| >= h.shoff + ShdrSize(cls) && EntryAt(img, h.shoff, cls, order, 0).shType == 0)
  }

  /** The number of sections: that of the header, or in section header 0 if there is a table but no number. */
  ghost function Sections(img: seq<byte>, h: Ehdr, cls: Class, order: ByteOrder): nat
    requires HeaderFits(img, h, cls, order)
  {
    if h.shoff != 0 && h.shnum == 0 then EntryAt(img, h.shoff, cls, order, 0).size else h.shnum
  }

  /** The image as a whole: it has a current executable header that fits, and room for all the section headers. */
  ghost predicate Wellformed(img: seq<byte>, id: Ident)
  {
    && Named(img, id) && id.version == 1 && |img| >= (if id.cls.Class32? then 52 else 64)
    && var h := DecodeEhdr(img[..EhdrSize(id.cls)], id.cls, id.order);
    var size := if id.cls.Class32? then 40 else 64;
    && HeaderFits(img, h, id.cls, id.order) && h.shentsize == size
    && h.shoff + size * Sections(img, h, id.cls, id.order) <= |img|
  }

  /** An image can be loaded exactly when it is wellformed for some class and byte order. */
  lemma LoadableIs(img: seq<byte>)
    ensures Loadable(img) <==> exists id :: Wellformed(img, id)
  {
    forall id
      ensures Identify(img) == Some(id) <==> Named(img, id)
    {
      IdentifyIff(img, id);
    }
    if Identify(img).Some? {
      var id := Identify(img).value;
      assert Loadable(img) <==> Wellformed(img, id);
    }
  }

  /** elf_memory, _libelf_ehdr and _libelf_load_scn one after the other. */
  method LoadFile(img: seq<byte>) returns (r: Option<File>)
    ensures r.Some? <==> Loadable(img)
    ensures r.Some? <==> exists id :: Wellformed(img, id)
    ensures r.Some? ==>
      && Identify(img) == Some(r.value.id) && ReadEhdr(img, r.value.id) == Some(r.value.header)
      && TableRead(img, r.value.header, r.value.id.cls, r.value.id.order, r.value.shdrs)
  {
    LoadableIs(img);
    var id := Identify(img);
    if id.None? {
      return None;
    }
    var h := ReadEhdr(img, id.value);
    if h.None? {
      return None;
    }
    var shdrs := LoadScn(img, h.value, id.value.cls, id.value.order);
    if shdrs.None? {
      return None;
    }
    r := Some(File(id.value, h.value, shdrs.value));
  }

  /** The `i`-th entry of a section header table. */
  function EntryAt(img: seq<byte>, shoff: nat, cls: Class, order: ByteOrder, i: nat): Shdr
    requires shoff + ShdrTableSize(cls, i + 1) <= |img|
  {
    var at := shoff + ShdrTableSize(cls, i);
    DecodeShdr(img[at..at + ShdrSize(cls)], cls, order)
  }

  /** The numbers of sections and segments and the index of the string table as the ELF standard stores them: those
      that are too large for the executable header are in the size, the info and the link of section header 0. */
  ghost predicate Numbers(h: Ehdr, first: Shdr, sections: nat, segments: nat, strings: nat)
  {
    && (if sections >= SHN_LORESERVE then h.shnum == 0 && first.size == sections else h.shnum == sections)
    && (if segments >= PN_XNUM then h.phnum == PN_XNUM && first.info == segments else h.phnum == segments)
    && (if strings >= SHN_LORESERVE then h.shstrndx == SHN_XINDEX && first.link == strings else h.shstrndx == strings)
  }

  /** The reader looks at section header 0 only for the number of sections. So it gets that number right, and the
      other two exactly when the number of sections is extended as well or they do not need to be. */
  lemma NumbersReadIff(img: seq<byte>, id: Ident, sections: nat, segments: nat, strings: nat)
    requires id.version == EV_CURRENT && |img| >= EhdrSize(id.cls) && sections > 0
    requires var h := DecodeEhdr(img[..EhdrSize(id.cls)], id.cls, id.order);
             && 0 < h.shoff && h.shoff + ShdrSize(id.cls) <= |img|
             && var first := EntryAt(img, h.shoff, id.cls, id.order, 0);
             first.shType == SHT_NULL && Numbers(h, first, sections, segments, strings)
    ensures var r := ReadEhdr(img, id);
            && r.Some? && r.value.ehdr == DecodeEhdr(img[..EhdrSize(id.cls)], id.cls, id.order)
            && r.value.nscn == sections
            && (r.value.nphdr == segments && r.value.strndx == strings <==>
                  sections >= SHN_LORESERVE
                  || (segments <= PN_XNUM && (strings < SHN_LORESERVE || strings == SHN_XINDEX)))
  {
  }

  lemma {:induction false} TableAt(scns: seq<Section>, shoff: nat, cls: Class, order: ByteOrder, k: nat, i: nat)
    requires i < k <= |scns|
    ensures TableTo(scns, shoff, cls, order, k)[i] == TableRegion(scns, shoff, cls, order, i)
  {
    var rest, last := TableTo(scns, shoff, cls, order, k - 1), TableRegion(scns, shoff, cls, order, k - 1);
    SnocAt(rest, last, i);
    assert TableTo(scns, shoff, cls, order, k) == rest + [last];
    if i < k - 1 {
      TableAt(scns, shoff, cls, order, k - 1, i);
    }
  }

  lemma SnocAt<T>(s: seq<T>, x: T, i: nat)
    requires i <= |s|
    ensures (s + [x])[i] == if i < |s| then s[i] else x
  {
  }

  lemma {:induction false} DataRegionsAt(s: Section, k: nat, i: nat)
    requires i < k <= |s.data| && Translated(s.data, k)
    ensures DataRegionsTo(s, k)[i] == DataRegion(s, i)
  {
    if i < k - 1 {
      DataRegionsAt(s, k - 1, i);
    }
  }

  lemma {:induction false} ScnRegionsHave(scns: seq<Section>, j: nat, i: nat)
    requires AllWritable(scns) && j < |scns| && Occupies(scns[j]) && i < |scns[j].data|
    ensures DataRegion(scns[j], i) in ScnRegions(scns)
  {
    var n := |scns| - 1;
    if j < n {
      ScnRegionsHave(scns[..n], j, i);
    } else {
      DataRegionsAt(scns[n], |scns[n].data|, i);
      assert DataRegionsTo(scns[n], |scns[n].data|)[i] in SectionRegions(scns[n]);
    }
  }

  /** The executable header is read back as it was written. */
  lemma EhdrReadsBack(img: seq<byte>, h: Ehdr, cls: Class, order: ByteOrder, phnum: nat, phdrs: seq<byte>,
                      scns: seq<Section>, fill: byte)
    requires |h.ident| == 16 && AllWritable(scns) && Fits(EhdrValues(h), EhdrWidths(cls))
    requires Painted(img, ObjectRegions(h, cls, order, phnum, phdrs, scns), fill)
    ensures EhdrSize(cls) <= |img| && DecodeEhdr(img[..EhdrSize(cls)], cls, order) == h
  {
    var bytes := EncodeEhdr(h, cls, order);
    assert Has(img, Region(0, bytes)) by {
      assert ObjectRegions(h, cls, order, phnum, phdrs, scns)[0] == Region(0, bytes);
    }
    HeaderDecoded(img, h, cls, order, bytes);
  }

  lemma HeaderDecoded(img: seq<byte>, h: Ehdr, cls: Class, order: ByteOrder, bytes: seq<byte>)
    requires |h.ident| == 16 && Fits(EhdrValues(h), EhdrWidths(cls))
    requires bytes == EncodeEhdr(h, cls, order) && Has(img, Region(0, bytes))
    ensures EhdrSize(cls) <= |img| && DecodeEhdr(img[..EhdrSize(cls)], cls, order) == h
  {
    EhdrRoundTrip(h, cls, order);
    assert img[..EhdrSize(cls)] == img[0..0 + |bytes|];
  }

  lemma PaintedRegion(img: seq<byte>, rs: seq<Region>, fill: byte, r: Region)
    requires Painted(img, rs, fill) && r in rs
    ensures Has(img, r)
  {
    var k :| 0 <= k < |rs| && rs[k] == r;
  }

  lemma TableRegionIn(h: Ehdr, cls: Class, order: ByteOrder, phnum: nat, phdrs: seq<byte>, scns: seq<Section>, i: nat)
    requires |h.ident| == 16 && AllWritable(scns) && h.shnum != 0 && i < |scns|
    ensures TableRegion(scns, h.shoff, cls, order, i) in ObjectRegions(h, cls, order, phnum, phdrs, scns)
  {
    var table := TableTo(scns, h.shoff, cls, order, |scns|);
    TableAt(scns, h.shoff, cls, order, |scns|, i);
    assert table[i] in table;
  }

  lemma DataRegionIn(h: Ehdr, cls: Class, order: ByteOrder, phnum: nat, phdrs: seq<byte>, scns: seq<Section>,
                     j: nat, i: nat)
    requires |h.ident| == 16 && AllWritable(scns) && j < |scns| && Occupies(scns[j]) && i < |scns[j].data|
    ensures DataRegion(scns[j], i) in ObjectRegions(h, cls, order, phnum, phdrs, scns)
  {
    ScnRegionsHave(scns, j, i);
  }

  lemma EntryDecoded(bytes: seq<byte>, h: Shdr, cls: Class, order: ByteOrder)
    requires Fits(ShdrValues(h), ShdrWidths(cls)) && bytes == EncodeShdr(h, cls, order)
    ensures |bytes| == ShdrSize(cls) && DecodeShdr(bytes, cls, order) == h
  {
    ShdrRoundTrip(h, cls, order);
  }

  lemma EntryOfRegion(img: seq<byte>, scns: seq<Section>, shoff: nat, cls: Class, order: ByteOrder, i: nat)
    requires i < |scns| && Fits(ShdrValues(scns[i].shdr), ShdrWidths(cls))
    requires Has(img, TableRegion(scns, shoff, cls, order, i))
    ensures shoff + ShdrTableSize(cls, i + 1) <= |img|
    ensures EntryAt(img, shoff, cls, order, i) == scns[i].shdr
  {
    var r := TableRegion(scns, shoff, cls, order, i);
    EntryDecoded(r.bytes, scns[i].shdr, cls, order);
    TableSizeNext(cls, i);
    assert img[r.at..r.at + ShdrSize(cls)] == r.bytes;
  }

  /** Every section header is read back from the table as it was written. */
  lemma ShdrReadsBack(img: seq<byte>, h: Ehdr, cls: Class, order: ByteOrder, phnum: nat, phdrs: seq<byte>,
                      scns: seq<Section>, fill: byte, i: nat)
    requires |h.ident| == 16 && AllWritable(scns) && h.shnum != 0
    requires i < |scns| && Fits(ShdrValues(scns[i].shdr), ShdrWidths(cls))
    requires Painted(img, ObjectRegions(h, cls, order, phnum, phdrs, scns), fill)
    ensures h.shoff + ShdrTableSize(cls, i + 1) <= |img|
    ensures EntryAt(img, h.shoff, cls, order, i) == scns[i].shdr
  {
    assert Has(img, TableRegion(scns, h.shoff, cls, order, i)) by {
      TableRegionIn(h, cls, order, phnum, phdrs, scns, i);
      PaintedRegion(img, ObjectRegions(h, cls, order, phnum, phdrs, scns), fill,
                    TableRegion(scns, h.shoff, cls, order, i));
    }
    EntryOfRegion(img, scns, h.shoff, cls, order, i);
  }

  /** The bytes of every descriptor are in the image at its place in its section. */
  lemma ContentsReadBack(img: seq<byte>, h: Ehdr, cls: Class, order: ByteOrder, phnum: nat, phdrs: seq<byte>,
                         scns: seq<Section>, fill: byte, j: nat, i: nat)
    requires |h.ident| == 16 && AllWritable(scns)
    requires j < |scns| && Occupies(scns[j]) && i < |scns[j].data|
    requires Painted(img, ObjectRegions(h, cls, order, phnum, phdrs, scns), fill)
    ensures scns[j].data[i].file.Some? && Has(img, DataRegion(scns[j], i))
  {
    assert Writable(scns[j]);
    DataRegionIn(h, cls, order, phnum, phdrs, scns, j, i);
    PaintedRegion(img, ObjectRegions(h, cls, order, phnum, phdrs, scns), fill, DataRegion(scns[j], i));
  }
}
