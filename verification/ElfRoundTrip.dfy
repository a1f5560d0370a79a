/** Writing an object with elf_update and loading the file again. */
module ElfRoundTrip {
  import opened Bytes
  import opened Options
  import opened Arith
  import opened ElfFormat
  import opened ElfLayout
  import opened ElfLayoutTheorems
  import opened ElfImage
  import opened ElfWriter
  import opened ElfHeaders
  import ElfReader

  lemma LaidShdrFits(h: Shdr, cls: Class, t: ElfType, align: nat, offset: nat, size: nat)
    requires Fits(ShdrValues(h), ShdrWidths(cls))
    ensures Fits(ShdrValues(LaidShdr(h, cls, t, align, offset, size)), ShdrWidths(cls))
  {
    Pow256Values();
    FitsShdr(h, cls);
    FitsShdr(LaidShdr(h, cls, t, align, offset, size), cls);
  }

  lemma {:induction false} LaidSectionsFit(cls: Class, version: nat, scns: seq<Section>, start: nat, i: nat)
    requires AllAccepted(cls, version, scns) && i < |scns| && Fits(ShdrValues(scns[i].shdr), ShdrWidths(cls))
    ensures Fits(ShdrValues(LayOutSections(cls, version, scns, start).0[i].shdr), ShdrWidths(cls))
  {
    LayOutAt(cls, version, scns, start, i);
    if Occupies(scns[i]) {
      var s, rc := scns[i], LayOutSections(cls, version, scns[..i], start).1;
      var t := XlateShtype(s.shdr.shType).value;
      var asked := AskedAlign(cls, t, s.shdr.addralign);
      AcceptedAlign(s.data, t, version, asked);
      var align := Max(MaxAlign(s.data), asked);
      LaidShdrFits(s.shdr, cls, t, align, RoundUp(rc, align), PlacedEnd(s.data, MaxAlign(s.data)));
    }
  }

  lemma NumberedEhdrFits(h: Ehdr, cls: Class, version: nat, phnum: nat, phoff: nat, nscn: nat, shoff: nat)
    requires |h.ident| == 16 && Fits(EhdrValues(h), EhdrWidths(cls))
    ensures Fits(EhdrValues(NumberEhdr(InitEhdr(h, cls, version), cls, phnum, phoff, nscn, shoff)), EhdrWidths(cls))
  {
    Pow256Values();
    FitsEhdr(h, cls);
    FitsEhdr(NumberEhdr(InitEhdr(h, cls, version), cls, phnum, phoff, nscn, shoff), cls);
  }

  lemma ExtendedFits(cls: Class, phnum: nat, nscn: nat, scns: seq<Section>)
    requires forall i :: 0 <= i < |scns| ==> Fits(ShdrValues(scns[i].shdr), ShdrWidths(cls))
    ensures var ext := ExtendedNumbers(cls, phnum, nscn, scns);
            forall i :: 0 <= i < |ext| ==> Fits(ShdrValues(ext[i].shdr), ShdrWidths(cls))
  {
    Pow256Values();
    var ext := ExtendedNumbers(cls, phnum, nscn, scns);
    if ext != [] {
      FitsShdr(ext[0].shdr, cls);
      if scns != [] {
        FitsShdr(scns[0].shdr, cls);
      }
    }
  }

  lemma UpdatedFits(cls: Class, version: nat, phnum: nat, nscn: nat, h: Ehdr, scns: seq<Section>)
    requires |h.ident| == 16 && AllAccepted(cls, version, scns) && HeadersFit(cls, h, scns)
    ensures var u := Updated(cls, version, phnum, nscn, h, scns); HeadersFit(cls, u.0, u.1)
  {
    var (laid, end) := LayOutSections(cls, version, scns, SectionsStart(cls, phnum));
    forall i | 0 <= i < |laid|
      ensures Fits(ShdrValues(laid[i].shdr), ShdrWidths(cls))
    {
      LaidSectionsFit(cls, version, scns, SectionsStart(cls, phnum), i);
    }
    ExtendedFits(cls, phnum, nscn, laid);
    NumberedEhdrFits(h, cls, version, phnum, PhOff(cls, phnum), nscn, ShOff(cls, nscn, end));
  }

  lemma OffsetStored(cls: Class, version: nat, s: Section, rc: nat)
    requires SectionError(cls, version, s).None? && Occupies(s)
    requires LayOutSection(cls, version, s, rc).1 < FieldLimit(cls)
    ensures LayOutSection(cls, version, s, rc).0.shdr.offset == LayOutSection(cls, version, s, rc).0.offset
  {
    StoredIff(cls, LayOutSection(cls, version, s, rc).0.offset);
  }

  lemma LaidOffset(cls: Class, version: nat, scns: seq<Section>, start: nat, j: nat)
    requires AllAccepted(cls, version, scns) && j < |scns| && Occupies(scns[j])
    requires LayOutSections(cls, version, scns, start).1 < FieldLimit(cls)
    ensures var s := LayOutSections(cls, version, scns, start).0[j];
            s.shdr.offset == s.offset
  {
    var rc := LayOutSections(cls, version, scns[..j], start).1;
    EndsAscend(cls, version, scns, start, j + 1, |scns|);
    assert scns[..|scns|] == scns;
    LayOutAt(cls, version, scns, start, j);
    OffsetStored(cls, version, scns[j], rc);
  }

  /** The section headers of file-occupying sections hold the file offsets that the writer uses. */
  ghost predicate OffsetsStored(scns: seq<Section>)
  {
    forall j :: 0 <= j < |scns| && Occupies(scns[j]) ==> scns[j].shdr.offset == scns[j].offset
  }

  lemma UpdatedOffsets(cls: Class, version: nat, phnum: nat, nscn: nat, h: Ehdr, scns: seq<Section>)
    requires |h.ident| == 16 && CanWrite(cls, version, phnum, nscn, scns) && nscn == |scns| > 0
    ensures |Updated(cls, version, phnum, nscn, h, scns).1| == |scns|
    ensures OffsetsStored(Updated(cls, version, phnum, nscn, h, scns).1)
  {
    var start := SectionsStart(cls, phnum);
    var (laid, end) := LayOutSections(cls, version, scns, start);
    HeaderTablesPlaced(cls, phnum, nscn, end);
    forall j | 0 <= j < |laid| && Occupies(laid[j])
      ensures laid[j].shdr.offset == laid[j].offset
    {
      LaidOffset(cls, version, scns, start, j);
    }
  }

  /** The section header table of the image holds the section headers of the object. */
  lemma TableReadsBack(img: seq<byte>, h: Ehdr, cls: Class, order: ByteOrder, phnum: nat, phdrs: seq<byte>,
                       scns: seq<Section>, fill: byte)
    requires |h.ident| == 16 && AllWritable(scns) && h.shnum == |scns| > 0 && HeadersFit(cls, h, scns)
    requires Painted(img, ObjectRegions(h, cls, order, phnum, phdrs, scns), fill)
    ensures h.shoff + ShdrTableSize(cls, |scns|) <= |img|
    ensures forall i :: 0 <= i < |scns| ==> ElfReader.EntryAt(img, h.shoff, cls, order, i) == scns[i].shdr
  {
    ElfReader.ShdrReadsBack(img, h, cls, order, phnum, phdrs, scns, fill, |scns| - 1);
    forall i | 0 <= i < |scns|
      ensures ElfReader.EntryAt(img, h.shoff, cls, order, i) == scns[i].shdr
    {
      ElfReader.ShdrReadsBack(img, h, cls, order, phnum, phdrs, scns, fill, i);
    }
  }

  /** Every descriptor's bytes are in the image where its section header says. */
  ghost predicate ContentsFound(img: seq<byte>, scns: seq<Section>)
  {
    forall j, i :: 0 <= j < |scns| && 0 <= i < |scns[j].data| && Occupies(scns[j]) ==>
      FoundAt(img, scns[j].shdr.offset, scns[j].data[i])
  }

  ghost predicate FoundAt(img: seq<byte>, offset: nat, d: Descriptor)
  {
    && d.file.Some? && offset + d.off + |d.file.value| <= |img|
    && img[offset + d.off..offset + d.off + |d.file.value|] == d.file.value
  }

  lemma AllContentsReadBack(img: seq<byte>, h: Ehdr, cls: Class, order: ByteOrder, phnum: nat, phdrs: seq<byte>,
                            scns: seq<Section>, fill: byte)
    requires |h.ident| == 16 && AllWritable(scns) && OffsetsStored(scns)
    requires Painted(img, ObjectRegions(h, cls, order, phnum, phdrs, scns), fill)
    ensures ContentsFound(img, scns)
  {
    forall j, i | 0 <= j < |scns| && 0 <= i < |scns[j].data| && Occupies(scns[j])
      ensures FoundAt(img, scns[j].shdr.offset, scns[j].data[i])
    {
      ElfReader.ContentsReadBack(img, h, cls, order, phnum, phdrs, scns, fill, j, i);
      RegionFound(img, scns[j], i);
    }
  }

  lemma RegionFound(img: seq<byte>, s: Section, i: nat)
    requires i < |s.data| && s.data[i].file.Some? && s.shdr.offset == s.offset
    requires Has(img, DataRegion(s, i))
    ensures FoundAt(img, s.shdr.offset, s.data[i])
  {
  }

  /** What of an object's header decides whether the file written for it can be loaded: e_ident names a byte
      order, and without sections no number has been moved to section header 0. */
  ghost predicate Readable(h: Ehdr, nscn: nat, phnum: nat)
    requires |h.ident| == 16
  {
    && h.ident[5] in {1, 2}
    && (nscn == 0 ==> phnum < PN_XNUM && h.shstrndx != SHN_XINDEX)
  }

  lemma IdentRead(img: seq<byte>, h: Ehdr, cls: Class)
    requires |h.ident| == 16 && 16 < |img| && img[..16] == InitEhdr(h, cls, EV_CURRENT).ident
    ensures ElfReader.Identify(img) ==
      if h.ident[5] in {1, 2}
      then Some(ElfReader.Ident(cls, if h.ident[5] == 1 then Lsb else Msb, EV_CURRENT)) else None
  {
    var ident := InitEhdr(h, cls, EV_CURRENT).ident;
    assert img[..4] == img[..16][..4] == ident[..4] == [0x7f, 0x45, 0x4c, 0x46];
    assert img[4] == img[..16][4] && img[5] == img[..16][5] && img[6] == img[..16][6];
  }

  lemma HeaderRead(img: seq<byte>, id: ElfReader.Ident, h: Ehdr, cls: Class, version: nat, phnum: nat, nscn: nat,
                   end: nat)
    requires |h.ident| == 16 && id.cls == cls && id.version == EV_CURRENT && EhdrSize(cls) <= |img|
    requires TableFits(cls, nscn, end) && SectionsStart(cls, phnum) <= end
    requires var u := NumberEhdr(InitEhdr(h, cls, version), cls, phnum, PhOff(cls, phnum), nscn, ShOff(cls, nscn, end));
             DecodeEhdr(img[..EhdrSize(cls)], cls, id.order) == u
    ensures var u := NumberEhdr(InitEhdr(h, cls, version), cls, phnum, PhOff(cls, phnum), nscn, ShOff(cls, nscn, end));
            && u.shnum == nscn && (nscn == 0 <==> u.shoff == 0)
            && ElfReader.ReadEhdr(img, id) ==
               if nscn == 0 && (phnum >= PN_XNUM || h.shstrndx == SHN_XINDEX) then None
               else Some(ElfReader.Plain(u))
  {
    HeaderTablesPlaced(cls, phnum, nscn, end);
    StoredIff(cls, ShOff(cls, nscn, end));
  }

  /** `u` is the executable header of the image, and the section header table is where it says. */
  ghost predicate Headed(img: seq<byte>, u: Ehdr, cls: Class, order: ByteOrder, nscn: nat)
  {
    && EhdrSize(cls) <= |img| && DecodeEhdr(img[..EhdrSize(cls)], cls, order) == u
    && u.shentsize == ShdrSize(cls) && u.shoff + ShdrTableSize(cls, nscn) <= |img|
  }

  lemma IdentDecoded(img: seq<byte>, u: Ehdr, cls: Class, order: ByteOrder)
    requires EhdrSize(cls) <= |img| && DecodeEhdr(img[..EhdrSize(cls)], cls, order) == u
    ensures img[..16] == u.ident
  {
    assert img[..16] == img[..EhdrSize(cls)][..16];
  }

  lemma LoadableIff(img: seq<byte>, cls: Class, host: ByteOrder, phnum: nat, nscn: nat, h: Ehdr, u: Ehdr, end: nat)
    requires |h.ident| == 16 && Encoding(h.ident[5], host).Some?
    requires TableFits(cls, nscn, end) && SectionsStart(cls, phnum) <= end
    requires u == NumberEhdr(InitEhdr(h, cls, EV_CURRENT), cls, phnum, PhOff(cls, phnum), nscn, ShOff(cls, nscn, end))
    requires Headed(img, u, cls, Encoding(h.ident[5], host).value, nscn)
    ensures ElfReader.Loadable(img) <==> Readable(h, nscn, phnum)
    ensures ElfReader.Loadable(img) ==>
      && ElfReader.Identify(img) == Some(ElfReader.Ident(cls, Encoding(h.ident[5], host).value, EV_CURRENT))
      && ElfReader.ReadEhdr(img, ElfReader.Identify(img).value) == Some(ElfReader.Plain(u))
  {
    IdentDecoded(img, u, cls, Encoding(h.ident[5], host).value);
    IdentRead(img, h, cls);
    if h.ident[5] in {1, 2} {
      HeaderRead(img, ElfReader.Identify(img).value, h, cls, EV_CURRENT, phnum, nscn, end);
    }
  }

  lemma IsHeaded(img: seq<byte>, u: Ehdr, cls: Class, order: ByteOrder, phnum: nat, nscn: nat, phdrs: seq<byte>,
                 scns: seq<Section>, fill: byte)
    requires |u.ident| == 16 && HeadersFit(cls, u, scns) && AllWritable(scns)
    requires u.shnum == nscn && u.shentsize == ShdrSize(cls)
    requires if nscn == 0 then u.shoff == 0 else nscn == |scns|
    requires Painted(img, ObjectRegions(u, cls, order, phnum, phdrs, scns), fill)
    ensures Headed(img, u, cls, order, nscn)
  {
    ElfReader.EhdrReadsBack(img, u, cls, order, phnum, phdrs, scns, fill);
    if nscn > 0 {
      TableReadsBack(img, u, cls, order, phnum, phdrs, scns, fill);
    }
  }

  lemma UpdatedHeaded(img: seq<byte>, cls: Class, order: ByteOrder, phnum: nat, nscn: nat, h: Ehdr, scns: seq<Section>,
                      phdrs: seq<byte>, fill: byte)
    requires |h.ident| == 16 && HeadersFit(cls, h, scns) && (nscn == |scns| || nscn == 0)
    requires CanWrite(cls, EV_CURRENT, phnum, nscn, scns)
    requires var u := Updated(cls, EV_CURRENT, phnum, nscn, h, scns);
             AllWritable(u.1) && Painted(img, ObjectRegions(u.0, cls, order, phnum, phdrs, u.1), fill)
    ensures Headed(img, Updated(cls, EV_CURRENT, phnum, nscn, h, scns).0, cls, order, nscn)
  {
    var u := Updated(cls, EV_CURRENT, phnum, nscn, h, scns);
    UpdatedFits(cls, EV_CURRENT, phnum, nscn, h, scns);
    IsHeaded(img, u.0, cls, order, phnum, nscn, phdrs, u.1, fill);
  }

  lemma EndAfterStart(cls: Class, version: nat, phnum: nat, scns: seq<Section>)
    requires AllAccepted(cls, version, scns)
    ensures SectionsStart(cls, phnum) <= LayOutSections(cls, version, scns, SectionsStart(cls, phnum)).1
  {
    EndsAscend(cls, version, scns, SectionsStart(cls, phnum), 0, |scns|);
    assert scns[..0] == [] && scns[..|scns|] == scns;
  }

  lemma NothingFound(img: seq<byte>, scns: seq<Section>)
    requires forall i :: 0 <= i < |scns| ==> !Occupies(scns[i])
    ensures ContentsFound(img, scns)
  {
  }

  lemma UpdatedTable(img: seq<byte>, cls: Class, order: ByteOrder, phnum: nat, nscn: nat, h: Ehdr, scns: seq<Section>,
                     phdrs: seq<byte>, fill: byte)
    requires |h.ident| == 16 && HeadersFit(cls, h, scns) && nscn == |scns| > 0
    requires CanWrite(cls, EV_CURRENT, phnum, nscn, scns)
    requires var u := Updated(cls, EV_CURRENT, phnum, nscn, h, scns);
             AllWritable(u.1) && Painted(img, ObjectRegions(u.0, cls, order, phnum, phdrs, u.1), fill)
    ensures var u := Updated(cls, EV_CURRENT, phnum, nscn, h, scns);
            && |u.1| == nscn && u.0.shoff + ShdrTableSize(cls, nscn) <= |img|
            && forall i :: 0 <= i < nscn ==> ElfReader.EntryAt(img, u.0.shoff, cls, order, i) == u.1[i].shdr
  {
    var u := Updated(cls, EV_CURRENT, phnum, nscn, h, scns);
    UpdatedFits(cls, EV_CURRENT, phnum, nscn, h, scns);
    TableReadsBack(img, u.0, cls, order, phnum, phdrs, u.1, fill);
  }

  lemma UpdatedFound(img: seq<byte>, cls: Class, order: ByteOrder, phnum: nat, nscn: nat, h: Ehdr, scns: seq<Section>,
                     phdrs: seq<byte>, fill: byte)
    requires |h.ident| == 16 && (nscn == |scns| || (nscn == 0 && forall i :: 0 <= i < |scns| ==> !Occupies(scns[i])))
    requires CanWrite(cls, EV_CURRENT, phnum, nscn, scns)
    requires var u := Updated(cls, EV_CURRENT, phnum, nscn, h, scns);
             AllWritable(u.1) && Painted(img, ObjectRegions(u.0, cls, order, phnum, phdrs, u.1), fill)
    ensures ContentsFound(img, Updated(cls, EV_CURRENT, phnum, nscn, h, scns).1)
  {
    var u := Updated(cls, EV_CURRENT, phnum, nscn, h, scns);
    if nscn > 0 {
      UpdatedOffsets(cls, EV_CURRENT, phnum, nscn, h, scns);
      AllContentsReadBack(img, u.0, cls, order, phnum, phdrs, u.1, fill);
    } else {
      NothingFound(img, u.1);
    }
  }

  /** The image of an object before and after its update: all headers have their fields, the tables and the bytes of
      every descriptor are where the headers say, and the gaps have fill bytes. */
  ghost predicate IsWritten(img: seq<byte>, cls: Class, order: ByteOrder, phnum: nat, nscn: nat, h: Ehdr,
                            scns: seq<Section>, now: (Ehdr, seq<Section>), phdrs: seq<byte>, fill: byte)
    requires |h.ident| == 16
  {
    && |now.0.ident| == 16 && AllWritable(now.1)
    && Painted(img, ObjectRegions(now.0, cls, order, phnum, phdrs, now.1), fill)
    && EhdrIs(cls, phnum, nscn, h, now.0, now.1, |img|)
    && (phnum > 0 ==> Has(img, Region(now.0.phoff, phdrs)))
    && (nscn > 0 ==> |now.1| == |scns| && HeadersAre(cls, phnum, scns, now.1))
    && ContentsFound(img, now.1)
  }

  lemma UpdatedIsWritten(img: seq<byte>, cls: Class, order: ByteOrder, phnum: nat, nscn: nat, h: Ehdr,
                         scns: seq<Section>, phdrs: seq<byte>, fill: byte)
    requires |h.ident| == 16 && (nscn == |scns| || (nscn == 0 && forall i :: 0 <= i < |scns| ==> !Occupies(scns[i])))
    requires CanWrite(cls, EV_CURRENT, phnum, nscn, scns) && HeadersFit(cls, h, scns)
    requires |img| == UpdatedSize(cls, EV_CURRENT, phnum, nscn, scns)
    requires var u := Updated(cls, EV_CURRENT, phnum, nscn, h, scns);
             AllWritable(u.1) && Painted(img, ObjectRegions(u.0, cls, order, phnum, phdrs, u.1), fill)
    ensures IsWritten(img, cls, order, phnum, nscn, h, scns, Updated(cls, EV_CURRENT, phnum, nscn, h, scns), phdrs, fill)
  {
    var u := Updated(cls, EV_CURRENT, phnum, nscn, h, scns);
    UpdatedFound(img, cls, order, phnum, nscn, h, scns, phdrs, fill);
    if nscn > 0 {
      SectionsHold(cls, phnum, nscn, h, scns);
    }
    EhdrHolds(cls, phnum, nscn, h, scns);
    if phnum > 0 {
      HeaderTablesPlaced(cls, phnum, 0, 0);
      PhdrsFound(img, u.0, cls, order, phnum, phdrs, u.1, fill);
    }
  }

  lemma SectionsHold(cls: Class, phnum: nat, nscn: nat, h: Ehdr, scns: seq<Section>)
    requires |h.ident| == 16 && CanWrite(cls, EV_CURRENT, phnum, nscn, scns) && nscn == |scns| > 0
    requires HeadersFit(cls, h, scns)
    ensures var after := Updated(cls, EV_CURRENT, phnum, nscn, h, scns).1;
            |after| == |scns| && HeadersAre(cls, phnum, scns, after)
  {
    var after := Updated(cls, EV_CURRENT, phnum, nscn, h, scns).1;
    SectionHolds(cls, EV_CURRENT, phnum, nscn, h, scns, 0);
    forall i | 0 <= i < nscn
      ensures HeaderIs(cls, phnum, scns, after, i, after[i].shdr)
    {
      SectionHolds(cls, EV_CURRENT, phnum, nscn, h, scns, i);
    }
  }

  lemma PhdrsFound(img: seq<byte>, u: Ehdr, cls: Class, order: ByteOrder, phnum: nat, phdrs: seq<byte>,
                   scns: seq<Section>, fill: byte)
    requires |u.ident| == 16 && AllWritable(scns) && phnum > 0
    requires Painted(img, ObjectRegions(u, cls, order, phnum, phdrs, scns), fill)
    ensures Has(img, Region(PhOff(cls, phnum), phdrs))
  {
    var r := Region(PhOff(cls, phnum), phdrs);
    PhdrsIn(u, cls, order, phnum, phdrs, scns);
    ElfReader.PaintedRegion(img, ObjectRegions(u, cls, order, phnum, phdrs, scns), fill, r);
  }

  lemma PhdrsIn(u: Ehdr, cls: Class, order: ByteOrder, phnum: nat, phdrs: seq<byte>, scns: seq<Section>)
    requires |u.ident| == 16 && AllWritable(scns) && phnum > 0
    ensures Region(PhOff(cls, phnum), phdrs) in ObjectRegions(u, cls, order, phnum, phdrs, scns)
  {
    assert Region(PhOff(cls, phnum), phdrs) in HeaderRegions(u, cls, order, phnum, phdrs);
  }

  /** `loaded` is what the image holds, and nothing exactly when it cannot be loaded. */
  ghost predicate IsLoaded(img: seq<byte>, loaded: Option<ElfReader.File>)
  {
    && (loaded.Some? <==> ElfReader.Loadable(img))
    && (loaded.Some? ==>
          var f := loaded.value;
          && ElfReader.Identify(img) == Some(f.id) && ElfReader.ReadEhdr(img, f.id) == Some(f.header)
          && ElfReader.TableRead(img, f.header, f.id.cls, f.id.order, f.shdrs))
  }

  /** The object that is loaded has the class, byte order and headers of the one written, and its number of segments
      unless that did not fit the executable header. */
  ghost predicate LoadedAs(f: ElfReader.File, cls: Class, order: ByteOrder, phnum: nat, nscn: nat,
                           now: (Ehdr, seq<Section>))
  {
    && f.id == ElfReader.Ident(cls, order, EV_CURRENT) && f.header.ehdr == now.0 && f.header.nscn == nscn
    && (f.header.nphdr == phnum <==> phnum <= PN_XNUM)
    && nscn <= |now.1| && |f.shdrs| == nscn && forall i :: 0 <= i < nscn ==> f.shdrs[i] == now.1[i].shdr
  }

  /** Loading the image of an updated object. */
  method LoadUpdated(img: seq<byte>, ghost cls: Class, ghost host: ByteOrder, ghost phnum: nat, ghost nscn: nat,
                     ghost h: Ehdr, ghost scns: seq<Section>, ghost phdrs: seq<byte>, ghost fill: byte)
    returns (loaded: Option<ElfReader.File>)
    requires |h.ident| == 16 && HeadersFit(cls, h, scns) && Encoding(h.ident[5], host).Some?
    requires nscn == |scns| || nscn == 0
    requires CanWrite(cls, EV_CURRENT, phnum, nscn, scns)
    requires var u := Updated(cls, EV_CURRENT, phnum, nscn, h, scns);
             && AllWritable(u.1)
             && Painted(img, ObjectRegions(u.0, cls, Encoding(h.ident[5], host).value, phnum, phdrs, u.1), fill)
    ensures loaded.Some? <==> Readable(h, nscn, phnum)
    ensures IsLoaded(img, loaded)
    ensures loaded.Some? ==>
      LoadedAs(loaded.value, cls, Encoding(h.ident[5], host).value, phnum, nscn,
               Updated(cls, EV_CURRENT, phnum, nscn, h, scns))
  {
    ghost var order := Encoding(h.ident[5], host).value;
    ghost var u := Updated(cls, EV_CURRENT, phnum, nscn, h, scns);
    UpdatedHeaded(img, cls, order, phnum, nscn, h, scns, phdrs, fill);
    EndAfterStart(cls, EV_CURRENT, phnum, scns);
    LoadableIff(img, cls, host, phnum, nscn, h, u.0, LayOutSections(cls, EV_CURRENT, scns, SectionsStart(cls, phnum)).1);
    loaded := ElfReader.LoadFile(img);
    if nscn > 0 {
      UpdatedTable(img, cls, order, phnum, nscn, h, scns, phdrs, fill);
    }
  }

  /** elf_update, and opening the file again with elf_memory. The file of a successful update can be loaded
      exactly when the object was readable; then its class, byte order, executable header and section
      headers are the ones written. All headers have the fields that HeaderIs and EhdrIs say, and lead to the
      program header table and to the bytes of every descriptor. The number of segments comes back unless it
      did not fit the executable header. */
  method UpdateAndLoad(e: ElfObject, fill: byte)
    returns (r: Result<nat>, img: array<byte>, loaded: Option<ElfReader.File>)
    requires e.Valid() && TranslationsOk(e.scns, e.cls)
    requires SizeFits(e.cls, e.version, e.phnum, e.nscn, e.scns) && HeadersFit(e.cls, e.ehdr, e.scns)
    modifies e
    ensures r.Ok? <==>
      && old(e.HeaderError()).None? && Encoding(old(e.ehdr.ident[5]), e.host).Some?
      && CanWrite(e.cls, e.version, e.phnum, e.nscn, old(e.scns))
    ensures r.Ok? ==>
      && (e.ehdr, e.scns) == Updated(e.cls, e.version, e.phnum, e.nscn, old(e.ehdr), old(e.scns))
      && img.Length == r.value == UpdatedSize(e.cls, e.version, e.phnum, e.nscn, old(e.scns))
      && IsWritten(img[..], e.cls, Encoding(old(e.ehdr.ident[5]), e.host).value, e.phnum, e.nscn, old(e.ehdr),
                   old(e.scns), (e.ehdr, e.scns), e.phdrs, fill)
    ensures loaded.Some? <==> r.Ok? && old(Readable(e.ehdr, e.nscn, e.phnum))
    ensures r.Ok? ==> IsLoaded(img[..], loaded)
    ensures loaded.Some? ==>
      LoadedAs(loaded.value, e.cls, Encoding(old(e.ehdr.ident[5]), e.host).value, e.phnum, e.nscn, (e.ehdr, e.scns))
  {
    ghost var h, scns := e.ehdr, e.scns;
    r, img := ElfUpdate(e, fill);
    loaded := None;
    if r.Ok? {
      loaded := LoadUpdated(img[..], e.cls, e.host, e.phnum, e.nscn, h, scns, e.phdrs, fill);
      UpdatedIsWritten(img[..], e.cls, Encoding(h.ident[5], e.host).value, e.phnum, e.nscn, h, scns, e.phdrs, fill);
    }
  }

  /** A null section and a section of one byte. */
  function OneByte(b: byte): seq<Section>
  {
    [EMPTY_SECTION, Unaligned(1, [Descriptor(TByte, EV_CURRENT, 1, 1, 0, Some([b]))])]
  }

  lemma OneByteCanBeWritten(b: byte)
    ensures CanWrite(Class64, EV_CURRENT, 0, 2, OneByte(b))
  {
    var scns := OneByte(b);
    OneDescriptor(scns[1].data[0]);
    assert scns[..0] == [];
    LayOutNext(Class64, EV_CURRENT, scns, 64, 0);
    LayOutNext(Class64, EV_CURRENT, scns, 64, 1);
    assert scns[..2] == scns;
    NaturalCanWrite(Class64, EV_CURRENT, 0, 2, scns);
  }

  /** The library leaves the byte order unset in a new executable header. Such an object is written in the
      order of the host, and no image with that byte in its header can be loaded. */
  lemma UnsetOrder(b: byte, host: ByteOrder, h: Ehdr, img: seq<byte>)
    requires |h.ident| == 16 && h.ident[5] == 0
    requires 16 < |img| && img[..16] == InitEhdr(h, Class64, EV_CURRENT).ident
    ensures Encoding(h.ident[5], host) == Some(host) && CanWrite(Class64, EV_CURRENT, 0, 2, OneByte(b))
    ensures !Readable(h, 2, 0) && !ElfReader.Loadable(img)
  {
    OneByteCanBeWritten(b);
    IdentRead(img, h, Class64);
  }
}
