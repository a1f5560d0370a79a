/** What the headers of an updated object say, field by field, in terms of the object before the update. */
module ElfHeaders {
  import opened Bytes
  import opened Options
  import opened Arith
  import opened ElfFormat
  import opened ElfLayout
  import opened ElfLayoutTheorems
  import opened ElfImage
  import opened ElfWriter

  /** The header fields have values of their C types. */
  ghost predicate HeadersFit(cls: Class, h: Ehdr, scns: seq<Section>)
  {
    && Fits(EhdrValues(h), EhdrWidths(cls))
    && forall i :: 0 <= i < |scns| ==> Fits(ShdrValues(scns[i].shdr), ShdrWidths(cls))
  }

  // ---------------------------------------------------------------- section headers

  /** `a` is the largest of the alignment that the section asks for, or else the natural one of its type, and those
      of its descriptors. */
  ghost predicate AlignIs(cls: Class, s: Section, a: nat)
    requires XlateShtype(s.shdr.shType).Some?
  {
    var asked := if s.shdr.addralign != 0 then s.shdr.addralign else FileAlign(XlateShtype(s.shdr.shType).value, cls);
    && asked <= a && (forall k :: 0 <= k < |s.data| ==> s.data[k].align <= a)
    && (a == asked || exists k :: 0 <= k < |s.data| && s.data[k].align == a)
  }

  /** Descriptor k is at the first multiple of `a` after the descriptors before it. */
  ghost predicate FollowsAt(data: seq<Descriptor>, a: nat, k: nat)
    requires k < |data| && a > 0
  {
    var end := if k == 0 then 0 else data[k - 1].off + data[k - 1].size;
    end <= data[k].off < end + a && data[k].off % a == 0
  }

  /** The descriptors of `s` one after the other at multiples of `a`, up to the end of the last. */
  ghost predicate Filled(s: Section, t: Section, a: nat)
    requires a > 0 && s.data != []
  {
    && |t.data| == |s.data|
    && (forall k :: 0 <= k < |s.data| ==> t.data[k] == s.data[k].(off := t.data[k].off) && FollowsAt(t.data, a, k))
    && t.size == t.data[|t.data| - 1].off + t.data[|t.data| - 1].size
  }

  /** Where the last occupying section before section i ends. */
  ghost function EndBefore(scns: seq<Section>, i: nat, start: nat): nat
    requires i <= |scns|
  {
    if i == 0 then start
    else if Occupies(scns[i - 1]) then scns[i - 1].offset + scns[i - 1].size
    else EndBefore(scns, i - 1, start)
  }

  /** The section header `h` of section i: a section that occupies space is put at the first multiple of its alignment
      after the sections before it, its extent is that of its descriptors, and an entry size that was not given is
      that of its elements, or 0 for bytes. Nothing else changes, except that section 0 takes a number of segments
      that is too large for the executable header. */
  ghost predicate HeaderIs(cls: Class, phnum: nat, before: seq<Section>, after: seq<Section>, i: nat, h: Shdr)
    requires i < |before| == |after|
  {
    var s, t := before[i], after[i];
    var info := if i == 0 && phnum >= PN_XNUM then phnum % 0x1_0000_0000 else s.shdr.info;
    if !Occupies(s) then h == s.shdr.(info := info)
    else
      && XlateShtype(s.shdr.shType).Some? && s.data != [] && h.addralign > 0
      && h == s.shdr.(addralign := h.addralign, offset := h.offset, size := h.size, entsize := h.entsize, info := info)
      && AlignIs(cls, s, h.addralign)
      && h.offset == t.offset && h.size == t.size && Filled(s, t, h.addralign)
      && h.offset % h.addralign == 0
      && (var end := EndBefore(after, i, EhdrSize(cls) + PhdrTableSize(cls, phnum));
          end <= h.offset < end + h.addralign)
      && var size := FileSize(XlateShtype(s.shdr.shType).value, cls);
         h.entsize == if s.shdr.entsize != 0 then s.shdr.entsize else if size > 1 then size else 0
  }

  /** The two lists have the same sections at the same places. */
  ghost predicate SamePlaces(a: seq<Section>, b: seq<Section>)
  {
    |a| == |b| && forall k :: 0 <= k < |a| ==>
      a[k].offset == b[k].offset && a[k].size == b[k].size && Occupies(a[k]) == Occupies(b[k])
  }

  lemma StartIs(cls: Class, phnum: nat)
    ensures SectionsStart(cls, phnum) == EhdrSize(cls) + PhdrTableSize(cls, phnum)
  {
    HeaderTablesPlaced(cls, phnum, 0, 0);
  }

  lemma {:induction false} EndBeforeIs(cls: Class, version: nat, scns: seq<Section>, after: seq<Section>, start: nat, i: nat)
    requires AllAccepted(cls, version, scns) && i <= |scns|
    requires SamePlaces(after, LayOutSections(cls, version, scns, start).0)
    ensures EndBefore(after, i, start) == LayOutSections(cls, version, scns[..i], start).1
  {
    if i == 0 {
      assert scns[..0] == [];
    } else {
      EndBeforeIs(cls, version, scns, after, start, i - 1);
      LayOutAt(cls, version, scns, start, i - 1);
      if Occupies(scns[i - 1]) {
        SectionPlacement(cls, version, scns[i - 1], LayOutSections(cls, version, scns[..i - 1], start).1);
      }
    }
  }

  lemma LargestAlign(cls: Class, version: nat, s: Section)
    requires SectionError(cls, version, s).None? && Occupies(s) && s.data != []
    ensures MaxAlign(s.data) > 0 && AlignIs(cls, s, MaxAlign(s.data))
    ensures Max(MaxAlign(s.data), AskedAlign(cls, XlateShtype(s.shdr.shType).value, s.shdr.addralign)) == MaxAlign(s.data)
  {
    var t := XlateShtype(s.shdr.shType).value;
    AcceptedAlign(s.data, t, version, AskedAlign(cls, t, s.shdr.addralign));
    forall k | 0 <= k < |s.data|
      ensures s.data[k].align <= MaxAlign(s.data)
    {
      MaxAlignBound(s.data, k);
    }
    var k := MaxAlignIsOne(s.data);
  }

  lemma PlacedIsFilled(s: Section, t: Section, a: nat)
    requires a > 0 && s.data != [] && t.data == Place(s.data, a) && t.size == PlacedEnd(s.data, a)
    ensures Filled(s, t, a)
  {
    forall k | 0 <= k < |s.data|
      ensures FollowsAt(t.data, a, k)
    {
      PlaceNext(s.data, a, k);
    }
  }

  lemma EntsizeIs(h: Shdr, cls: Class, t: ElfType)
    requires Fits(ShdrValues(h), ShdrWidths(cls))
    ensures FileSize(t, cls) > 0 && (h.entsize != 0 ==> Stored(cls, h.entsize) == h.entsize)
  {
    Pow256Values();
    FitsShdr(h, cls);
    StoredIff(cls, h.entsize);
  }

  /** One section that is laid out from `rc`, when its end fits the header. */
  lemma LaidHeader(cls: Class, version: nat, s: Section, rc: nat)
    requires SectionError(cls, version, s).None? && Occupies(s) && s.data != [] && rc > 0
    requires LayOutSection(cls, version, s, rc).1 < FieldLimit(cls) && Fits(ShdrValues(s.shdr), ShdrWidths(cls))
    ensures var t := LayOutSection(cls, version, s, rc).0;
            var h, size := t.shdr, FileSize(XlateShtype(s.shdr.shType).value, cls);
            && h.addralign > 0
            && h == s.shdr.(addralign := h.addralign, offset := h.offset, size := h.size, entsize := h.entsize)
            && AlignIs(cls, s, h.addralign) && h.offset == t.offset && h.size == t.size && Filled(s, t, h.addralign)
            && h.offset % h.addralign == 0 && rc <= h.offset < rc + h.addralign
            && h.entsize == if s.shdr.entsize != 0 then s.shdr.entsize else if size > 1 then size else 0
  {
    var (t, end) := LayOutSection(cls, version, s, rc);
    var a := MaxAlign(s.data);
    LargestAlign(cls, version, s);
    PlacedIsFilled(s, t, a);
    MultipleAtLeast(t.offset, a);
    StoredIff(cls, a);
    StoredIff(cls, t.offset);
    StoredIff(cls, t.size);
    EntsizeIs(s.shdr, cls, XlateShtype(s.shdr.shType).value);
  }

  lemma SectionHolds(cls: Class, version: nat, phnum: nat, nscn: nat, h: Ehdr, scns: seq<Section>, i: nat)
    requires |h.ident| == 16 && CanWrite(cls, version, phnum, nscn, scns) && nscn == |scns| > 0 && i < nscn
    requires Fits(ShdrValues(scns[i].shdr), ShdrWidths(cls))
    ensures var after := Updated(cls, version, phnum, nscn, h, scns).1;
            |after| == |scns| && HeaderIs(cls, phnum, scns, after, i, after[i].shdr)
  {
    var start := SectionsStart(cls, phnum);
    var (laid, end) := LayOutSections(cls, version, scns, start);
    HeaderTablesPlaced(cls, phnum, nscn, end);
    StartIs(cls, phnum);
    ExtendedIs(cls, phnum, nscn, laid, i);
    LaidHolds(cls, version, phnum, scns, laid, ExtendedNumbers(cls, phnum, nscn, laid), i, end);
  }

  lemma LaidHolds(cls: Class, version: nat, phnum: nat, scns: seq<Section>, laid: seq<Section>, after: seq<Section>,
                  i: nat, end: nat)
    requires AllAccepted(cls, version, scns) && i < |scns| && Writable(scns[i])
    requires (laid, end) == LayOutSections(cls, version, scns, EhdrSize(cls) + PhdrTableSize(cls, phnum))
    requires end < FieldLimit(cls) && Fits(ShdrValues(scns[i].shdr), ShdrWidths(cls)) && SamePlaces(after, laid)
    requires var info := if i == 0 && phnum >= PN_XNUM then phnum % 0x1_0000_0000 else laid[i].shdr.info;
             after[i] == laid[i].(shdr := laid[i].shdr.(info := info))
    ensures |after| == |scns| && HeaderIs(cls, phnum, scns, after, i, after[i].shdr)
  {
    var start := EhdrSize(cls) + PhdrTableSize(cls, phnum);
    var rc := LayOutSections(cls, version, scns[..i], start).1;
    assert laid[i] == LayOutSection(cls, version, scns[i], rc).0 by {
      LayOutAt(cls, version, scns, start, i);
    }
    InfoKept(cls, version, scns[i], rc);
    if Occupies(scns[i]) {
      EndBeforeIs(cls, version, scns, after, start, i);
      LaidWithin(cls, version, scns, start, i);
      Assembled(cls, version, phnum, scns, after, i, rc);
    } else {
      Unoccupied(cls, phnum, scns, after, i);
    }
  }

  lemma InfoKept(cls: Class, version: nat, s: Section, rc: nat)
    requires SectionError(cls, version, s).None?
    ensures LayOutSection(cls, version, s, rc).0.shdr.info == s.shdr.info
  {
  }

  lemma Unoccupied(cls: Class, phnum: nat, scns: seq<Section>, after: seq<Section>, i: nat)
    requires i < |scns| == |after| && !Occupies(scns[i])
    requires var info := if i == 0 && phnum >= PN_XNUM then phnum % 0x1_0000_0000 else scns[i].shdr.info;
             after[i].shdr == scns[i].shdr.(info := info)
    ensures HeaderIs(cls, phnum, scns, after, i, after[i].shdr)
  {
  }

  lemma Assembled(cls: Class, version: nat, phnum: nat, scns: seq<Section>, after: seq<Section>, i: nat, rc: nat)
    requires i < |scns| == |after| && SectionError(cls, version, scns[i]).None? && Occupies(scns[i]) && scns[i].data != []
    requires rc > 0 && LayOutSection(cls, version, scns[i], rc).1 < FieldLimit(cls)
    requires Fits(ShdrValues(scns[i].shdr), ShdrWidths(cls))
    requires EndBefore(after, i, EhdrSize(cls) + PhdrTableSize(cls, phnum)) == rc
    requires var t := LayOutSection(cls, version, scns[i], rc).0;
             var info := if i == 0 && phnum >= PN_XNUM then phnum % 0x1_0000_0000 else scns[i].shdr.info;
             after[i] == t.(shdr := t.shdr.(info := info))
    ensures HeaderIs(cls, phnum, scns, after, i, after[i].shdr)
  {
    LaidHeader(cls, version, scns[i], rc);
  }

  lemma LaidWithin(cls: Class, version: nat, scns: seq<Section>, start: nat, i: nat)
    requires AllAccepted(cls, version, scns) && i < |scns|
    ensures var rc := LayOutSections(cls, version, scns[..i], start).1;
            start <= rc && LayOutSection(cls, version, scns[i], rc).1 <= LayOutSections(cls, version, scns, start).1
  {
    EndsAscend(cls, version, scns, start, 0, i);
    EndsAscend(cls, version, scns, start, i + 1, |scns|);
    LayOutAt(cls, version, scns, start, i);
    assert scns[..0] == [] && scns[..|scns|] == scns;
  }

  /** Extended numbering of an object with fewer than 0xff00 sections: section 0 takes the number of segments. */
  lemma ExtendedIs(cls: Class, phnum: nat, nscn: nat, scns: seq<Section>, i: nat)
    requires nscn == |scns| < SHN_LORESERVE && i < nscn
    ensures var ext := ExtendedNumbers(cls, phnum, nscn, scns);
            var info := if i == 0 && phnum >= PN_XNUM then phnum % 0x1_0000_0000 else scns[i].shdr.info;
            SamePlaces(ext, scns) && ext[i] == scns[i].(shdr := scns[i].shdr.(info := info))
  {
  }

  /** All section headers of an updated object. */
  ghost predicate HeadersAre(cls: Class, phnum: nat, before: seq<Section>, after: seq<Section>)
    requires |before| == |after|
  {
    forall i :: 0 <= i < |before| ==> HeaderIs(cls, phnum, before, after, i, after[i].shdr)
  }

  // ---------------------------------------------------------------- the executable header

  /** The executable header of an updated object of `size` bytes: identification, entry sizes, numbers and table
      offsets are filled in, and the rest is kept. The program header table follows the header; the section header
      table is at the first boundary after the sections and ends the file. */
  ghost predicate EhdrIs(cls: Class, phnum: nat, nscn: nat, before: Ehdr, after: Ehdr, scns: seq<Section>, size: nat)
    requires |before.ident| == 16
  {
    var sizes := if cls.Class32? then (52, 32, 40, 4, 1) else (64, 56, 64, 8, 2);
    && after.ident == [0x7f, 0x45, 0x4c, 0x46, sizes.4, before.ident[5], EV_CURRENT] + before.ident[7..]
    && after == before.(ident := after.ident, ehsize := sizes.0, phentsize := sizes.1, shentsize := sizes.2,
                        phoff := after.phoff, phnum := if phnum < 0xffff then phnum else 0xffff,
                        shoff := after.shoff, shnum := nscn)
    && after.phoff == (if phnum == 0 then 0 else sizes.0)
    && var end := EndBefore(scns, |scns|, sizes.0 + sizes.1 * phnum);
       if nscn == 0 then after.shoff == 0 && size == end
       else end <= after.shoff < end + sizes.3 && after.shoff % sizes.3 == 0 && size == after.shoff + sizes.2 * nscn
  }

  /** In an updated object the sections end where the layout has got to. */
  lemma SectionsEndAt(cls: Class, phnum: nat, nscn: nat, h: Ehdr, scns: seq<Section>)
    requires |h.ident| == 16 && CanWrite(cls, EV_CURRENT, phnum, nscn, scns)
    requires nscn == |scns| || (nscn == 0 && forall i :: 0 <= i < |scns| ==> !Occupies(scns[i]))
    ensures var start := SectionsStart(cls, phnum);
            var after := Updated(cls, EV_CURRENT, phnum, nscn, h, scns).1;
            EndBefore(after, |after|, start) == LayOutSections(cls, EV_CURRENT, scns, start).1
  {
    var start := SectionsStart(cls, phnum);
    var after := Updated(cls, EV_CURRENT, phnum, nscn, h, scns).1;
    if nscn == 0 {
      NothingToPlace(cls, EV_CURRENT, scns, start);
      NoneBefore(after, |after|, start);
    } else {
      ExtendedIs(cls, phnum, nscn, LayOutSections(cls, EV_CURRENT, scns, start).0, 0);
      EndBeforeIs(cls, EV_CURRENT, scns, after, start, |scns|);
      assert scns[..|scns|] == scns;
    }
  }

  lemma EhdrHolds(cls: Class, phnum: nat, nscn: nat, h: Ehdr, scns: seq<Section>)
    requires |h.ident| == 16 && CanWrite(cls, EV_CURRENT, phnum, nscn, scns)
    requires nscn == |scns| || (nscn == 0 && forall i :: 0 <= i < |scns| ==> !Occupies(scns[i]))
    ensures var u := Updated(cls, EV_CURRENT, phnum, nscn, h, scns);
            EhdrIs(cls, phnum, nscn, h, u.0, u.1, UpdatedSize(cls, EV_CURRENT, phnum, nscn, scns))
  {
    var end := LayOutSections(cls, EV_CURRENT, scns, SectionsStart(cls, phnum)).1;
    SectionsEndAt(cls, phnum, nscn, h, scns);
    HeaderTablesPlaced(cls, phnum, nscn, end);
    StartIs(cls, phnum);
    NumberedIs(h, cls, phnum, nscn, PhOff(cls, phnum), ShOff(cls, nscn, end));
  }

  lemma {:induction false} NoneBefore(scns: seq<Section>, i: nat, start: nat)
    requires i <= |scns| && forall k :: 0 <= k < |scns| ==> !Occupies(scns[k])
    ensures EndBefore(scns, i, start) == start
  {
    if i > 0 {
      NoneBefore(scns, i - 1, start);
    }
  }

  lemma NumberedIs(h: Ehdr, cls: Class, phnum: nat, nscn: nat, phoff: nat, shoff: nat)
    requires |h.ident| == 16 && phoff < FieldLimit(cls) && shoff < FieldLimit(cls) && nscn < SHN_LORESERVE
    ensures var sizes := if cls.Class32? then (52, 32, 40, 1) else (64, 56, 64, 2);
            var u := NumberEhdr(InitEhdr(h, cls, EV_CURRENT), cls, phnum, phoff, nscn, shoff);
            && u.ident == [0x7f, 0x45, 0x4c, 0x46, sizes.3, h.ident[5], EV_CURRENT] + h.ident[7..]
            && u == h.(ident := u.ident, ehsize := sizes.0, phentsize := sizes.1, shentsize := sizes.2, phoff := phoff,
                       phnum := if phnum < 0xffff then phnum else 0xffff, shoff := shoff, shnum := nscn)
  {
    StoredIff(cls, phoff);
    StoredIff(cls, shoff);
    var u := NumberEhdr(InitEhdr(h, cls, EV_CURRENT), cls, phnum, phoff, nscn, shoff);
    assert u.ident[..7] == [0x7f, 0x45, 0x4c, 0x46, ClassCode(cls), h.ident[5], EV_CURRENT];
    assert u.ident[7..] == h.ident[7..] && u.ident == u.ident[..7] + u.ident[7..];
  }
}
