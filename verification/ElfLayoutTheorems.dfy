/** What library-controlled layout guarantees, for every object that it accepts. */
module ElfLayoutTheorems {
  import opened Bytes
  import opened Options
  import opened Arith
  import opened ElfFormat
  import opened ElfLayout

  // ---------------------------------------------------------------- inside a section

  /** Descriptors start on multiples of the section alignment, inside the section. */
  lemma {:induction false} PlaceBounds(data: seq<Descriptor>, a: nat, i: nat)
    requires a > 0 && i < |data|
    ensures Place(data, a)[i].off % a == 0
    ensures Place(data, a)[i].off + data[i].size <= PlacedEnd(data, a)
  {
    if i < |data| - 1 {
      PlaceBounds(data[..|data| - 1], a, i);
    }
  }

  /** Each descriptor starts at the first aligned offset past the one before it. */
  lemma {:induction false} PlaceNext(data: seq<Descriptor>, a: nat, i: nat)
    requires a > 0 && i < |data|
    ensures var p := Place(data, a);
            p[i].off == if i == 0 then 0 else RoundUp(p[i - 1].off + p[i - 1].size, a)
  {
    var init := data[..|data| - 1];
    if i < |data| - 1 {
      PlaceNext(init, a, i);
    } else if i == 0 {
      RoundUpOfMultiple(0, a);
    }
  }

  lemma {:induction false} PlaceOrder(data: seq<Descriptor>, a: nat, i: nat, j: nat)
    requires a > 0 && i < j < |data|
    ensures Place(data, a)[i].off + data[i].size <= Place(data, a)[j].off
  {
    var init := data[..|data| - 1];
    if j < |data| - 1 {
      PlaceOrder(init, a, i, j);
    } else {
      PlaceBounds(init, a, i);
    }
  }

  predicate Aligned(x: nat, a: nat) { a > 0 && x % a == 0 }

  /** Each descriptor of `s` lies inside the laid-out section `t`, in order and without overlap, and
      lands in the file on a multiple of its own alignment. */
  ghost predicate WellPlaced(s: Section, t: Section)
  {
    && |t.data| == |s.data|
    && (forall i :: 0 <= i < |s.data| ==>
         && Aligned(t.offset + t.data[i].off, s.data[i].align)
         && t.data[i] == s.data[i].(off := t.data[i].off)
         && t.data[i].off + t.data[i].size <= t.size)
    && (forall i, j :: 0 <= i < j < |s.data| ==> t.data[i].off + t.data[i].size <= t.data[j].off)
  }

  lemma AlignedInFile(offset: nat, off: nat, a: nat, own: nat)
    requires IsPow2(a) && IsPow2(own) && own <= a && offset % a == 0 && off % a == 0
    ensures Aligned(offset + off, own)
  {
    Pow2Divides(own, a);
    MultipleSum(offset, off, a);
    MultipleTransitive(offset + off, a, own);
  }

  predicate AlignFits(d: Descriptor, a: nat) { IsPow2(d.align) && d.align <= a }

  /** `t` is the section `s` laid out with alignment `a`. */
  ghost predicate PlacedBy(s: Section, t: Section, a: nat)
  {
    IsPow2(a) && t.data == Place(s.data, a) && t.size == PlacedEnd(s.data, a) && t.offset % a == 0
  }

  lemma OnePlaced(s: Section, t: Section, a: nat, i: nat)
    requires PlacedBy(s, t, a) && i < |s.data| && AlignFits(s.data[i], a)
    ensures Aligned(t.offset + t.data[i].off, s.data[i].align) && t.data[i].off + s.data[i].size <= t.size
  {
    PlaceBounds(s.data, a, i);
    AlignedInFile(t.offset, t.data[i].off, a, s.data[i].align);
  }

  lemma PlacedWell(s: Section, t: Section, a: nat)
    requires PlacedBy(s, t, a) && forall i :: 0 <= i < |s.data| ==> AlignFits(s.data[i], a)
    ensures WellPlaced(s, t)
  {
    forall i | 0 <= i < |s.data|
      ensures Aligned(t.offset + t.data[i].off, s.data[i].align) && t.data[i].off + s.data[i].size <= t.size
    {
      OnePlaced(s, t, a, i);
    }
    forall i, j | 0 <= i < j < |s.data|
      ensures t.data[i].off + t.data[i].size <= t.data[j].off
    {
      PlaceOrder(s.data, a, i, j);
    }
  }

  lemma SectionPlacement(cls: Class, version: nat, s: Section, rc: nat)
    requires SectionError(cls, version, s).None? && Occupies(s)
    ensures var (t, end) := LayOutSection(cls, version, s, rc);
            rc <= t.offset && end == t.offset + t.size && WellPlaced(s, t)
  {
    var t := LayOutSection(cls, version, s, rc).0;
    var et := XlateShtype(s.shdr.shType).value;
    var asked := AskedAlign(cls, et, s.shdr.addralign);
    AcceptedAlign(s.data, et, version, asked);
    if s.data != [] {
      forall i | 0 <= i < |s.data|
        ensures AlignFits(s.data[i], MaxAlign(s.data))
      {
        AcceptedDescriptor(s.data, et, version, asked, i);
        MaxAlignBound(s.data, i);
      }
      PlacedWell(s, t, MaxAlign(s.data));
    }
  }

  // ---------------------------------------------------------------- across sections

  lemma {:induction false} EndsAscend(cls: Class, version: nat, scns: seq<Section>, start: nat, i: nat, j: nat)
    requires AllAccepted(cls, version, scns) && i <= j <= |scns|
    ensures LayOutSections(cls, version, scns[..i], start).1 <= LayOutSections(cls, version, scns[..j], start).1
    decreases j
  {
    if i < j {
      EndsAscend(cls, version, scns, start, i, j - 1);
      LayOutAt(cls, version, scns, start, j - 1);
      if Occupies(scns[j - 1]) {
        SectionPlacement(cls, version, scns[j - 1], LayOutSections(cls, version, scns[..j - 1], start).1);
      }
    }
  }

  /** A laid-out section lies between the headers and the end of the section area. */
  lemma SectionInside(cls: Class, version: nat, scns: seq<Section>, start: nat, i: nat)
    requires AllAccepted(cls, version, scns) && i < |scns| && Occupies(scns[i])
    ensures var (laid, end) := LayOutSections(cls, version, scns, start);
            && start <= LayOutSections(cls, version, scns[..i], start).1 <= laid[i].offset
            && laid[i].offset + laid[i].size == LayOutSections(cls, version, scns[..i + 1], start).1 <= end
  {
    LayOutAt(cls, version, scns, start, i);
    SectionPlacement(cls, version, scns[i], LayOutSections(cls, version, scns[..i], start).1);
    EndsAscend(cls, version, scns, start, 0, i);
    EndsAscend(cls, version, scns, start, i + 1, |scns|);
    assert scns[..|scns|] == scns;
  }

  /** Of two file-occupying sections the earlier in the list ends before the later starts. */
  lemma SectionsDisjoint(cls: Class, version: nat, scns: seq<Section>, start: nat, i: nat, j: nat)
    requires AllAccepted(cls, version, scns)
    requires i < j < |scns| && Occupies(scns[i]) && Occupies(scns[j])
    ensures var laid := LayOutSections(cls, version, scns, start).0;
            laid[i].offset + laid[i].size <= laid[j].offset
  {
    SectionInside(cls, version, scns, start, i);
    SectionInside(cls, version, scns, start, j);
    EndsAscend(cls, version, scns, start, i + 1, j);
  }

  /** In every file-occupying section, every data descriptor is well placed. */
  lemma DescriptorsWellPlaced(cls: Class, version: nat, scns: seq<Section>, start: nat, j: nat)
    requires AllAccepted(cls, version, scns) && j < |scns| && Occupies(scns[j])
    ensures WellPlaced(scns[j], LayOutSections(cls, version, scns, start).0[j])
  {
    LayOutAt(cls, version, scns, start, j);
    SectionPlacement(cls, version, scns[j], LayOutSections(cls, version, scns[..j], start).1);
  }

  /** The headers around the sections: the program header table starts where the ELF header ends and
      ends where the sections start; the section header table is aligned, starts at or after the end
      of the sections and ends at the computed size. */
  lemma HeaderTablesPlaced(cls: Class, phnum: nat, nscn: nat, end: nat)
    ensures phnum > 0 ==>
      && PhOff(cls, phnum) == EhdrSize(cls)
      && PhOff(cls, phnum) % HeaderAlign(cls) == 0
      && PhOff(cls, phnum) + PhdrTableSize(cls, phnum) == SectionsStart(cls, phnum)
    ensures phnum == 0 ==> SectionsStart(cls, phnum) == EhdrSize(cls)
    ensures nscn > 0 ==>
      && end <= ShOff(cls, nscn, end) < end + HeaderAlign(cls)
      && ShOff(cls, nscn, end) % HeaderAlign(cls) == 0
      && ShOff(cls, nscn, end) + ShdrTableSize(cls, nscn) == TotalSize(cls, nscn, end)
  {
    RoundUpOfMultiple(EhdrSize(cls), HeaderAlign(cls));
  }

  // ---------------------------------------------------------------- the writer's demand on section offsets

  /** What _libelf_write_scn asserts: a known type, and an offset on the natural boundary of that type. */
  predicate FileAligned(s: Section, cls: Class)
  {
    Occupies(s) ==>
      match XlateShtype(s.shdr.shType)
      case None => false
      case Some(t) => s.offset % FileAlign(t, cls) == 0
  }

  predicate AllFileAligned(scns: seq<Section>, cls: Class)
  {
    forall i :: 0 <= i < |scns| ==> FileAligned(scns[i], cls)
  }

  /** The alignment that the layout gives to an accepted section. */
  function LaidAlign(cls: Class, s: Section): (a: nat)
    requires XlateShtype(s.shdr.shType).Some?
    ensures a > 0
  {
    Max(MaxAlign(s.data), AskedAlign(cls, XlateShtype(s.shdr.shType).value, s.shdr.addralign))
  }

  /** The section's own fields put it on its natural boundary. */
  predicate Natural(cls: Class, s: Section)
  {
    Occupies(s) && XlateShtype(s.shdr.shType).Some? ==>
      LaidAlign(cls, s) % FileAlign(XlateShtype(s.shdr.shType).value, cls) == 0
  }

  lemma LaidOffsetIs(cls: Class, version: nat, s: Section, rc: nat)
    requires SectionError(cls, version, s).None? && Occupies(s)
    ensures var t := LayOutSection(cls, version, s, rc).0;
            Occupies(t) && t.shdr.shType == s.shdr.shType && t.offset == RoundUp(rc, LaidAlign(cls, s))
  {
  }

  /** A section lands on its natural boundary wherever the layout has got to if and only if its own
      alignment is a multiple of the natural one. */
  lemma NaturalIff(cls: Class, version: nat, s: Section)
    requires SectionError(cls, version, s).None?
    ensures Natural(cls, s) <==> forall rc: nat :: FileAligned(LayOutSection(cls, version, s, rc).0, cls)
  {
    if Occupies(s) {
      var a, f := LaidAlign(cls, s), FileAlign(XlateShtype(s.shdr.shType).value, cls);
      forall rc: nat | a % f == 0
        ensures FileAligned(LayOutSection(cls, version, s, rc).0, cls)
      {
        LaidOffsetIs(cls, version, s, rc);
        MultipleTransitive(RoundUp(rc, a), a, f);
      }
      LaidOffsetIs(cls, version, s, a);
      RoundUpOfMultiple(a, a);
      assert FileAligned(LayOutSection(cls, version, s, a).0, cls) ==> a % f == 0;
    }
  }

  /** It is enough that the header leaves the alignment to the library, or that some descriptor has the natural
      alignment. */
  lemma NaturalIfAsked(cls: Class, version: nat, s: Section)
    requires SectionError(cls, version, s).None? && Occupies(s)
    requires s.shdr.addralign == 0 || MaxAlign(s.data) >= FileAlign(XlateShtype(s.shdr.shType).value, cls)
    ensures Natural(cls, s)
  {
    var t := XlateShtype(s.shdr.shType).value;
    var asked, f := AskedAlign(cls, t, s.shdr.addralign), FileAlign(t, cls);
    AcceptedAlign(s.data, t, version, asked);
    if s.data != [] {
      assert IsPow2(1) && IsPow2(2) && IsPow2(4) && IsPow2(8);
      Pow2Divides(f, MaxAlign(s.data));
    }
  }

  /** Natural sections satisfy the writer in every file they are part of. */
  lemma NaturalSectionsAligned(cls: Class, version: nat, scns: seq<Section>, start: nat)
    requires AllAccepted(cls, version, scns) && forall i :: 0 <= i < |scns| ==> Natural(cls, scns[i])
    ensures AllFileAligned(LayOutSections(cls, version, scns, start).0, cls)
  {
    var laid := LayOutSections(cls, version, scns, start).0;
    forall i | 0 <= i < |laid|
      ensures FileAligned(laid[i], cls)
    {
      LayOutAt(cls, version, scns, start, i);
      NaturalIff(cls, version, scns[i]);
    }
  }

  /** A section of `data` with the given type that asks for alignment 1. */
  function Unaligned(shType: nat, data: seq<Descriptor>): Section
  {
    Section(Shdr(0, shType, 0, 0, 0, 0, 0, 0, 1, 0), data, 0, 0)
  }

  /** One byte of SHT_PROGBITS and then a word of SHT_HASH, both with alignment 1. */
  function PackedSections(b: seq<byte>, w: seq<byte>): seq<Section>
  {
    [EMPTY_SECTION,
     Unaligned(1, [Descriptor(TByte, EV_CURRENT, 1, 1, 0, Some(b))]),
     Unaligned(5, [Descriptor(TWord, EV_CURRENT, 1, 4, 0, Some(w))])]
  }

  lemma OneDescriptor(d: Descriptor)
    requires d.align == 1
    ensures MaxAlign([d]) == 1 && PlacedEnd([d], 1) == d.size && d.align % 1 == 0 && IsPow2(d.align)
    ensures DescriptorError([d], d.elfType, d.version, 1).None?
  {
    assert [d][..0] == [] && [d][1..] == [];
    assert PlacedEnd([d][..0], 1) == 0 && RoundUp(0, 1) == 0;
  }

  lemma PackedParts(b: seq<byte>, w: seq<byte>)
    ensures var scns := PackedSections(b, w);
            && AllAccepted(Class64, EV_CURRENT, scns)
            && LayOutSection(Class64, EV_CURRENT, scns[0], 64).1 == 64
            && LayOutSection(Class64, EV_CURRENT, scns[1], 64).1 == 65
            && LayOutSection(Class64, EV_CURRENT, scns[2], 65).0.offset == 65
  {
    var scns := PackedSections(b, w);
    OneDescriptor(scns[1].data[0]);
    OneDescriptor(scns[2].data[0]);
  }

  /** The layout accepts these sections and puts the word at an odd offset: the writer's assertion fails. */
  lemma PackedIsMisaligned(b: seq<byte>, w: seq<byte>)
    ensures var scns := PackedSections(b, w);
            && AllAccepted(Class64, EV_CURRENT, scns)
            && LayOutSections(Class64, EV_CURRENT, scns, SectionsStart(Class64, 0)).0[2].offset == 65
            && !AllFileAligned(LayOutSections(Class64, EV_CURRENT, scns, SectionsStart(Class64, 0)).0, Class64)
  {
    var scns := PackedSections(b, w);
    PackedParts(b, w);
    assert scns[..0] == [];
    LayOutNext(Class64, EV_CURRENT, scns, 64, 0);
    LayOutNext(Class64, EV_CURRENT, scns, 64, 1);
    LayOutAt(Class64, EV_CURRENT, scns, 64, 2);
  }
}
