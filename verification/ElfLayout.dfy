/** Library-controlled layout of an ELF object (ELF_F_LAYOUT clear): the offsets that
    _libelf_resync_elf gives to the headers, the sections and their data descriptors. */
module ElfLayout {
  import opened Bytes
  import opened Options
  import opened Arith
  import opened ElfFormat

  datatype Error = ErrVersion | ErrClass | ErrSection | ErrData | ErrLayout

  datatype Result<+T> = Ok(value: T) | Err(error: Error)

  /** An Elf_Data: `file` is the file representation that _libelf_xlate makes of its buffer,
      None when the translation is refused (no buffer, size zero, or not a whole number of elements). */
  datatype Descriptor = Descriptor(elfType: ElfType, version: nat, align: nat, size: nat, off: nat,
                                   file: Option<seq<byte>>)

  /** An Elf_Scn that has been marked dirty. */
  datatype Section = Section(shdr: Shdr, data: seq<Descriptor>, offset: nat, size: nat)

  const EMPTY_SECTION := Section(Shdr(0, SHT_NULL, 0, 0, 0, 0, 0, 0, 0, 0), [], 0, 0)

  predicate Occupies(s: Section)
  {
    s.shdr.shType != SHT_NULL && s.shdr.shType != SHT_NOBITS
  }

  function Max(x: nat, y: nat): nat { if x < y then y else x }

  // ---------------------------------------------------------------- one section

  /** The alignment a section header asks for, or the natural one of its element type. */
  function AskedAlign(cls: Class, t: ElfType, addralign: nat): (a: nat)
    ensures a > 0
  {
    if addralign == 0 then FileAlign(t, cls) else addralign
  }

  /** The first complaint about the descriptors of a section of element type `t`. */
  function DescriptorError(data: seq<Descriptor>, t: ElfType, version: nat, asked: nat): Option<Error>
    requires asked > 0
  {
    if data == [] then None
    else if data[0].elfType != t then Some(ErrData)
    else if data[0].version != version then Some(ErrVersion)
    else if data[0].align % asked != 0 then Some(ErrLayout)
    else if !IsPow2(data[0].align) then Some(ErrData)
    else DescriptorError(data[1..], t, version, asked)
  }

  function SectionError(cls: Class, version: nat, s: Section): Option<Error>
  {
    if !Occupies(s) then None
    else match XlateShtype(s.shdr.shType)
      case None => Some(ErrSection)
      case Some(t) => DescriptorError(s.data, t, version, AskedAlign(cls, t, s.shdr.addralign))
  }

  /** A descriptor that suits a section of element type `t`. */
  predicate Suits(d: Descriptor, t: ElfType, version: nat, asked: nat)
    requires asked > 0
  {
    d.elfType == t && d.version == version && d.align % asked == 0 && IsPow2(d.align)
  }

  /** What is wrong with a descriptor that does not suit: its type before its version before its alignment. */
  ghost predicate Complaint(d: Descriptor, t: ElfType, version: nat, asked: nat, err: Error)
    requires asked > 0
  {
    && !Suits(d, t, version, asked)
    && (err == ErrData <==> d.elfType != t || (d.version == version && d.align % asked == 0))
    && (err == ErrVersion <==> d.elfType == t && d.version != version)
    && (err == ErrLayout <==> d.elfType == t && d.version == version && d.align % asked != 0)
  }

  /** The complaint is about the first descriptor that does not suit; there is none if all suit. */
  lemma {:induction false} DescriptorErrorIs(data: seq<Descriptor>, t: ElfType, version: nat, asked: nat, i: nat)
    requires asked > 0 && i <= |data| && forall j :: 0 <= j < i ==> Suits(data[j], t, version, asked)
    ensures var error := DescriptorError(data, t, version, asked);
            && (i == |data| ==> error.None?)
            && (i < |data| && !Suits(data[i], t, version, asked) ==>
                  error.Some? && Complaint(data[i], t, version, asked, error.value))
  {
    if i > 0 {
      assert data[0] == data[..i][0];
      DescriptorErrorIs(data[1..], t, version, asked, i - 1);
    }
  }

  /** Every section before the one with this error is accepted. */
  ghost predicate FirstError(cls: Class, version: nat, scns: seq<Section>, err: Error)
  {
    exists i :: 0 <= i < |scns| && SectionError(cls, version, scns[i]) == Some(err)
                && forall j :: 0 <= j < i ==> SectionError(cls, version, scns[j]).None?
  }

  function MaxAlign(data: seq<Descriptor>): nat
  {
    if data == [] then 0
    else Max(MaxAlign(data[..|data| - 1]), data[|data| - 1].align)
  }

  /** The end of the descriptors when each one starts at the next multiple of `a`. */
  function PlacedEnd(data: seq<Descriptor>, a: nat): nat
    requires data != [] ==> a > 0
  {
    if data == [] then 0
    else RoundUp(PlacedEnd(data[..|data| - 1], a), a) + data[|data| - 1].size
  }

  function Place(data: seq<Descriptor>, a: nat): (r: seq<Descriptor>)
    requires data != [] ==> a > 0
    ensures |r| == |data|
    ensures forall i :: 0 <= i < |data| ==> r[i] == data[i].(off := r[i].off)
  {
    if data == [] then []
    else
      var init := data[..|data| - 1];
      Place(init, a) + [data[|data| - 1].(off := RoundUp(PlacedEnd(init, a), a))]
  }

  lemma {:induction false} MaxAlignBound(data: seq<Descriptor>, i: nat)
    requires i < |data|
    ensures data[i].align <= MaxAlign(data)
  {
    if i < |data| - 1 {
      MaxAlignBound(data[..|data| - 1], i);
    }
  }

  lemma {:induction false} MaxAlignIsOne(data: seq<Descriptor>) returns (i: nat)
    requires data != []
    ensures i < |data| && data[i].align == MaxAlign(data)
  {
    i := |data| - 1;
    var init := data[..i];
    if data[i].align < MaxAlign(init) {
      i := MaxAlignIsOne(init);
    }
  }

  /** Every descriptor of an accepted section has the section's type and version and a
      power-of-two alignment that is a multiple of the section's own. */
  lemma {:induction false} AcceptedDescriptor(data: seq<Descriptor>, t: ElfType, version: nat, asked: nat, i: nat)
    requires asked > 0 && DescriptorError(data, t, version, asked).None? && i < |data|
    ensures data[i].elfType == t && data[i].version == version
    ensures IsPow2(data[i].align) && data[i].align % asked == 0 && asked <= data[i].align
  {
    if i > 0 {
      AcceptedDescriptor(data[1..], t, version, asked, i - 1);
    } else {
      MultipleAtLeast(data[0].align, asked);
    }
  }

  /** The alignment of an accepted section that has data is the largest alignment of its
      descriptors, and a power of two. */
  lemma AcceptedAlign(data: seq<Descriptor>, t: ElfType, version: nat, asked: nat)
    requires asked > 0 && DescriptorError(data, t, version, asked).None?
    ensures data != [] ==> asked <= MaxAlign(data) && IsPow2(MaxAlign(data))
  {
    if data != [] {
      var i := MaxAlignIsOne(data);
      AcceptedDescriptor(data, t, version, asked, i);
    }
  }

  /** The section header fields that the library fills in; 32-bit headers truncate them. */
  function LaidShdr(h: Shdr, cls: Class, t: ElfType, align: nat, offset: nat, size: nat): Shdr
  {
    h.(entsize := if h.entsize != 0 then Stored(cls, h.entsize)
                  else if FileSize(t, cls) == 1 then 0 else FileSize(t, cls),
       addralign := Stored(cls, align), offset := Stored(cls, offset), size := Stored(cls, size))
  }

  /** A file-occupying section of element type `t` placed at or after `rc`, and where it ends. */
  function PlaceSection(cls: Class, s: Section, t: ElfType, asked: nat, rc: nat): (Section, nat)
    requires asked > 0 && (s.data != [] ==> MaxAlign(s.data) > 0)
  {
    var align := Max(MaxAlign(s.data), asked);
    var size := PlacedEnd(s.data, MaxAlign(s.data));
    var offset := RoundUp(rc, align);
    (Section(LaidShdr(s.shdr, cls, t, align, offset, size), Place(s.data, MaxAlign(s.data)), offset, size),
     offset + size)
  }

  /** A section after _libelf_compute_section_extents, and the file offset reached. */
  function LayOutSection(cls: Class, version: nat, s: Section, rc: nat): (Section, nat)
    requires SectionError(cls, version, s).None?
  {
    if !Occupies(s) then (s, rc)
    else
      var t := XlateShtype(s.shdr.shType).value;
      var asked := AskedAlign(cls, t, s.shdr.addralign);
      AcceptedAlign(s.data, t, version, asked);
      PlaceSection(cls, s, t, asked, rc)
  }

  ghost predicate AllAccepted(cls: Class, version: nat, scns: seq<Section>)
  {
    forall i :: 0 <= i < |scns| ==> SectionError(cls, version, scns[i]).None?
  }

  ghost predicate SameOccupancy(a: seq<Section>, b: seq<Section>)
  {
    |a| == |b| && forall i :: 0 <= i < |a| ==> Occupies(a[i]) == Occupies(b[i])
  }

  function LayOutSections(cls: Class, version: nat, scns: seq<Section>, start: nat): (r: (seq<Section>, nat))
    requires AllAccepted(cls, version, scns)
    ensures |r.0| == |scns|
    ensures SameOccupancy(r.0, scns)
  {
    if scns == [] then ([], start)
    else
      var init := LayOutSections(cls, version, scns[..|scns| - 1], start);
      var last := LayOutSection(cls, version, scns[|scns| - 1], init.1);
      (init.0 + [last.0], last.1)
  }

  lemma LayOutNext(cls: Class, version: nat, scns: seq<Section>, start: nat, i: nat)
    requires i < |scns| && AllAccepted(cls, version, scns[..i]) && SectionError(cls, version, scns[i]).None?
    ensures AllAccepted(cls, version, scns[..i + 1])
    ensures var done := LayOutSections(cls, version, scns[..i], start);
            var next := LayOutSection(cls, version, scns[i], done.1);
            LayOutSections(cls, version, scns[..i + 1], start) == (done.0 + [next.0], next.1)
  {
    assert scns[..i + 1][..i] == scns[..i];
  }

  lemma {:induction false} LayOutAt(cls: Class, version: nat, scns: seq<Section>, start: nat, i: nat)
    requires AllAccepted(cls, version, scns) && i < |scns|
    ensures var at := LayOutSection(cls, version, scns[i], LayOutSections(cls, version, scns[..i], start).1);
            LayOutSections(cls, version, scns, start).0[i] == at.0
            && LayOutSections(cls, version, scns[..i + 1], start).1 == at.1
  {
    if i == |scns| - 1 {
      assert scns[..i + 1] == scns;
    } else {
      var init := scns[..|scns| - 1];
      assert init[..i] == scns[..i] && init[..i + 1] == scns[..i + 1];
      LayOutAt(cls, version, init, start, i);
    }
  }

  // ---------------------------------------------------------------- the whole object

  function PhOff(cls: Class, phnum: nat): nat
  {
    if phnum == 0 then 0 else RoundUp(EhdrSize(cls), HeaderAlign(cls))
  }

  function SectionsStart(cls: Class, phnum: nat): nat
  {
    if phnum == 0 then EhdrSize(cls) else PhOff(cls, phnum) + PhdrTableSize(cls, phnum)
  }

  function ShOff(cls: Class, nscn: nat, sectionsEnd: nat): nat
  {
    if nscn == 0 then 0 else RoundUp(sectionsEnd, HeaderAlign(cls))
  }

  function TotalSize(cls: Class, nscn: nat, sectionsEnd: nat): nat
  {
    if nscn == 0 then sectionsEnd else ShOff(cls, nscn, sectionsEnd) + ShdrTableSize(cls, nscn)
  }

  /** INITIALIZE_EHDR: the magic number, class and version bytes of e_ident, and the entry sizes. */
  function InitEhdr(h: Ehdr, cls: Class, version: nat): (r: Ehdr)
    requires |h.ident| == 16
    ensures |r.ident| == 16 && r.ident[5] == h.ident[5]
  {
    h.(ident := h.ident[0 := 0x7f][1 := 0x45][2 := 0x4c][3 := 0x46]
                       [4 := ClassCode(cls)][6 := version % 256],
       ehsize := EhdrSize(cls), phentsize := PhdrSize(cls), shentsize := ShdrSize(cls))
  }

  /** The counts and offsets that are set once the layout is known. */
  function NumberEhdr(h: Ehdr, cls: Class, phnum: nat, phoff: nat, nscn: nat, shoff: nat): Ehdr
  {
    h.(phnum := if phnum >= PN_XNUM then PN_XNUM else phnum,
       shnum := if nscn >= SHN_LORESERVE then 0 else nscn,
       phoff := Stored(cls, phoff), shoff := Stored(cls, shoff))
  }

  /** _libelf_setphnum and _libelf_setshnum: counts too large for the executable header go to
      section 0, which is allocated if it is missing. */
  function ExtendedNumbers(cls: Class, phnum: nat, nscn: nat, scns: seq<Section>): (r: seq<Section>)
    ensures |scns| <= |r| <= |scns| + 1
    ensures |scns| < |r| ==> scns == []
    ensures forall i :: 0 <= i < |scns| ==>
      r[i] == scns[i].(shdr := scns[i].shdr.(info := r[i].shdr.info, size := r[i].shdr.size))
    ensures forall i :: 1 <= i < |scns| ==> r[i] == scns[i]
    ensures forall i :: |scns| <= i < |r| ==> !Occupies(r[i])
    ensures phnum < PN_XNUM && nscn < SHN_LORESERVE ==> r == scns
  {
    var withPhnum :=
      if phnum < PN_XNUM then scns
      else
        var some := if scns == [] then [EMPTY_SECTION] else scns;
        some[0 := some[0].(shdr := some[0].shdr.(info := phnum % 0x1_0000_0000))];
    if nscn < SHN_LORESERVE then withPhnum
    else
      var some := if withPhnum == [] then [EMPTY_SECTION] else withPhnum;
      some[0 := some[0].(shdr := some[0].shdr.(size := Stored(cls, nscn)))]
  }

  /** The alignment pass of _libelf_compute_section_extents. */
  method CheckDescriptors(data: seq<Descriptor>, t: ElfType, version: nat, asked: nat) returns (r: Result<nat>)
    requires asked > 0
    ensures r.Err? <==> DescriptorError(data, t, version, asked).Some?
    ensures r.Err? ==> DescriptorError(data, t, version, asked) == Some(r.error)
    ensures r.Ok? ==> r.value == MaxAlign(data)
  {
    var scnAlign := 0;
    for i := 0 to |data|
      invariant scnAlign == MaxAlign(data[..i])
      invariant DescriptorError(data, t, version, asked) == DescriptorError(data[i..], t, version, asked)
    {
      var d := data[i];
      assert data[i..][0] == d && data[i..][1..] == data[i + 1..];
      assert data[..i + 1][..i] == data[..i];
      if d.elfType != t {
        return Err(ErrData);
      }
      if d.version != version {
        return Err(ErrVersion);
      }
      if d.align % asked != 0 {
        return Err(ErrLayout);
      }
      if !IsPow2(d.align) {
        return Err(ErrData);
      }
      if d.align > scnAlign {
        scnAlign := d.align;
      }
    }
    assert data[..|data|] == data;
    r := Ok(scnAlign);
  }

  /** The placement pass of _libelf_compute_section_extents. */
  method PlaceDescriptors(before: seq<Descriptor>, scnAlign: nat) returns (data: seq<Descriptor>, scnSize: nat)
    requires before != [] ==> scnAlign > 0
    ensures data == Place(before, scnAlign) && scnSize == PlacedEnd(before, scnAlign)
  {
    data, scnSize := before, 0;
    for i := 0 to |data|
      invariant |data| == |before| && data[i..] == before[i..]
      invariant data[..i] == Place(before[..i], scnAlign)
      invariant scnSize == PlacedEnd(before[..i], scnAlign)
    {
      assert before[..i + 1][..i] == before[..i];
      assert data[i] == before[i];
      scnSize := RoundUp(scnSize, scnAlign);
      data := data[i := data[i].(off := scnSize)];
      scnSize := scnSize + data[i].size;
    }
    assert data == data[..|data|] && before == before[..|before|];
  }

  /** _libelf_compute_section_extents: the section with its new offsets, and the file offset reached. */
  method ComputeSectionExtents(cls: Class, version: nat, s: Section, rc: nat) returns (r: Result<(Section, nat)>)
    ensures r.Err? <==> SectionError(cls, version, s).Some?
    ensures r.Err? ==> SectionError(cls, version, s) == Some(r.error)
    ensures r.Ok? ==> r.value == LayOutSection(cls, version, s, rc)
  {
    if !Occupies(s) {
      return Ok((s, rc));
    }
    var xlated := XlateShtype(s.shdr.shType);
    if xlated.None? {
      return Err(ErrSection);
    }
    var t := xlated.value;
    var shAlign := s.shdr.addralign;
    if shAlign == 0 {
      shAlign := FileAlign(t, cls);
    }
    var checked := CheckDescriptors(s.data, t, version, shAlign);
    if checked.Err? {
      return Err(checked.error);
    }
    AcceptedAlign(s.data, t, version, shAlign);
    var placed, end := UpdateSection(cls, s, t, shAlign, checked.value, rc);
    r := Ok((placed, end));
  }

  /** The rest of _libelf_compute_section_extents, once the descriptors are accepted. */
  method UpdateSection(cls: Class, s: Section, t: ElfType, asked: nat, scnAlign: nat, rc: nat)
    returns (placed: Section, end: nat)
    requires asked > 0 && (s.data != [] ==> MaxAlign(s.data) > 0) && scnAlign == MaxAlign(s.data)
    ensures (placed, end) == PlaceSection(cls, s, t, asked, rc)
  {
    var data, scnSize := PlaceDescriptors(s.data, scnAlign);
    var shAlign := asked;
    if scnAlign > shAlign {
      shAlign := scnAlign;
    }
    var shOffset := RoundUp(rc, shAlign);
    placed := Section(LaidShdr(s.shdr, cls, t, shAlign, shOffset, scnSize), data, shOffset, scnSize);
    end := rc;
    if rc < shOffset + scnSize {
      end := shOffset + scnSize;
    }
  }

  lemma OccupancyJoins(a: seq<Section>, b: seq<Section>, i: nat)
    requires |a| == |b| && i <= |a| && SameOccupancy(a[..i], b[..i]) && a[i..] == b[i..]
    ensures SameOccupancy(a, b)
  {
    forall k | 0 <= k < |a|
      ensures Occupies(a[k]) == Occupies(b[k])
    {
      if k < i {
        assert a[..i][k] == a[k] && b[..i][k] == b[k];
      } else {
        assert a[i..][k - i] == a[k] && b[i..][k - i] == b[k];
      }
    }
  }

  lemma ExtentsNext(cls: Class, version: nat, before: seq<Section>, start: nat, i: nat, scns: seq<Section>, nrc: nat)
    requires i < |before| == |scns| && AllAccepted(cls, version, before[..i])
    requires SectionError(cls, version, before[i]).None? && scns[i..] == before[i..]
    requires LayOutSections(cls, version, before[..i], start) == (scns[..i], nrc)
    ensures AllAccepted(cls, version, before[..i + 1])
    ensures var (placed, end) := LayOutSection(cls, version, before[i], nrc);
            var next := scns[i := placed];
            next[i + 1..] == before[i + 1..]
            && LayOutSections(cls, version, before[..i + 1], start) == (next[..i + 1], end)
  {
    LayOutNext(cls, version, before, start, i);
    var (placed, end) := LayOutSection(cls, version, before[i], nrc);
    var next := scns[i := placed];
    assert next[..i + 1] == scns[..i] + [placed];
    assert next[i + 1..] == scns[i..][1..] && before[i + 1..] == before[i..][1..];
  }

  /** The loop of the first pass of _libelf_resync_sections. */
  method ComputeAllExtents(cls: Class, version: nat, before: seq<Section>, start: nat)
    returns (r: Result<nat>, scns: seq<Section>)
    ensures r.Err? <==> !AllAccepted(cls, version, before)
    ensures r.Err? ==> FirstError(cls, version, before, r.error)
    ensures r.Ok? ==> LayOutSections(cls, version, before, start) == (scns, r.value)
    ensures SameOccupancy(scns, before)
  {
    scns := before;
    var nrc := start;
    for i := 0 to |before|
      invariant |scns| == |before| && scns[i..] == before[i..]
      invariant AllAccepted(cls, version, before[..i])
      invariant LayOutSections(cls, version, before[..i], start) == (scns[..i], nrc)
    {
      assert scns[i] == before[i];
      var extent := ComputeSectionExtents(cls, version, scns[i], nrc);
      if extent.Err? {
        OccupancyJoins(scns, before, i);
        assert forall j :: 0 <= j < i ==> before[..i][j] == before[j];
        return Err(extent.error), scns;
      }
      ExtentsNext(cls, version, before, start, i, scns, nrc);
      scns := scns[i := extent.value.0];
      nrc := extent.value.1;
    }
    assert before == before[..|before|] && scns == scns[..|scns|];
    r := Ok(nrc);
  }

  /** An object opened with ELF_C_WRITE. */
  class ElfObject {
    const cls: Class
    const version: nat        // e_version
    const host: ByteOrder     // the byte order of the machine
    const phnum: nat
    const phdrs: seq<byte>    // the program header table in file representation
    const nscn: nat
    var data: byte            // e_byteorder
    var ehdr: Ehdr
    var scns: seq<Section>

    ghost predicate Valid()
      reads this
    {
      && |ehdr.ident| == 16
      && |phdrs| == PhdrTableSize(cls, phnum)
      && (nscn == |scns| || (nscn == 0 && forall i :: 0 <= i < |scns| ==> !Occupies(scns[i])))
    }

    /** The first complaint of _libelf_resync_elf about the executable header. */
    function HeaderError(): (r: Option<Error>)
      requires |ehdr.ident| == 16
      reads this
      ensures r.None? <==> version == 1 && ehdr.version in {0, 1} && ehdr.ident[4] == if cls.Class32? then 1 else 2
      ensures r == Some(ErrVersion) <==> version != 1 || ehdr.version !in {0, 1}
      ensures r.Some? ==> r.value in {ErrVersion, ErrClass}
    {
      if version != EV_CURRENT then Some(ErrVersion)
      else if (if ehdr.version == EV_NONE then EV_CURRENT else ehdr.version) != version then Some(ErrVersion)
      else if ehdr.ident[4] != ClassCode(cls) then Some(ErrClass)
      else None
    }

    /** The first pass of _libelf_resync_sections. */
    method ComputeExtents(start: nat) returns (r: Result<nat>)
      modifies this`scns
      ensures r.Err? <==> !AllAccepted(cls, version, old(scns))
      ensures r.Err? ==> FirstError(cls, version, old(scns), r.error)
      ensures r.Ok? ==> LayOutSections(cls, version, old(scns), start) == (scns, r.value)
      ensures SameOccupancy(scns, old(scns))
    {
      r, scns := ComputeAllExtents(cls, version, scns, start);
    }

    /** The second pass of _libelf_resync_sections. Its overlap and reinsertion branches are
        unreachable once the first pass has laid out the sections. */
    method CheckOrder(ghost before: seq<Section>, start: nat) returns (rc: nat)
      requires AllAccepted(cls, version, before) && scns == LayOutSections(cls, version, before, start).0
      ensures rc == LayOutSections(cls, version, before, start).1
    {
      rc := start;
      for i := 0 to |scns|
        invariant rc == LayOutSections(cls, version, before[..i], start).1
      {
        LayOutAt(cls, version, before, start, i);
        var s := scns[i];
        if Occupies(s) {
          if s.offset < rc {
            assert false; // neither an overlap nor a section to move
          } else {
            rc := s.offset + s.size;
          }
        }
      }
      assert before == before[..|before|];
    }

    /** _libelf_resync_sections, with the assertion that ends it. */
    method ResyncSections(start: nat) returns (r: Result<nat>)
      modifies this`scns
      ensures r.Err? <==> !AllAccepted(cls, version, old(scns))
      ensures r.Err? ==> FirstError(cls, version, old(scns), r.error)
      ensures r.Ok? ==> LayOutSections(cls, version, old(scns), start) == (scns, r.value)
      ensures SameOccupancy(scns, old(scns))
    {
      r := ComputeExtents(start);
      if r.Ok? {
        var rc := CheckOrder(old(scns), start);
        assert r.value == rc;
        r := Ok(rc);
      }
    }

    /** _libelf_resync_elf. */
    method ResyncElf() returns (r: Result<nat>)
      requires Valid()
      modifies this
      ensures Valid()
      ensures r.Err? <==> old(HeaderError()).Some? || !AllAccepted(cls, version, old(scns))
      ensures r.Err? ==> old(HeaderError()) == Some(r.error) ||
                         (old(HeaderError()).None? && FirstError(cls, version, old(scns), r.error))
      ensures r.Ok? ==> data == old(ehdr.ident[5]) == ehdr.ident[5]
      ensures r.Ok? ==>
        var laid := LayOutSections(cls, version, old(scns), SectionsStart(cls, phnum));
        && r.value == TotalSize(cls, nscn, laid.1)
        && scns == ExtendedNumbers(cls, phnum, nscn, laid.0)
        && ehdr == NumberEhdr(InitEhdr(old(ehdr), cls, version), cls,
                              phnum, PhOff(cls, phnum), nscn, ShOff(cls, nscn, laid.1))
    {
      if version != EV_CURRENT {
        return Err(ErrVersion); // in _libelf_ehdr
      }
      var ehVersion := ehdr.version;
      if ehVersion == EV_NONE {
        ehVersion := EV_CURRENT;
      }
      if ehVersion != version {
        return Err(ErrVersion);
      }
      if ehdr.ident[4] != ClassCode(cls) {
        return Err(ErrClass);
      }
      data := ehdr.ident[5];
      ehdr := InitEhdr(ehdr, cls, ehVersion);
      var rc := EhdrSize(cls);
      var phoff := 0;
      if phnum != 0 {
        phoff := RoundUp(rc, HeaderAlign(cls));
        rc := phoff + PhdrTableSize(cls, phnum);
      }
      assert rc == SectionsStart(cls, phnum);
      var sections := ResyncSections(rc);
      if sections.Err? {
        return sections;
      }
      rc := sections.value;
      var shoff := 0;
      if nscn != 0 {
        shoff := RoundUp(rc, HeaderAlign(cls));
        rc := shoff + ShdrTableSize(cls, nscn);
      }
      scns := ExtendedNumbers(cls, phnum, nscn, scns);
      ehdr := NumberEhdr(ehdr, cls, phnum, phoff, nscn, shoff);
      r := Ok(rc);
    }
  }
}
