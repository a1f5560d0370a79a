/** _libelf_write_elf: filling the buffer that becomes the file, and elf_update as a whole. */
module ElfWriter {
  import opened Bytes
  import opened Options
  import opened ElfFormat
  import opened ElfLayout
  import opened ElfLayoutTheorems
  import opened ElfImage

  method Memset(nf: array<byte>, from: nat, to: nat, c: byte)
    requires from <= to <= nf.Length
    modifies nf
    ensures nf[..] == old(nf[..from]) + Fill(c, to - from) + old(nf[to..])
  {
    for k := from to to
      invariant nf[..] == old(nf[..from]) + Fill(c, k - from) + old(nf[k..])
    {
      nf[k] := c;
    }
  }

  method Memcpy(nf: array<byte>, at: nat, bytes: seq<byte>)
    requires at + |bytes| <= nf.Length
    modifies nf
    ensures nf[..] == old(nf[..at]) + bytes + old(nf[at + |bytes|..])
  {
    for k := 0 to |bytes|
      invariant nf[..] == old(nf[..at]) + bytes[..k] + old(nf[at + k..])
    {
      nf[at + k] := bytes[k];
    }
  }

  /** The first `rc` bytes of the buffer are the image of the regions `rs`. */
  ghost predicate Holds(buf: seq<byte>, rc: nat, rs: seq<Region>, fill: byte)
  {
    Laid(rs) && rc == EndOf(rs) <= |buf| && buf[..rc] == Paint(rs, fill)
  }

  /** Fill the gap from `rc` and translate one piece into place. */
  method Emit(nf: array<byte>, rc: nat, r: Region, fill: byte, ghost done: seq<Region>) returns (next: nat)
    requires Holds(nf[..], rc, done, fill) && rc <= r.at && r.at + |r.bytes| <= nf.Length
    modifies nf
    ensures next == r.at + |r.bytes| && Holds(nf[..], next, done + [r], fill)
  {
    LaidAppend(done, r);
    assert nf[..rc] == nf[..][..rc];
    if rc < r.at {
      Memset(nf, rc, r.at, fill);
    }
    assert nf[..r.at] == Paint(done, fill) + Fill(fill, r.at - rc);
    Memcpy(nf, r.at, r.bytes);
    next := r.at + |r.bytes|;
    assert (done + [r])[..|done|] == done;
    assert nf[..][..next] == nf[..r.at] + r.bytes;
  }

  /** _libelf_write_scn. A section without descriptors has no raw data to fall back on, because
      an object opened for writing has no underlying file. None stands for its error return and for
      its failed assertions. */
  method WriteScn(nf: array<byte>, cls: Class, s: Section, rc0: nat, fill: byte,
                  ghost done: seq<Region>, ghost end: nat) returns (r: Option<nat>)
    requires Holds(nf[..], rc0, done, fill)
    requires Occupies(s) ==> SectionFits(s, end) && rc0 <= s.offset <= end <= nf.Length
    modifies nf
    ensures r.Some? <==> Writable(s) && FileAligned(s, cls)
    ensures r.Some? ==> Holds(nf[..], r.value, done + SectionRegions(s), fill)
  {
    if !Occupies(s) {
      assert done + [] == done;
      return Some(rc0);
    }
    var elftype := XlateShtype(s.shdr.shType);
    if elftype.None? || s.offset % FileAlign(elftype.value, cls) != 0 {
      return None;
    }
    if s.data == [] {
      return None;
    }
    r := WriteDescriptors(nf, s, rc0, fill, done, end);
  }

  lemma DataRegionsStep(done: seq<Region>, s: Section, i: nat, end: nat)
    requires i < |s.data| && Translated(s.data, i) && s.data[i].file.Some? && SectionFits(s, end)
    ensures Translated(s.data, i + 1)
    ensures done + DataRegionsTo(s, i + 1) == (done + DataRegionsTo(s, i)) + [DataRegion(s, i)]
    ensures var next := DataRegion(s, i).at + |DataRegion(s, i).bytes|;
            next <= end && (i + 1 < |s.data| ==> next <= s.offset + s.data[i + 1].off)
  {
  }

  /** The descriptor loop of _libelf_write_scn. */
  method WriteDescriptors(nf: array<byte>, s: Section, rc0: nat, fill: byte, ghost done: seq<Region>, ghost end: nat)
    returns (r: Option<nat>)
    requires Holds(nf[..], rc0, done, fill) && rc0 <= s.offset <= end <= nf.Length
    requires SectionFits(s, end)
    modifies nf
    ensures r.Some? <==> Translated(s.data, |s.data|)
    ensures r.Some? ==> Holds(nf[..], r.value, done + DataRegionsTo(s, |s.data|), fill)
  {
    var rc: nat := rc0;
    ghost var sofar := done;
    for i := 0 to |s.data|
      invariant Translated(s.data, i)
      invariant sofar == done + DataRegionsTo(s, i)
      invariant Holds(nf[..], rc, sofar, fill)
      invariant i < |s.data| ==> rc <= s.offset + s.data[i].off
    {
      if s.data[i].file.None? {
        return None;
      }
      rc := WriteDescriptor(nf, s, i, rc, fill, done, end);
      sofar := done + DataRegionsTo(s, i + 1);
    }
    r := Some(rc);
  }

  method WriteDescriptor(nf: array<byte>, s: Section, i: nat, rc0: nat, fill: byte, ghost done: seq<Region>,
                         ghost end: nat) returns (rc: nat)
    requires SectionFits(s, end) && end <= nf.Length && i < |s.data| && s.data[i].file.Some? && Translated(s.data, i)
    requires Holds(nf[..], rc0, done + DataRegionsTo(s, i), fill) && rc0 <= s.offset + s.data[i].off
    modifies nf
    ensures Translated(s.data, i + 1) && Holds(nf[..], rc, done + DataRegionsTo(s, i + 1), fill)
    ensures i + 1 < |s.data| ==> rc <= s.offset + s.data[i + 1].off
  {
    DataRegionsStep(done, s, i, end);
    rc := Emit(nf, rc0, DataRegion(s, i), fill, done + DataRegionsTo(s, i));
  }

  lemma SectionFollows(base: seq<Region>, scns: seq<Section>, i: nat, start: nat, end: nat)
    requires Laid(base) && EndOf(base) <= start && Chained(scns, start, end)
    requires i < |scns| && AllWritable(scns[..i]) && Occupies(scns[i])
    ensures EndOf(base + ScnRegions(scns[..i])) <= scns[i].offset <= end && SectionFits(scns[i], end)
  {
    ChainedAt(scns, start, end, i);
    ScnRegionsLaid(base, scns[..i], start, scns[i].offset);
  }

  lemma ScnRegionsStep(base: seq<Region>, scns: seq<Section>, i: nat)
    requires i < |scns| && AllWritable(scns[..i]) && Writable(scns[i])
    ensures AllWritable(scns[..i + 1])
    ensures base + ScnRegions(scns[..i + 1]) == (base + ScnRegions(scns[..i])) + SectionRegions(scns[i])
  {
    var first := scns[..i + 1];
    assert first[..i] == scns[..i] && first[i] == scns[i];
    assert AllWritable(first);
    assert ScnRegions(first) == ScnRegions(first[..i]) + SectionRegions(first[i]);
    Associative(base, ScnRegions(scns[..i]), SectionRegions(scns[i]));
  }

  lemma Associative<T>(a: seq<T>, b: seq<T>, c: seq<T>)
    ensures a + (b + c) == (a + b) + c
  {
  }

  /** Every section can be written, and lies on the boundary of its type. */
  ghost predicate Acceptable(scns: seq<Section>, cls: Class) { AllWritable(scns) && AllFileAligned(scns, cls) }

  lemma AcceptableNext(scns: seq<Section>, cls: Class, i: nat)
    requires i < |scns| && Acceptable(scns[..i], cls)
    ensures Acceptable(scns[..i + 1], cls) <==> Writable(scns[i]) && FileAligned(scns[i], cls)
    ensures Acceptable(scns, cls) ==> Writable(scns[i]) && FileAligned(scns[i], cls)
  {
    var next := scns[..i + 1];
    assert next[i] == scns[i] && forall k :: 0 <= k < i ==> next[k] == scns[..i][k];
  }

  /** The section loop of _libelf_write_elf. */
  method WriteSections(nf: array<byte>, cls: Class, scns: seq<Section>, rc0: nat, fill: byte,
                       ghost base: seq<Region>, ghost start: nat, ghost end: nat) returns (r: Option<nat>)
    requires Holds(nf[..], rc0, base, fill) && rc0 <= start && end <= nf.Length
    requires Chained(scns, start, end)
    modifies nf
    ensures r.Some? <==> AllWritable(scns) && AllFileAligned(scns, cls)
    ensures r.Some? ==> rc0 <= r.value <= end && Holds(nf[..], r.value, base + ScnRegions(scns), fill)
  {
    var rc := rc0;
    ghost var sofar := base;
    assert base + ScnRegions(scns[..0]) == base;
    for i := 0 to |scns|
      invariant Acceptable(scns[..i], cls) && sofar == base + ScnRegions(scns[..i])
      invariant Holds(nf[..], rc, sofar, fill)
    {
      if Occupies(scns[i]) {
        SectionFollows(base, scns, i, start, end);
      }
      AcceptableNext(scns, cls, i);
      var next := WriteScn(nf, cls, scns[i], rc, fill, sofar, end);
      if next.None? {
        assert !Acceptable(scns, cls);
        return None;
      }
      ScnRegionsStep(base, scns, i);
      rc := next.value;
      sofar := base + ScnRegions(scns[..i + 1]);
    }
    assert scns[..|scns|] == scns;
    SectionsEnd(base, scns, start, end);
    r := Some(rc);
  }

  lemma SectionsEnd(base: seq<Region>, scns: seq<Section>, start: nat, end: nat)
    requires Laid(base) && EndOf(base) <= start && AllWritable(scns) && Chained(scns, start, end)
    ensures EndOf(base) <= EndOf(base + ScnRegions(scns)) <= end
  {
    ScnRegionsLaid(base, scns, start, end);
    LaidPrefix(base + ScnRegions(scns), |base|);
    assert (base + ScnRegions(scns))[..|base|] == base;
  }

  lemma TableStep(base: seq<Region>, scns: seq<Section>, shoff: nat, cls: Class, order: ByteOrder, i: nat)
    requires i < |scns|
    ensures var r := TableRegion(scns, shoff, cls, order, i);
            && r.at == shoff + ShdrTableSize(cls, i)
            && r.at + |r.bytes| == shoff + ShdrTableSize(cls, i + 1)
            && base + TableTo(scns, shoff, cls, order, i + 1) == (base + TableTo(scns, shoff, cls, order, i)) + [r]
  {
    var r := TableRegion(scns, shoff, cls, order, i);
    assert TableTo(scns, shoff, cls, order, i + 1) == TableTo(scns, shoff, cls, order, i) + [r];
    Associative(base, TableTo(scns, shoff, cls, order, i), [r]);
  }

  /** The section header table loop of _libelf_write_elf. */
  method WriteTable(nf: array<byte>, scns: seq<Section>, shoff: nat, cls: Class, order: ByteOrder,
                    rc0: nat, fill: byte, ghost base: seq<Region>) returns (rc: nat)
    requires scns != [] && Holds(nf[..], rc0, base, fill) && rc0 <= shoff
    requires shoff + ShdrTableSize(cls, |scns|) <= nf.Length
    modifies nf
    ensures rc == shoff + ShdrTableSize(cls, |scns|)
    ensures Holds(nf[..], rc, base + TableTo(scns, shoff, cls, order, |scns|), fill)
  {
    assert base + TableTo(scns, shoff, cls, order, 0) == base;
    rc := WriteEntry(nf, scns, shoff, cls, order, 0, rc0, fill, base);
    for i := 1 to |scns|
      invariant rc == shoff + ShdrTableSize(cls, i)
      invariant Holds(nf[..], rc, base + TableTo(scns, shoff, cls, order, i), fill)
    {
      rc := WriteEntry(nf, scns, shoff, cls, order, i, rc, fill, base);
    }
  }

  method WriteEntry(nf: array<byte>, scns: seq<Section>, shoff: nat, cls: Class, order: ByteOrder, i: nat,
                    rc0: nat, fill: byte, ghost base: seq<Region>) returns (rc: nat)
    requires i < |scns| && Holds(nf[..], rc0, base + TableTo(scns, shoff, cls, order, i), fill)
    requires rc0 <= shoff + ShdrTableSize(cls, i) && shoff + ShdrTableSize(cls, i + 1) <= nf.Length
    modifies nf
    ensures rc == shoff + ShdrTableSize(cls, i + 1)
    ensures Holds(nf[..], rc, base + TableTo(scns, shoff, cls, order, i + 1), fill)
  {
    TableStep(base, scns, shoff, cls, order, i);
    rc := Emit(nf, rc0, TableRegion(scns, shoff, cls, order, i), fill, base + TableTo(scns, shoff, cls, order, i));
  }

  // ---------------------------------------------------------------- the whole object

  /** What a successful _libelf_resync_elf leaves for the writer; `end` is the end of the sections. */
  ghost predicate Ready(e: ElfObject, end: nat, newsize: nat)
    reads e
  {
    e.Valid() && ReadyValues(e.cls, e.phnum, e.nscn, e.ehdr, e.scns, end, newsize)
  }

  ghost predicate ReadyValues(cls: Class, phnum: nat, nscn: nat, h: Ehdr, scns: seq<Section>, end: nat, newsize: nat)
  {
    var start := SectionsStart(cls, phnum);
    && Chained(scns, start, end)
    && newsize == TotalSize(cls, nscn, end)
    && h.phoff == PhOff(cls, phnum)
    && h.shoff == Stored(cls, ShOff(cls, nscn, end))
    && h.shnum == (if nscn >= SHN_LORESERVE then 0 else nscn)
    && (nscn > 0 ==> |scns| == nscn)
    && (nscn == 0 ==> end == start)
  }

  /** The part of _libelf_write_elf that translates the executable header, which fails on a byte order that
      _libelf_xlate does not know, and copies the program header table. */
  method WriteHeaders(nf: array<byte>, e: ElfObject, fill: byte) returns (r: Option<nat>)
    requires e.Valid() && SectionsStart(e.cls, e.phnum) <= nf.Length && e.ehdr.phoff == PhOff(e.cls, e.phnum)
    modifies nf
    ensures r.Some? <==> Encoding(e.data, e.host).Some?
    ensures r.Some? ==>
      && r.value == SectionsStart(e.cls, e.phnum)
      && Holds(nf[..], r.value, HeaderRegions(e.ehdr, e.cls, Encoding(e.data, e.host).value, e.phnum, e.phdrs), fill)
  {
    HeaderTablesPlaced(e.cls, e.phnum, 0, 0);
    var order := Encoding(e.data, e.host);
    if order.None? {
      return None;
    }
    var header := EncodeEhdr(e.ehdr, e.cls, order.value);
    var rc := Emit(nf, 0, Region(0, header), fill, []);
    assert [] + [Region(0, header)] == [Region(0, header)];
    if e.phnum != 0 && e.ehdr.phoff != 0 {
      // The table is written at `rc`; that this is e_phoff needs the layout to be the library's own.
      rc := Emit(nf, rc, Region(rc, e.phdrs), fill, [Region(0, header)]);
    }
    r := Some(rc);
  }

  /** The section header table fits where the executable header can say: there is none, or its offset is not
      cut off by a 32-bit field and its length not by the 16-bit count. */
  predicate TableFits(cls: Class, nscn: nat, end: nat)
  {
    nscn == 0 || (nscn < SHN_LORESERVE && ShOff(cls, nscn, end) < FieldLimit(cls))
  }

  /** The table loop when e_shoff is a truncated offset: it overwrites what is there. */
  method OverwriteTable(nf: array<byte>, scns: seq<Section>, shoff: nat, cls: Class, order: ByteOrder) returns (rc: nat)
    requires shoff + ShdrTableSize(cls, |scns|) <= nf.Length
    modifies nf
    ensures rc == shoff + ShdrTableSize(cls, |scns|)
  {
    rc := shoff;
    for i := 0 to |scns|
      invariant rc == shoff + ShdrTableSize(cls, i)
    {
      TableSizeNext(cls, i);
      TableSizeGrows(cls, i + 1, |scns|);
      Memcpy(nf, rc, EncodeShdr(scns[i].shdr, cls, order));
      rc := rc + ShdrSize(cls);
    }
  }

  /** The table part of _libelf_write_elf with its two assertions: the table is put where e_shoff says, and the
      end reached must be the computed size. */
  method WriteTablePart(nf: array<byte>, e: ElfObject, order: ByteOrder, newsize: nat, rc0: nat, fill: byte,
                        ghost end: nat, ghost written: seq<Region>) returns (ok: bool)
    requires Ready(e, end, newsize) && nf.Length == newsize < OFF_MAX && rc0 <= end
    requires Holds(nf[..], rc0, written, fill)
    requires e.nscn == 0 ==> rc0 == end
    modifies nf
    ensures ok <==> TableFits(e.cls, e.nscn, end)
    ensures ok ==> Holds(nf[..], newsize, written + Table(e.ehdr, e.cls, order, e.scns), fill)
  {
    HeaderTablesPlaced(e.cls, e.phnum, e.nscn, end);
    ChainedAscends(e.scns, SectionsStart(e.cls, e.phnum), end);
    assert e.nscn > 0 ==> 0 < end <= ShOff(e.cls, e.nscn, end) < newsize;
    StoredIff(e.cls, ShOff(e.cls, e.nscn, end));
    var rc, shoff := rc0, e.ehdr.shoff;
    assert written + [] == written;
    if e.ehdr.shnum != 0 && shoff != 0 {
      if rc % 0x1_0000_0000 > shoff {
        return false; // the comparison is of unsigned ints
      }
      if rc <= shoff {
        rc := WriteTable(nf, e.scns, shoff, e.cls, order, rc, fill, written);
      } else {
        rc := OverwriteTable(nf, e.scns, shoff, e.cls, order);
      }
    }
    ok := rc == newsize;
  }

  /** _libelf_write_elf up to its final assertion. */
  method WriteElf(e: ElfObject, newsize: nat, fill: byte, ghost end: nat) returns (ok: bool, nf: array<byte>)
    requires Ready(e, end, newsize) && newsize < OFF_MAX
    ensures fresh(nf) && nf.Length == newsize
    ensures ok <==> && Encoding(e.data, e.host).Some?
                    && AllWritable(e.scns) && AllFileAligned(e.scns, e.cls) && TableFits(e.cls, e.nscn, end)
    ensures ok ==>
      var order := Encoding(e.data, e.host).value;
      Holds(nf[..], newsize, ObjectRegions(e.ehdr, e.cls, order, e.phnum, e.phdrs, e.scns), fill)
  {
    nf := new byte[newsize];
    HeaderTablesPlaced(e.cls, e.phnum, e.nscn, end);
    ChainedAscends(e.scns, SectionsStart(e.cls, e.phnum), end);
    var rc := WriteHeaders(nf, e, fill);
    if rc.None? {
      return false, nf;
    }
    var order := Encoding(e.data, e.host).value;
    ghost var base := HeaderRegions(e.ehdr, e.cls, order, e.phnum, e.phdrs);
    var r := WriteSections(nf, e.cls, e.scns, rc.value, fill, base, SectionsStart(e.cls, e.phnum), end);
    if r.None? {
      return false, nf;
    }
    ok := WriteTablePart(nf, e, order, newsize, r.value, fill, end, base + ScnRegions(e.scns));
  }

  lemma {:induction false} ChainedAscends(scns: seq<Section>, start: nat, end: nat)
    requires Chained(scns, start, end)
    ensures start <= end
  {
    if scns != [] {
      var n := |scns| - 1;
      ChainedAscends(scns[..n], start, if Occupies(scns[n]) then scns[n].offset else end);
    }
  }

  /** Sizes are computed in off_t, which has 64 bits with a sign. */
  const OFF_MAX := 0x8000_0000_0000_0000

  lemma {:induction false} NothingToPlace(cls: Class, version: nat, scns: seq<Section>, start: nat)
    requires AllAccepted(cls, version, scns) && forall i :: 0 <= i < |scns| ==> !Occupies(scns[i])
    ensures LayOutSections(cls, version, scns, start).1 == start
  {
    if scns != [] {
      NothingToPlace(cls, version, scns[..|scns| - 1], start);
    }
  }

  lemma ExtendedIsChained(cls: Class, phnum: nat, nscn: nat, scns: seq<Section>, start: nat, end: nat)
    requires Chained(scns, start, end)
    ensures Chained(ExtendedNumbers(cls, phnum, nscn, scns), start, end)
  {
    var ext := ExtendedNumbers(cls, phnum, nscn, scns);
    if |ext| == |scns| {
      ChainedSame(scns, ext, start, end);
    } else {
      assert ext[..0] == [] == scns;
    }
  }

  /** The computed size of the file does not overflow off_t. */
  ghost predicate SizeFits(cls: Class, version: nat, phnum: nat, nscn: nat, scns: seq<Section>)
  {
    AllAccepted(cls, version, scns) ==>
      TotalSize(cls, nscn, LayOutSections(cls, version, scns, SectionsStart(cls, phnum)).1) < OFF_MAX
  }

  lemma LaidIsReady(cls: Class, phnum: nat, nscn: nat, h: Ehdr, laid: seq<Section>, end: nat)
    requires Chained(laid, SectionsStart(cls, phnum), end)
    requires nscn == |laid| || nscn == 0
    requires nscn == 0 ==> end == SectionsStart(cls, phnum)
    ensures ReadyValues(cls, phnum, nscn, NumberEhdr(h, cls, phnum, PhOff(cls, phnum), nscn, ShOff(cls, nscn, end)),
                        ExtendedNumbers(cls, phnum, nscn, laid), end, TotalSize(cls, nscn, end))
  {
    var start := SectionsStart(cls, phnum);
    HeaderTablesPlaced(cls, phnum, nscn, end);
    assert Stored(cls, PhOff(cls, phnum)) == PhOff(cls, phnum);
    ExtendedIsChained(cls, phnum, nscn, laid, start, end);
  }

  lemma ResyncReady(cls: Class, version: nat, phnum: nat, nscn: nat, h: Ehdr, scns: seq<Section>)
    requires AllAccepted(cls, version, scns) && TranslationsOk(scns, cls)
    requires nscn == |scns| || (nscn == 0 && forall i :: 0 <= i < |scns| ==> !Occupies(scns[i]))
    ensures var (laid, end) := LayOutSections(cls, version, scns, SectionsStart(cls, phnum));
            ReadyValues(cls, phnum, nscn, NumberEhdr(h, cls, phnum, PhOff(cls, phnum), nscn, ShOff(cls, nscn, end)),
                        ExtendedNumbers(cls, phnum, nscn, laid), end, TotalSize(cls, nscn, end))
  {
    var start := SectionsStart(cls, phnum);
    var (laid, end) := LayOutSections(cls, version, scns, start);
    LayoutIsChained(cls, version, scns, start);
    if nscn == 0 {
      NothingToPlace(cls, version, scns, start);
    }
    LaidIsReady(cls, phnum, nscn, h, laid, end);
  }

  /** The executable header and the sections after _libelf_resync_elf. */
  ghost function Updated(cls: Class, version: nat, phnum: nat, nscn: nat, h: Ehdr, scns: seq<Section>): (Ehdr, seq<Section>)
    requires |h.ident| == 16 && AllAccepted(cls, version, scns)
  {
    var (laid, end) := LayOutSections(cls, version, scns, SectionsStart(cls, phnum));
    (NumberEhdr(InitEhdr(h, cls, version), cls, phnum, PhOff(cls, phnum), nscn, ShOff(cls, nscn, end)),
     ExtendedNumbers(cls, phnum, nscn, laid))
  }

  /** The size that _libelf_resync_elf computes. */
  ghost function UpdatedSize(cls: Class, version: nat, phnum: nat, nscn: nat, scns: seq<Section>): nat
    requires AllAccepted(cls, version, scns)
  {
    TotalSize(cls, nscn, LayOutSections(cls, version, scns, SectionsStart(cls, phnum)).1)
  }

  /** _libelf_resync_elf leaves the object ready for the writer. */
  method Resync(e: ElfObject) returns (r: Result<nat>, ghost end: nat)
    requires e.Valid() && TranslationsOk(e.scns, e.cls)
    modifies e
    ensures e.Valid()
    ensures r.Ok? <==> old(e.HeaderError()).None? && AllAccepted(e.cls, e.version, old(e.scns))
    ensures r.Err? ==> old(e.HeaderError()) == Some(r.error) ||
                       (old(e.HeaderError()).None? && FirstError(e.cls, e.version, old(e.scns), r.error))
    ensures r.Ok? ==>
      && end == LayOutSections(e.cls, e.version, old(e.scns), SectionsStart(e.cls, e.phnum)).1
      && Ready(e, end, r.value)
      && e.data == old(e.ehdr.ident[5])
      && (e.ehdr, e.scns) == Updated(e.cls, e.version, e.phnum, e.nscn, old(e.ehdr), old(e.scns))
  {
    ghost var scns, h := e.scns, InitEhdr(e.ehdr, e.cls, e.version);
    r := e.ResyncElf();
    end := 0;
    if r.Ok? {
      ResyncReady(e.cls, e.version, e.phnum, e.nscn, h, scns);
      end := LayOutSections(e.cls, e.version, scns, SectionsStart(e.cls, e.phnum)).1;
    }
  }

  /** What elf_update needs of an object, all of it settled before the call: its sections are accepted, have
      data that can be translated, are laid out on the boundaries of their types, and leave a section header
      table whose offset and length the executable header can hold. */
  ghost predicate CanWrite(cls: Class, version: nat, phnum: nat, nscn: nat, scns: seq<Section>)
  {
    && AllAccepted(cls, version, scns) && AllWritable(scns)
    && var (laid, end) := LayOutSections(cls, version, scns, SectionsStart(cls, phnum));
    && AllFileAligned(laid, cls) && TableFits(cls, nscn, end)
  }

  /** For natural sections with data, only the section header table can stand in the way. */
  lemma NaturalCanWrite(cls: Class, version: nat, phnum: nat, nscn: nat, scns: seq<Section>)
    requires AllAccepted(cls, version, scns) && AllWritable(scns)
    requires forall i :: 0 <= i < |scns| ==> Natural(cls, scns[i])
    ensures CanWrite(cls, version, phnum, nscn, scns)
            <==> TableFits(cls, nscn, LayOutSections(cls, version, scns, SectionsStart(cls, phnum)).1)
  {
    NaturalSectionsAligned(cls, version, scns, SectionsStart(cls, phnum));
  }

  lemma WritableKept(cls: Class, version: nat, scns: seq<Section>, start: nat, i: nat)
    requires AllAccepted(cls, version, scns) && i < |scns|
    ensures Writable(LayOutSections(cls, version, scns, start).0[i]) <==> Writable(scns[i])
  {
    LayOutAt(cls, version, scns, start, i);
    if Occupies(scns[i]) {
      SectionPlacement(cls, version, scns[i], LayOutSections(cls, version, scns[..i], start).1);
    }
  }

  /** Filling in extended numbers changes nothing that the writer asks about. */
  lemma ExtendedKept(cls: Class, phnum: nat, nscn: nat, scns: seq<Section>)
    ensures AllWritable(ExtendedNumbers(cls, phnum, nscn, scns)) <==> AllWritable(scns)
    ensures AllFileAligned(ExtendedNumbers(cls, phnum, nscn, scns), cls) <==> AllFileAligned(scns, cls)
  {
    var ext := ExtendedNumbers(cls, phnum, nscn, scns);
    forall i | 0 <= i < |scns|
      ensures Writable(ext[i]) == Writable(scns[i]) && FileAligned(ext[i], cls) == FileAligned(scns[i], cls)
    {
    }
    assert |ext| > |scns| ==> scns == [] && |ext| == 1 && !Occupies(ext[0]);
  }

  lemma CanWriteUpdated(cls: Class, version: nat, phnum: nat, nscn: nat, h: Ehdr, scns: seq<Section>)
    requires |h.ident| == 16 && AllAccepted(cls, version, scns)
    ensures var u := Updated(cls, version, phnum, nscn, h, scns).1;
            var end := LayOutSections(cls, version, scns, SectionsStart(cls, phnum)).1;
            CanWrite(cls, version, phnum, nscn, scns)
            <==> AllWritable(u) && AllFileAligned(u, cls) && TableFits(cls, nscn, end)
  {
    var start := SectionsStart(cls, phnum);
    var laid := LayOutSections(cls, version, scns, start).0;
    ExtendedKept(cls, phnum, nscn, laid);
    forall i | 0 <= i < |scns|
      ensures Writable(laid[i]) == Writable(scns[i])
    {
      WritableKept(cls, version, scns, start, i);
    }
  }

  /** elf_update(e, ELF_C_WRITE): the file image of the object. It succeeds exactly when the headers are
      accepted, the byte order in e_ident is a known one or unset, and the object can be written; the image then
      has the computed size, each header, descriptor and table entry holds its own bytes at its assigned offset,
      and every gap byte is the fill character. */
  method ElfUpdate(e: ElfObject, fill: byte) returns (r: Result<nat>, img: array<byte>)
    requires e.Valid() && TranslationsOk(e.scns, e.cls)
    requires SizeFits(e.cls, e.version, e.phnum, e.nscn, e.scns)
    modifies e
    ensures e.Valid()
    ensures r.Ok? <==>
      && old(e.HeaderError()).None? && Encoding(old(e.ehdr.ident[5]), e.host).Some?
      && CanWrite(e.cls, e.version, e.phnum, e.nscn, old(e.scns))
    ensures r.Err? && (old(e.HeaderError()).Some? || !AllAccepted(e.cls, e.version, old(e.scns))) ==>
      old(e.HeaderError()) == Some(r.error) ||
      (old(e.HeaderError()).None? && FirstError(e.cls, e.version, old(e.scns), r.error))
    ensures r.Ok? ==>
      && (e.ehdr, e.scns) == Updated(e.cls, e.version, e.phnum, e.nscn, old(e.ehdr), old(e.scns))
      && AllWritable(e.scns)
      && var order := Encoding(old(e.ehdr.ident[5]), e.host).value;
         var rs := ObjectRegions(e.ehdr, e.cls, order, e.phnum, e.phdrs, e.scns);
         && Laid(rs) && Painted(img[..], rs, fill) && img.Length == r.value == EndOf(rs)
         && r.value == UpdatedSize(e.cls, e.version, e.phnum, e.nscn, old(e.scns))
  {
    ghost var h, scns := e.ehdr, e.scns;
    img := new byte[0];
    ghost var end;
    r, end := Resync(e);
    if r.Ok? {
      CanWriteUpdated(e.cls, e.version, e.phnum, e.nscn, h, scns);
      var ok;
      ok, img := WriteElf(e, r.value, fill, end);
      if !ok {
        r := Err(ErrData);
      } else {
        assert img[..][..r.value] == img[..];
        PaintIsPainted(ObjectRegions(e.ehdr, e.cls, Encoding(e.data, e.host).value, e.phnum, e.phdrs, e.scns), fill);
      }
    }
  }

  /** The packed sections of PackedIsMisaligned cannot be written, although all their parts are in order. */
  lemma PackedCannotBeWritten(b: byte, w: seq<byte>)
    requires |w| == 4
    ensures var scns := PackedSections([b], w);
            && AllAccepted(Class64, EV_CURRENT, scns) && TranslationsOk(scns, Class64) && AllWritable(scns)
            && !CanWrite(Class64, EV_CURRENT, 0, 3, scns)
  {
    var scns := PackedSections([b], w);
    PackedIsMisaligned([b], w);
    forall i, k | 0 <= i < |scns| && 0 <= k < |scns[i].data|
      ensures TranslationOk(scns[i].data[k], Class64)
    {
      var d := scns[i].data[k];
      assert d.size == 1 * MemSize(d.elfType, Class64) && |d.file.value| == 1 * FileSize(d.elfType, Class64);
    }
  }
}
