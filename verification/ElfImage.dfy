/** The file image that _libelf_write_elf builds from a laid-out object. An image is specified by
    the regions that hold bytes; all the other bytes are the fill character. */
module ElfImage {
  import opened Bytes
  import opened Options
  import opened ElfFormat
  import opened ElfLayout
  import opened ElfLayoutTheorems

  datatype Region = Region(at: nat, bytes: seq<byte>)

  function EndOf(rs: seq<Region>): nat
  {
    if rs == [] then 0 else rs[|rs| - 1].at + |rs[|rs| - 1].bytes|
  }

  /** The regions are in ascending order and do not overlap. */
  ghost predicate Laid(rs: seq<Region>)
  {
    rs == [] || (Laid(rs[..|rs| - 1]) && EndOf(rs[..|rs| - 1]) <= rs[|rs| - 1].at)
  }

  /** The image up to the end of the last region. */
  ghost function Paint(rs: seq<Region>, fill: byte): (img: seq<byte>)
    requires Laid(rs)
    ensures |img| == EndOf(rs)
  {
    if rs == [] then []
    else
      var before := Paint(rs[..|rs| - 1], fill);
      var last := rs[|rs| - 1];
      before + Fill(fill, last.at - |before|) + last.bytes
  }

  predicate Covers(r: Region, k: int) { r.at <= k < r.at + |r.bytes| }

  /** The image has the region's bytes at its place. */
  ghost predicate Has(img: seq<byte>, r: Region)
  {
    r.at + |r.bytes| <= |img| && img[r.at..r.at + |r.bytes|] == r.bytes
  }

  /** Every region holds its own bytes, and every other byte of the image is the fill character. */
  ghost predicate Painted(img: seq<byte>, rs: seq<Region>, fill: byte)
  {
    && (forall i :: 0 <= i < |rs| ==> Has(img, rs[i]))
    && (forall k :: 0 <= k < |img| && (forall i :: 0 <= i < |rs| ==> !Covers(rs[i], k)) ==> img[k] == fill)
  }

  lemma HasLonger(before: seq<byte>, img: seq<byte>, r: Region)
    requires Has(before, r) && |before| <= |img| && img[..|before|] == before
    ensures Has(img, r)
  {
    assert img[r.at..r.at + |r.bytes|] == img[..|before|][r.at..r.at + |r.bytes|];
  }

  /** The last region and the gap before it. */
  lemma PaintLast(rs: seq<Region>, fill: byte)
    requires Laid(rs) && rs != []
    ensures var (before, img, last) := (Paint(rs[..|rs| - 1], fill), Paint(rs, fill), rs[|rs| - 1]);
            && |before| <= last.at && img[..|before|] == before && Has(img, last)
            && forall k :: |before| <= k < last.at ==> img[k] == fill
  {
  }

  lemma {:induction false} RegionsPainted(rs: seq<Region>, fill: byte, i: nat)
    requires Laid(rs) && i < |rs|
    ensures Has(Paint(rs, fill), rs[i])
  {
    PaintLast(rs, fill);
    var n := |rs| - 1;
    if i < n {
      RegionsPainted(rs[..n], fill, i);
      HasLonger(Paint(rs[..n], fill), Paint(rs, fill), rs[i]);
    }
  }

  lemma {:induction false} GapsPainted(rs: seq<Region>, fill: byte, k: nat)
    requires Laid(rs) && k < |Paint(rs, fill)| && forall i :: 0 <= i < |rs| ==> !Covers(rs[i], k)
    ensures Paint(rs, fill)[k] == fill
  {
    PaintLast(rs, fill);
    var n := |rs| - 1;
    var before := Paint(rs[..n], fill);
    assert !Covers(rs[n], k);
    if k < |before| {
      GapsPainted(rs[..n], fill, k);
      assert Paint(rs, fill)[k] == Paint(rs, fill)[..|before|][k];
    }
  }

  lemma PaintIsPainted(rs: seq<Region>, fill: byte)
    requires Laid(rs)
    ensures Painted(Paint(rs, fill), rs, fill)
  {
    forall i | 0 <= i < |rs|
      ensures Has(Paint(rs, fill), rs[i])
    {
      RegionsPainted(rs, fill, i);
    }
    forall k | 0 <= k < |Paint(rs, fill)| && (forall i :: 0 <= i < |rs| ==> !Covers(rs[i], k))
      ensures Paint(rs, fill)[k] == fill
    {
      GapsPainted(rs, fill, k);
    }
  }

  lemma {:induction false} LaidPrefix(rs: seq<Region>, k: nat)
    requires Laid(rs) && k <= |rs|
    ensures Laid(rs[..k]) && EndOf(rs[..k]) <= EndOf(rs)
  {
    if k < |rs| {
      LaidPrefix(rs[..|rs| - 1], k);
      assert rs[..|rs| - 1][..k] == rs[..k];
    } else {
      assert rs[..k] == rs;
    }
  }

  lemma LaidAppend(rs: seq<Region>, r: Region)
    requires Laid(rs) && EndOf(rs) <= r.at
    ensures Laid(rs + [r]) && EndOf(rs + [r]) == r.at + |r.bytes|
  {
    assert (rs + [r])[..|rs|] == rs;
  }

  // ---------------------------------------------------------------- the regions of an object

  /** What _libelf_xlate promises of a translation: at least one whole element, in file size. */
  ghost predicate TranslationOk(d: Descriptor, cls: Class)
  {
    d.file.Some? ==>
      var m := MemSize(d.elfType, cls);
      exists n :: 0 < n && d.size == n * m && |d.file.value| == n * FileSize(d.elfType, cls)
  }

  lemma FileFitsInMemorySize(d: Descriptor, cls: Class)
    requires TranslationOk(d, cls) && d.file.Some?
    ensures |d.file.value| <= d.size
  {
    var m := MemSize(d.elfType, cls);
    var n :| 0 < n && d.size == n * m && |d.file.value| == n * FileSize(d.elfType, cls);
    assert n * FileSize(d.elfType, cls) <= n * m;
  }

  /** The section can be written: it has data and every descriptor can be translated. */
  predicate Writable(s: Section)
  {
    Occupies(s) ==> s.data != [] && Translated(s.data, |s.data|)
  }

  predicate Translated(data: seq<Descriptor>, k: nat)
    requires k <= |data|
  {
    forall i :: 0 <= i < k ==> data[i].file.Some?
  }

  predicate AllWritable(scns: seq<Section>)
  {
    forall i :: 0 <= i < |scns| ==> Writable(scns[i])
  }

  function DataRegion(s: Section, k: nat): Region
    requires k < |s.data| && s.data[k].file.Some?
  {
    Region(s.offset + s.data[k].off, s.data[k].file.value)
  }

  /** The regions of the first `k` descriptors. */
  function DataRegionsTo(s: Section, k: nat): (rs: seq<Region>)
    requires k <= |s.data| && Translated(s.data, k)
    ensures |rs| == k
  {
    if k == 0 then [] else DataRegionsTo(s, k - 1) + [DataRegion(s, k - 1)]
  }

  function SectionRegions(s: Section): seq<Region>
    requires Writable(s)
  {
    if Occupies(s) then DataRegionsTo(s, |s.data|) else []
  }

  function ScnRegions(scns: seq<Section>): seq<Region>
    requires AllWritable(scns)
  {
    if scns == [] then []
    else ScnRegions(scns[..|scns| - 1]) + SectionRegions(scns[|scns| - 1])
  }

  function TableRegion(scns: seq<Section>, shoff: nat, cls: Class, order: ByteOrder, k: nat): Region
    requires k < |scns|
  {
    Region(shoff + ShdrTableSize(cls, k), EncodeShdr(scns[k].shdr, cls, order))
  }

  /** The first `k` entries of the section header table. */
  function TableTo(scns: seq<Section>, shoff: nat, cls: Class, order: ByteOrder, k: nat): (rs: seq<Region>)
    requires k <= |scns|
    ensures |rs| == k
  {
    if k == 0 then [] else TableTo(scns, shoff, cls, order, k - 1) + [TableRegion(scns, shoff, cls, order, k - 1)]
  }

  function HeaderRegions(h: Ehdr, cls: Class, order: ByteOrder, phnum: nat, phdrs: seq<byte>): seq<Region>
    requires |h.ident| == 16
  {
    [Region(0, EncodeEhdr(h, cls, order))]
    + if phnum == 0 then [] else [Region(PhOff(cls, phnum), phdrs)]
  }

  /** The section header table, which is there when e_shnum is not zero. */
  function Table(h: Ehdr, cls: Class, order: ByteOrder, scns: seq<Section>): seq<Region>
  {
    if h.shnum == 0 then [] else TableTo(scns, h.shoff, cls, order, |scns|)
  }

  /** Everything the file holds. */
  function ObjectRegions(h: Ehdr, cls: Class, order: ByteOrder, phnum: nat, phdrs: seq<byte>, scns: seq<Section>)
    : seq<Region>
    requires |h.ident| == 16 && AllWritable(scns)
  {
    HeaderRegions(h, cls, order, phnum, phdrs) + ScnRegions(scns) + Table(h, cls, order, scns)
  }

  // ---------------------------------------------------------------- from layout to regions

  /** A section's descriptors are in order and end by `end`; their translations fit. */
  ghost predicate SectionFits(s: Section, end: nat)
  {
    && (forall i :: 0 <= i < |s.data| ==>
          && s.offset + s.data[i].off + s.data[i].size <= end
          && (s.data[i].file.Some? ==> |s.data[i].file.value| <= s.data[i].size))
    && (forall i, j :: 0 <= i < j < |s.data| ==> s.data[i].off + s.data[i].size <= s.data[j].off)
  }

  lemma DescriptorEnd(s: Section, k: nat, end: nat)
    requires SectionFits(s, end) && k < |s.data| && s.data[k].file.Some?
    ensures var e := DataRegion(s, k).at + |DataRegion(s, k).bytes|;
            e <= end && (k + 1 < |s.data| ==> e <= s.offset + s.data[k + 1].off)
  {
  }

  lemma {:induction false} DataRegionsLaid(done: seq<Region>, s: Section, k: nat, end: nat)
    requires Laid(done) && Occupies(s) && Writable(s) && k <= |s.data|
    requires SectionFits(s, end) && EndOf(done) <= s.offset <= end
    ensures Laid(done + DataRegionsTo(s, k)) && EndOf(done + DataRegionsTo(s, k)) <= end
    ensures k < |s.data| ==> EndOf(done + DataRegionsTo(s, k)) <= s.offset + s.data[k].off
    decreases k
  {
    if k == 0 {
      assert done + DataRegionsTo(s, 0) == done;
    } else {
      DataRegionsLaid(done, s, k - 1, end);
      var prev, r := done + DataRegionsTo(s, k - 1), DataRegion(s, k - 1);
      assert done + DataRegionsTo(s, k) == prev + [r];
      LaidAppend(prev, r);
      DescriptorEnd(s, k - 1, end);
    }
  }

  /** The file-occupying sections follow each other between `start` and `end`. */
  ghost predicate Chained(scns: seq<Section>, start: nat, end: nat)
  {
    if scns == [] then start <= end
    else
      var init, s := scns[..|scns| - 1], scns[|scns| - 1];
      if Occupies(s) then Chained(init, start, s.offset) && s.offset <= end && SectionFits(s, end)
      else Chained(init, start, end)
  }

  lemma {:induction false} ChainedWeaken(scns: seq<Section>, start: nat, end: nat, later: nat)
    requires Chained(scns, start, end) && end <= later
    ensures Chained(scns, start, later)
  {
    if scns != [] && !Occupies(scns[|scns| - 1]) {
      ChainedWeaken(scns[..|scns| - 1], start, end, later);
    }
  }

  lemma {:induction false} ScnRegionsLaid(done: seq<Region>, scns: seq<Section>, start: nat, end: nat)
    requires Laid(done) && EndOf(done) <= start && AllWritable(scns) && Chained(scns, start, end)
    ensures Laid(done + ScnRegions(scns)) && EndOf(done + ScnRegions(scns)) <= end
  {
    if scns == [] {
      assert done + ScnRegions(scns) == done;
    } else {
      var init, s := scns[..|scns| - 1], scns[|scns| - 1];
      assert done + ScnRegions(scns) == (done + ScnRegions(init)) + SectionRegions(s);
      if Occupies(s) {
        ScnRegionsLaid(done, init, start, s.offset);
        DataRegionsLaid(done + ScnRegions(init), s, |s.data|, end);
      } else {
        ScnRegionsLaid(done, init, start, end);
        assert (done + ScnRegions(init)) + SectionRegions(s) == done + ScnRegions(init);
      }
    }
  }

  lemma {:induction false} ChainedAt(scns: seq<Section>, start: nat, end: nat, i: nat)
    requires Chained(scns, start, end) && i < |scns| && Occupies(scns[i])
    ensures Chained(scns[..i], start, scns[i].offset) && scns[i].offset <= end && SectionFits(scns[i], end)
  {
    var n := |scns| - 1;
    if i < n {
      assert scns[..n][..i] == scns[..i];
      ChainedAt(scns[..n], start, if Occupies(scns[n]) then scns[n].offset else end, i);
    }
  }

  /** Chained looks only at where the sections and their descriptors are. */
  lemma {:induction false} ChainedSame(a: seq<Section>, b: seq<Section>, start: nat, end: nat)
    requires Chained(a, start, end) && |a| == |b|
    requires forall i :: 0 <= i < |a| ==>
      Occupies(b[i]) == Occupies(a[i]) && b[i].offset == a[i].offset && b[i].data == a[i].data
    ensures Chained(b, start, end)
  {
    if a != [] {
      var n := |a| - 1;
      ChainedSame(a[..n], b[..n], start, if Occupies(a[n]) then a[n].offset else end);
    }
  }

  ghost predicate TranslationsOk(scns: seq<Section>, cls: Class)
  {
    forall i, k :: 0 <= i < |scns| && 0 <= k < |scns[i].data| ==> TranslationOk(scns[i].data[k], cls)
  }

  lemma LaidOutFits(cls: Class, version: nat, s: Section, rc: nat)
    requires SectionError(cls, version, s).None? && Occupies(s) && TranslationsOk([s], cls)
    ensures var (t, end) := LayOutSection(cls, version, s, rc);
            rc <= t.offset <= end && SectionFits(t, end)
  {
    SectionPlacement(cls, version, s, rc);
    var (t, end) := LayOutSection(cls, version, s, rc);
    forall i | 0 <= i < |t.data| && t.data[i].file.Some?
      ensures |t.data[i].file.value| <= t.data[i].size
    {
      assert TranslationOk([s][0].data[i], cls);
      FileFitsInMemorySize(s.data[i], cls);
    }
  }

  lemma {:induction false} LayoutIsChained(cls: Class, version: nat, scns: seq<Section>, start: nat)
    requires AllAccepted(cls, version, scns) && TranslationsOk(scns, cls)
    ensures Chained(LayOutSections(cls, version, scns, start).0, start, LayOutSections(cls, version, scns, start).1)
  {
    if scns != [] {
      var init, s := scns[..|scns| - 1], scns[|scns| - 1];
      LayoutIsChained(cls, version, init, start);
      var (laid, mid) := LayOutSections(cls, version, init, start);
      var (t, end) := LayOutSection(cls, version, s, mid);
      assert (laid + [t])[..|laid|] == laid;
      if Occupies(s) {
        assert TranslationsOk([s], cls);
        LaidOutFits(cls, version, s, mid);
        ChainedWeaken(laid, start, mid, t.offset);
      }
    }
  }
}
