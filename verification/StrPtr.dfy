/** elf_strptr: from an offset in a string section to a descriptor and a byte in its buffer. */
module StrPtr {
  import opened Bytes
  import opened Options
  import opened Arith
  import opened ElfFormat
  import opened ElfLayout
  import opened ElfLayoutTheorems
  import ElfImage
  import ElfRoundTrip

  /** A byte descriptor has no file representation exactly when it has no buffer or is empty. */
  predicate Skipped(d: Descriptor) { d.file.None? || d.size == 0 }

  /** The lookup by `d_off`, from descriptor `i` on: descriptor and byte index. */
  function Direct(data: seq<Descriptor>, offset: nat, i: nat): Option<(nat, nat)>
    requires i <= |data|
    decreases |data| - i
  {
    if i == |data| then None
    else if Skipped(data[i]) then Direct(data, offset, i + 1)
    else if data[i].elfType != TByte then None
    else if data[i].off <= offset < data[i].off + data[i].size then Some((i, offset - data[i].off))
    else Direct(data, offset, i + 1)
  }

  /** Where a descriptor starts if `count` bytes precede it. */
  function OwnStart(count: nat, d: Descriptor): nat
  {
    if d.align > 1 then RoundUp(count, d.align) else count
  }

  /** The lookup that recomputes offsets from the descriptors' own alignments. */
  function Recomputed(data: seq<Descriptor>, offset: nat, i: nat, count: nat): Option<(nat, nat)>
    requires i <= |data|
    decreases |data| - i
  {
    if i == |data| || offset < count then None
    else if Skipped(data[i]) then Recomputed(data, offset, i + 1, count)
    else if data[i].elfType != TByte || (data[i].align > 1 && !IsPow2(data[i].align)) then None
    else
      var start := OwnStart(count, data[i]);
      if offset < start then None
      else if offset < start + data[i].size then Some((i, offset - start))
      else Recomputed(data, offset, i + 1, start + data[i].size)
  }

  /** elf_strptr on a section, in the two layout modes. */
  method StrPtr(s: Section, appLayout: bool, offset: nat) returns (r: Option<(nat, nat)>)
    ensures s.shdr.shType != SHT_STRTAB || offset >= s.shdr.size ==> r.None?
    ensures s.shdr.shType == SHT_STRTAB && offset < s.shdr.size ==>
      r == if appLayout then Direct(s.data, offset, 0) else Recomputed(s.data, offset, 0, 0)
    ensures r.Some? ==> r.value.0 < |s.data| && r.value.1 < s.data[r.value.0].size
  {
    if s.shdr.shType != SHT_STRTAB || offset >= s.shdr.size {
      return None;
    }
    var i := 0;
    if appLayout {
      while i < |s.data|
        invariant i <= |s.data| && Direct(s.data, offset, 0) == Direct(s.data, offset, i)
      {
        var d := s.data[i];
        if !Skipped(d) {
          if d.elfType != TByte {
            return None;
          }
          if d.off <= offset < d.off + d.size {
            return Some((i, offset - d.off));
          }
        }
        i := i + 1;
      }
    } else {
      var count: nat := 0;
      while i < |s.data| && count <= offset
        invariant i <= |s.data| && Recomputed(s.data, offset, 0, 0) == Recomputed(s.data, offset, i, count)
      {
        var d := s.data[i];
        if !Skipped(d) {
          if d.elfType != TByte {
            return None;
          }
          if d.align > 1 {
            if !IsPow2(d.align) {
              return None;
            }
            count := RoundUp(count, d.align);
          }
          if offset < count {
            return None;
          }
          if offset < count + d.size {
            return Some((i, offset - count));
          }
          count := count + d.size;
        }
        i := i + 1;
      }
    }
    r := None;
  }

  // ---------------------------------------------------------------- what the lookups find

  /** Byte k of descriptor i is at `offset`, if the descriptor starts at `start`. */
  predicate Hits(data: seq<Descriptor>, offset: nat, i: nat, k: nat, start: nat)
  {
    i < |data| && !Skipped(data[i]) && data[i].elfType == TByte && start + k == offset && k < data[i].size
  }

  /** The lookup by `d_off` gets past descriptor `j`. */
  predicate Passes(d: Descriptor, offset: nat)
  {
    Skipped(d) || (d.elfType == TByte && !(d.off <= offset < d.off + d.size))
  }

  lemma {:induction false} DirectFrom(data: seq<Descriptor>, offset: nat, n: nat, i: nat, k: nat)
    requires n <= |data|
    ensures Direct(data, offset, n) == Some((i, k)) <==>
      && n <= i < |data| && Hits(data, offset, i, k, data[i].off)
      && forall j :: n <= j < i ==> Passes(data[j], offset)
    decreases |data| - n
  {
    if n < |data| {
      DirectFrom(data, offset, n + 1, i, k);
    }
  }

  /** The lookup by `d_off` finds byte k of descriptor i exactly when that is the byte at the offset and no earlier
      descriptor has the offset or is not made of bytes. */
  lemma DirectIff(data: seq<Descriptor>, offset: nat, i: nat, k: nat)
    ensures Direct(data, offset, 0) == Some((i, k)) <==>
      && i < |data| && Hits(data, offset, i, k, data[i].off)
      && forall j :: 0 <= j < i ==> Passes(data[j], offset)
  {
    DirectFrom(data, offset, 0, i, k);
  }

  /** In a laid-out section there is nothing else to say than that the byte is there. */
  lemma DirectPlacedIff(data: seq<Descriptor>, offset: nat, i: nat, k: nat)
    requires Placed(data)
    ensures Direct(data, offset, 0) == Some((i, k)) <==>
      i < |data| && !Skipped(data[i]) && data[i].off + k == offset && k < data[i].size
  {
    DirectIff(data, offset, i, k);
  }

  /** The bytes that the recomputing lookup counts before descriptor `n`. */
  function CountBefore(data: seq<Descriptor>, n: nat): nat
    requires n <= |data|
  {
    if n == 0 then 0
    else
      var count, d := CountBefore(data, n - 1), data[n - 1];
      if Skipped(d) then count else OwnStart(count, d) + d.size
  }

  /** The recomputing lookup can handle the descriptor. */
  predicate Countable(d: Descriptor)
  {
    Skipped(d) || (d.elfType == TByte && (d.align > 1 ==> IsPow2(d.align)))
  }

  lemma OwnStartBounds(count: nat, d: Descriptor)
    requires Countable(d) && !Skipped(d)
    ensures count <= OwnStart(count, d)
  {
    if d.align > 1 {
      assert count <= RoundUp(count, d.align);
    }
  }

  lemma {:induction false} CountGrows(data: seq<Descriptor>, m: nat, n: nat)
    requires m <= n <= |data| && forall j :: m <= j < n ==> Countable(data[j])
    ensures CountBefore(data, m) <= CountBefore(data, n)
  {
    if m < n {
      CountGrows(data, m, n - 1);
      if !Skipped(data[n - 1]) {
        OwnStartBounds(CountBefore(data, n - 1), data[n - 1]);
      }
    }
  }

  lemma {:induction false} RecomputedFrom(data: seq<Descriptor>, offset: nat, n: nat, i: nat, k: nat)
    requires n <= |data|
    ensures Recomputed(data, offset, n, CountBefore(data, n)) == Some((i, k)) <==>
      && n <= i < |data| && Hits(data, offset, i, k, OwnStart(CountBefore(data, i), data[i]))
      && forall j :: n <= j <= i ==> Countable(data[j])
    decreases |data| - n
  {
    if n < |data| {
      RecomputedFrom(data, offset, n + 1, i, k);
      var count, d := CountBefore(data, n), data[n];
      if n <= i < |data| && forall j :: n <= j <= i ==> Countable(data[j]) {
        CountGrows(data, n, i);
        OwnStartAfter(data, n, i);
      }
    }
  }

  /** What starts at `i` starts after everything counted before. */
  lemma OwnStartAfter(data: seq<Descriptor>, n: nat, i: nat)
    requires n <= i < |data| && forall j :: n <= j <= i ==> Countable(data[j])
    ensures !Skipped(data[i]) ==> CountBefore(data, n) <= OwnStart(CountBefore(data, i), data[i])
    ensures !Skipped(data[i]) && n < i ==> CountBefore(data, n + 1) <= OwnStart(CountBefore(data, i), data[i])
    ensures !Skipped(data[n]) ==> CountBefore(data, n + 1) == OwnStart(CountBefore(data, n), data[n]) + data[n].size
  {
    CountGrows(data, n, i);
    if n < i {
      CountGrows(data, n + 1, i);
    }
    if !Skipped(data[i]) {
      OwnStartBounds(CountBefore(data, i), data[i]);
    }
  }

  /** The recomputing lookup finds byte k of descriptor i exactly when that byte is at the offset, counting the
      bytes of the addressable descriptors with their own alignments, and all of them up to there can be counted. */
  lemma RecomputedIff(data: seq<Descriptor>, offset: nat, i: nat, k: nat)
    ensures Recomputed(data, offset, 0, 0) == Some((i, k)) <==>
      && i < |data| && Hits(data, offset, i, k, OwnStart(CountBefore(data, i), data[i]))
      && forall j :: 0 <= j <= i ==> Countable(data[j])
  {
    RecomputedFrom(data, offset, 0, i, k);
  }

  /** In a written file, the byte that the lookup by `d_off` finds is the byte of the image at that offset of the
      section. */
  lemma LookupReadsImage(img: seq<byte>, scns: seq<Section>, cls: Class, j: nat, offset: nat, i: nat, k: nat)
    requires ElfRoundTrip.ContentsFound(img, scns) && ElfImage.TranslationsOk(scns, cls)
    requires j < |scns| && Occupies(scns[j]) && Direct(scns[j].data, offset, 0) == Some((i, k))
    ensures var at := scns[j].shdr.offset + offset;
            && i < |scns[j].data| && scns[j].data[i].file.Some? && k < |scns[j].data[i].file.value|
            && at < |img| && img[at] == scns[j].data[i].file.value[k]
  {
    DirectIff(scns[j].data, offset, i, k);
    var d, base := scns[j].data[i], scns[j].shdr.offset;
    assert ElfRoundTrip.FoundAt(img, base, d) && ElfImage.TranslationOk(d, cls);
    assert |d.file.value| == d.size;
    assert img[base + d.off..base + d.off + d.size][k] == d.file.value[k];
  }

  // ---------------------------------------------------------------- when the two lookups agree

  /** Byte descriptors as the layout leaves them: in order, without overlap, each at a multiple of its
      own power-of-two alignment. */
  ghost predicate Placed(data: seq<Descriptor>)
  {
    && (forall i :: 0 <= i < |data| ==>
          data[i].elfType == TByte && IsPow2(data[i].align) && data[i].off % data[i].align == 0)
    && (forall i, j :: 0 <= i < j < |data| ==> data[i].off + data[i].size <= data[j].off)
  }

  /** From descriptor `i` on, every addressable descriptor starts where its own alignment puts it after
      the `count` bytes of the addressable ones before it. */
  predicate Tight(data: seq<Descriptor>, i: nat, count: nat)
    requires i <= |data|
    decreases |data| - i
  {
    if i == |data| then true
    else if Skipped(data[i]) then Tight(data, i + 1, count)
    else OwnStart(count, data[i]) == data[i].off && Tight(data, i + 1, data[i].off + data[i].size)
  }

  /** No later descriptor reaches below `count`. */
  ghost predicate After(data: seq<Descriptor>, i: nat, count: nat)
  {
    forall k :: i <= k < |data| ==> count <= data[k].off
  }

  lemma {:induction false} DirectAfter(data: seq<Descriptor>, offset: nat, i: nat)
    requires i <= |data| && After(data, i, offset + 1)
    ensures Direct(data, offset, i).None?
    decreases |data| - i
  {
    if i < |data| {
      DirectAfter(data, offset, i + 1);
    }
  }

  lemma {:induction false} TightAgrees(data: seq<Descriptor>, offset: nat, i: nat, count: nat)
    requires i <= |data| && Placed(data) && Tight(data, i, count) && After(data, i, count)
    ensures Recomputed(data, offset, i, count) == Direct(data, offset, i)
    decreases |data| - i
  {
    if i == |data| {
    } else if offset < count {
      DirectAfter(data, offset, i);
    } else if Skipped(data[i]) {
      TightAgrees(data, offset, i + 1, count);
    } else {
      var d := data[i];
      assert forall k :: i < k < |data| ==> d.off + d.size <= data[k].off;
      if offset < d.off {
        DirectAfter(data, offset, i + 1);
      } else if offset >= d.off + d.size {
        TightAgrees(data, offset, i + 1, d.off + d.size);
      }
    }
  }

  /** Where a descriptor does not start where its own alignment puts it, the lookups differ there. */
  lemma {:induction false} LooseDisagrees(data: seq<Descriptor>, i: nat, count: nat) returns (offset: nat)
    requires i <= |data| && Placed(data) && !Tight(data, i, count) && After(data, i, count)
    ensures count <= offset && exists k :: i <= k < |data| && offset < data[k].off && data[k].size > 0
    ensures Recomputed(data, offset, i, count) != Direct(data, offset, i)
    decreases |data| - i
  {
    var d := data[i];
    if Skipped(d) {
      offset := LooseDisagrees(data, i + 1, count);
    } else {
      assert forall k :: i < k < |data| ==> d.off + d.size <= data[k].off;
      if OwnStart(count, d) == d.off {
        offset := LooseDisagrees(data, i + 1, d.off + d.size);
      } else {
        offset := OwnStart(count, d);
        RoundUpLeast(count, d.align, d.off);
        DirectAfter(data, offset, i);
      }
    }
  }

  /** The two lookups agree on every offset of a laid-out string section exactly when every addressable
      descriptor starts where its own alignment puts it. */
  lemma LookupsAgreeIff(data: seq<Descriptor>, size: nat)
    requires Placed(data) && forall k :: 0 <= k < |data| ==> data[k].off + data[k].size <= size
    ensures Tight(data, 0, 0) <==>
      forall offset: nat :: offset < size ==> Recomputed(data, offset, 0, 0) == Direct(data, offset, 0)
  {
    if Tight(data, 0, 0) {
      forall offset: nat | offset < size
        ensures Recomputed(data, offset, 0, 0) == Direct(data, offset, 0)
      {
        TightAgrees(data, offset, 0, 0);
      }
    } else {
      var offset := LooseDisagrees(data, 0, 0);
    }
  }

  // ---------------------------------------------------------------- one alignment for all

  /** All descriptors share one alignment, and only empty ones lack a buffer. */
  predicate Uniform(data: seq<Descriptor>, a: nat)
  {
    forall i :: 0 <= i < |data| ==> data[i].align == a && (data[i].file.None? ==> data[i].size == 0)
  }

  function EndBefore(data: seq<Descriptor>, i: nat): nat
    requires i <= |data|
  {
    if i == 0 then 0 else data[i - 1].off + data[i - 1].size
  }

  /** Each descriptor starts at the first multiple of `a` past the one before it. */
  ghost predicate Packed(data: seq<Descriptor>, a: nat)
    requires a > 0
  {
    forall i :: 0 <= i < |data| ==> PackedAt(data, a, i)
  }

  ghost predicate PackedAt(data: seq<Descriptor>, a: nat, i: nat)
    requires a > 0 && i < |data|
  {
    data[i].off == RoundUp(EndBefore(data, i), a)
  }

  lemma PlaceIsPacked(before: seq<Descriptor>, a: nat)
    requires a > 0
    ensures Packed(Place(before, a), a)
  {
    forall i | 0 <= i < |before|
      ensures PackedAt(Place(before, a), a, i)
    {
      PlaceNext(before, a, i);
      RoundUpOfMultiple(0, a);
    }
  }

  lemma OwnStartIsRoundUp(count: nat, d: Descriptor)
    requires d.align > 0
    ensures OwnStart(count, d) == RoundUp(count, d.align)
  {
    if d.align == 1 {
      RoundUpOfMultiple(count, 1);
    }
  }

  lemma {:induction false} UniformIsTight(data: seq<Descriptor>, a: nat, i: nat, count: nat)
    requires a > 0 && Uniform(data, a) && Packed(data, a) && i <= |data|
    requires RoundUp(count, a) == RoundUp(EndBefore(data, i), a)
    ensures Tight(data, i, count)
    decreases |data| - i
  {
    if i < |data| {
      var d := data[i];
      assert PackedAt(data, a, i);
      OwnStartIsRoundUp(count, d);
      if Skipped(d) {
        RoundUpOfMultiple(d.off, a);
        UniformIsTight(data, a, i + 1, count);
      } else {
        UniformIsTight(data, a, i + 1, d.off + d.size);
      }
    }
  }

  lemma PlacedByLayout(before: seq<Descriptor>, a: nat)
    requires IsPow2(a) && forall i :: 0 <= i < |before| ==>
      before[i].elfType == TByte && IsPow2(before[i].align) && before[i].align <= a
    ensures Placed(Place(before, a))
    ensures forall i :: 0 <= i < |before| ==> Place(before, a)[i].off + before[i].size <= PlacedEnd(before, a)
  {
    var data := Place(before, a);
    forall i | 0 <= i < |data|
      ensures data[i].off % data[i].align == 0 && data[i].off + data[i].size <= PlacedEnd(before, a)
    {
      PlaceBounds(before, a, i);
      Pow2Divides(before[i].align, a);
      MultipleTransitive(data[i].off, a, before[i].align);
    }
    forall i, j | 0 <= i < j < |data|
      ensures data[i].off + data[i].size <= data[j].off
    {
      PlaceOrder(before, a, i, j);
    }
  }

  /** After library-controlled layout of a string section whose descriptors share one alignment and are
      all addressable unless empty, recomputing gives the descriptor and byte that `d_off` gives, at
      every offset, holes included. */
  lemma UniformLookupsAgree(before: seq<Descriptor>, a: nat, offset: nat)
    requires IsPow2(a) && Uniform(before, a) && forall i :: 0 <= i < |before| ==> before[i].elfType == TByte
    ensures Recomputed(Place(before, a), offset, 0, 0) == Direct(Place(before, a), offset, 0)
  {
    PlaceIsPacked(before, a);
    UniformIsTight(Place(before, a), a, 0, 0);
    PlacedByLayout(before, a);
    TightAgrees(Place(before, a), offset, 0, 0);
  }

  /** With mixed alignments they can differ: of two one-byte descriptors aligned to 4 and to 1, the
      second is laid out at offset 4 but looked up at offset 1. */
  lemma MixedAlignmentsDisagree(x: byte)
    ensures var d := Descriptor(TByte, EV_CURRENT, 4, 1, 0, Some([x]));
            var data := [d, d.(align := 1)];
            && MaxAlign(data) == 4 && Place(data, 4)[1].off == 4 && PlacedEnd(data, 4) == 5
            && Recomputed(Place(data, 4), 1, 0, 0) == Some((1, 0)) && Direct(Place(data, 4), 1, 0).None?
            && Recomputed(Place(data, 4), 4, 0, 0).None? && Direct(Place(data, 4), 4, 0) == Some((1, 0))
  {
    var d := Descriptor(TByte, EV_CURRENT, 4, 1, 0, Some([x]));
    var data := [d, d.(align := 1)];
    PlaceNext(data, 4, 0);
    PlaceNext(data, 4, 1);
    assert data[..1] == [d] && [d][..0] == [];
    assert MaxAlign([d]) == 4 && PlacedEnd([d], 4) == 1;
    assert IsPow2(4) by {
      assert IsPow2(2);
    }
    var placed := Place(data, 4);
    assert Recomputed(placed, 1, 0, 0) == Recomputed(placed, 1, 1, 1);
    assert Direct(placed, 1, 0) == Direct(placed, 1, 1);
    assert Recomputed(placed, 4, 0, 0) == Recomputed(placed, 4, 1, 1) == Recomputed(placed, 4, 2, 2);
    assert Direct(placed, 4, 0) == Direct(placed, 4, 1) == Some((1, 0));
    assert Direct(placed, 1, 1) == Direct(placed, 1, 2);
  }
}
