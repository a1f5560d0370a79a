/** The life of libelf descriptors: elf_begin opens files, archive members and further activations,
    elf_end gives activations back and reclaims descriptors, archives only after their members.
    Descriptors live in an explicit heap, so that freeing one is visible. */
module ElfLifecycle {
  import opened Options

  type Ptr = nat

  datatype Kind = KindElf | KindAr | KindNone

  datatype Cmd = CmdNull | CmdRead | CmdWrite | CmdRdwr | CmdOther

  /** An Elf descriptor; `depth` counts the archives around it. */
  datatype Elf = Elf(activations: nat, kind: Kind, parent: Option<Ptr>, nchildren: int, depth: nat,
                     fd: int, cmd: Cmd)

  type Heap = map<Ptr, Elf>

  // ---------------------------------------------------------------- the invariant

  function Children(heap: Heap, p: Ptr): set<Ptr>
  {
    set c | c in heap && heap[c].parent == Some(p)
  }

  /** The parent of a descriptor is a live archive further out. */
  ghost predicate ParentsLive(heap: Heap)
  {
    forall p :: p in heap && heap[p].parent.Some? ==>
      && heap[p].parent.value in heap
      && heap[heap[p].parent.value].kind == KindAr
      && heap[heap[p].parent.value].depth < heap[p].depth
  }

  /** e_nchildren is the number of live members. */
  ghost predicate CountsExact(heap: Heap)
  {
    forall p :: p in heap ==> heap[p].nchildren == |Children(heap, p)|
  }

  ghost predicate Linked(heap: Heap) { ParentsLive(heap) && CountsExact(heap) }

  predicate Held(e: Elf) { e.activations > 0 || (e.kind == KindAr && e.nchildren > 0) }

  /** Every descriptor, `cur` possibly excepted, is activated or has live members. */
  ghost predicate HeldExcept(heap: Heap, cur: Option<Ptr>)
  {
    forall p :: p in heap && cur != Some(p) ==> Held(heap[p])
  }

  // ---------------------------------------------------------------- elf_end

  /** Free `p` and tell its archive. */
  function Release(heap: Heap, p: Ptr): Heap
    requires p in heap && ParentsLive(heap)
  {
    var rest := heap - {p};
    match heap[p].parent
    case None => rest
    case Some(q) => rest[q := heap[q].(nchildren := heap[q].nchildren - 1)]
  }

  lemma NoChildren(heap: Heap, p: Ptr)
    requires Linked(heap) && p in heap && !Held(heap[p])
    ensures Children(heap, p) == {}
  {
    if heap[p].kind == KindAr {
      assert |Children(heap, p)| == 0;
    }
  }

  /** A freed descriptor had no members, so every parent is still live. */
  lemma ReleaseKeepsParents(heap: Heap, p: Ptr)
    requires Linked(heap) && p in heap && !Held(heap[p])
    ensures ParentsLive(Release(heap, p))
  {
    NoChildren(heap, p);
    forall c | c in heap
      ensures heap[c].parent != Some(p)
    {
      assert heap[c].parent == Some(p) ==> c in Children(heap, p);
    }
  }

  /** Only the archive of the freed descriptor loses a member, and its count says so. */
  lemma ReleaseKeepsCounts(heap: Heap, p: Ptr)
    requires Linked(heap) && p in heap
    ensures CountsExact(Release(heap, p))
  {
    var after := Release(heap, p);
    forall q | q in after
      ensures after[q].nchildren == |Children(after, q)|
    {
      ReleaseChildren(heap, p, q);
      assert heap[q].nchildren == |Children(heap, q)|;
    }
  }

  lemma ReleaseChildren(heap: Heap, p: Ptr, q: Ptr)
    requires ParentsLive(heap) && p in heap
    ensures var after := Release(heap, p);
            if heap[p].parent == Some(q) then p in Children(heap, q) && Children(after, q) == Children(heap, q) - {p}
            else Children(after, q) == Children(heap, q)
  {
  }

  lemma ReleaseKeepsLinked(heap: Heap, p: Ptr)
    requires Linked(heap) && p in heap && !Held(heap[p])
    ensures Linked(Release(heap, p))
  {
    ReleaseKeepsParents(heap, p);
    ReleaseKeepsCounts(heap, p);
  }

  /** The loop of elf_end from descriptor `cur` upwards. */
  ghost function Reclaim(heap: Heap, cur: Option<Ptr>): Heap
    requires Linked(heap) && (cur.Some? ==> cur.value in heap)
    decreases |heap|
  {
    if cur.None? || Held(heap[cur.value]) then heap
    else
      ReleaseKeepsLinked(heap, cur.value);
      ReleaseShrinks(heap, cur.value);
      Reclaim(Release(heap, cur.value), heap[cur.value].parent)
  }

  lemma ReleaseShrinks(heap: Heap, p: Ptr)
    requires p in heap && ParentsLive(heap)
    ensures Release(heap, p).Keys == heap.Keys - {p}
    ensures |Release(heap, p)| < |heap|
  {
    assert Release(heap, p).Keys == heap.Keys - {p};
    assert |Release(heap, p).Keys| == |Release(heap, p)| && |heap.Keys| == |heap|;
  }

  /** What reclaiming never touches: which handles are open, and who belongs to whom. */
  ghost predicate Preserves(before: Heap, after: Heap)
  {
    && after.Keys <= before.Keys
    && forall p :: p in after ==> after[p] == before[p].(nchildren := after[p].nchildren)
  }

  /** After a release only the archive of the freed descriptor may have become free to go. */
  lemma ReleaseEffect(heap: Heap, p: Ptr)
    requires ParentsLive(heap) && p in heap && HeldExcept(heap, Some(p))
    ensures HeldExcept(Release(heap, p), heap[p].parent)
    ensures Preserves(heap, Release(heap, p))
    ensures heap[p].parent.Some? ==> heap[p].parent.value in Release(heap, p)
  {
  }

  /** Everything that is activated survives. */
  ghost predicate KeepsOpen(before: Heap, after: Heap)
  {
    forall p :: p in before && before[p].activations > 0 ==> p in after
  }

  /** Reclaiming from `cur` leaves every descriptor held, and frees nothing that is activated. */
  lemma {:induction false} ReclaimSettles(heap: Heap, cur: Option<Ptr>)
    requires Linked(heap) && (cur.Some? ==> cur.value in heap) && HeldExcept(heap, cur)
    ensures var after := Reclaim(heap, cur);
            Linked(after) && HeldExcept(after, None) && Preserves(heap, after) && KeepsOpen(heap, after)
    decreases |heap|
  {
    if cur.Some? && !Held(heap[cur.value]) {
      var p := cur.value;
      ReleaseKeepsLinked(heap, p);
      ReleaseShrinks(heap, p);
      ReleaseEffect(heap, p);
      ReclaimSettles(Release(heap, p), heap[p].parent);
    }
  }

  /** elf_end on a live descriptor: the heap after it, and its result. */
  ghost function End(heap: Heap, e: Ptr): (r: (Heap, nat))
    requires Linked(heap) && e in heap
  {
    if heap[e].activations == 0 then (heap, 0)
    else
      var less := heap[e := heap[e].(activations := heap[e].activations - 1)];
      FieldUpdateKeepsLinked(heap, e, less[e]);
      if less[e].activations > 0 then (less, less[e].activations)
      else (Reclaim(less, Some(e)), 0)
  }

  lemma FieldUpdateChildren(heap: Heap, p: Ptr, e: Elf, q: Ptr)
    requires p in heap && e.parent == heap[p].parent
    ensures Children(heap[p := e], q) == Children(heap, q)
  {
  }

  lemma FieldUpdateKeepsLinked(heap: Heap, p: Ptr, e: Elf)
    requires Linked(heap) && p in heap && e == heap[p].(activations := e.activations)
    ensures Linked(heap[p := e])
  {
    FieldUpdateKeepsParents(heap, p, e);
    var after := heap[p := e];
    forall q | q in after
      ensures after[q].nchildren == |Children(after, q)|
    {
      FieldUpdateChildren(heap, p, e, q);
      assert heap[q].nchildren == |Children(heap, q)|;
    }
  }

  lemma FieldUpdateKeepsParents(heap: Heap, p: Ptr, e: Elf)
    requires ParentsLive(heap) && p in heap && e == heap[p].(activations := e.activations)
    ensures ParentsLive(heap[p := e])
  {
    var after := heap[p := e];
    forall q | q in after && after[q].parent.Some?
      ensures var a := after[q].parent.value;
              a in after && after[a].kind == KindAr && after[a].depth < after[q].depth
    {
      assert heap[q].parent == after[q].parent && heap[q].depth == after[q].depth;
    }
  }

  // ---------------------------------------------------------------- elf_begin

  /** All the descriptors, and those that are allocated although nobody was given a handle. */
  datatype State = State(heap: Heap, leaked: set<Ptr>)

  ghost predicate Inv(st: State)
  {
    && Linked(st.heap) && HeldExcept(st.heap, None) && st.leaked <= st.heap.Keys
    && forall p :: p in st.leaked ==>
         st.heap[p].activations > 0 && st.heap[p].parent.None? && Children(st.heap, p) == {}
  }

  /** What elf_memory finds in an image. Missing stands for every failure before a descriptor is made: of fstat,
      mmap or malloc, and of the ftruncate of a file opened for writing. */
  datatype Image = Missing | BadElf | ElfFile | BadArchive | Archive | Raw

  function NewElf(kind: Kind, fd: int, cmd: Cmd): Elf { Elf(1, kind, None, 0, 0, fd, cmd) }

  function KindOf(image: Image): Kind
  {
    match image
    case ElfFile => KindElf
    case Archive => KindAr
    case _ => KindNone
  }

  /** elf_memory at the fresh address `p`. A malformed ELF image gives its descriptor back; for a
      malformed archive the descriptor stays allocated while NULL is returned. */
  function Memory(st: State, p: Ptr, image: Image, fd: int, cmd: Cmd): (State, Option<Ptr>)
  {
    match image
    case Missing => (st, None)
    case BadElf => (st, None)
    case BadArchive => (State(st.heap[p := NewElf(KindAr, fd, cmd)], st.leaked + {p}), None)
    case _ => (st.(heap := st.heap[p := NewElf(KindOf(image), fd, cmd)]), Some(p))
  }

  /** _libelf_ar_open_member once the member's descriptor exists: `a` gains the member `p`. */
  function Adopt(heap: Heap, a: Ptr, p: Ptr): Heap
    requires a in heap && p in heap
  {
    heap[a := heap[a].(nchildren := heap[a].nchildren + 1)]
        [p := heap[p].(parent := Some(a), depth := heap[a].depth + 1)]
  }

  predicate HandleOk(st: State, a: Option<Ptr>)
  {
    a.Some? ==> a.value in st.heap && a.value !in st.leaked
  }

  /** _libelf_open_object: an archive cannot be opened for update, so its descriptor is ended again. */
  ghost function OpenObject(st: State, fd: int, cmd: Cmd, image: Image, p: Ptr): (State, Option<Ptr>)
    requires Linked(st.heap) && p !in st.heap
  {
    var (made, e) := Memory(st, p, image, fd, cmd);
    if cmd == CmdRdwr && image == Archive then
      NewRootLinked(st.heap, p, NewElf(KindAr, fd, cmd));
      (st.(heap := End(made.heap, p).0), None)
    else (made, e)
  }

  /** _libelf_ar_open_member. */
  function OpenMember(st: State, fd: int, cmd: Cmd, a: Ptr, image: Image, p: Ptr): (State, Option<Ptr>)
    requires a in st.heap && p !in st.heap
  {
    var (made, e) := Memory(st, p, image, fd, cmd);
    if e.None? then (made, None)
    else (made.(heap := Adopt(made.heap, a, p)), e)
  }

  /** A further activation of a descriptor that is not an archive. */
  function Activate(st: State, a: Ptr): State
    requires a in st.heap
  {
    st.(heap := st.heap[a := st.heap[a].(activations := st.heap[a].activations + 1)])
  }

  /** elf_begin. */
  ghost function Begin(st: State, fd: int, cmd: Cmd, a: Option<Ptr>, image: Image, p: Ptr): (State, Option<Ptr>)
    requires Linked(st.heap) && p !in st.heap && HandleOk(st, a)
  {
    if cmd == CmdNull || cmd == CmdOther || (cmd != CmdRead && a.Some?) then (st, None)
    else if a.Some? && (st.heap[a.value].fd != fd || st.heap[a.value].cmd != cmd) then (st, None)
    else if cmd == CmdWrite then
      if image == Missing then (st, None) else (st.(heap := st.heap[p := NewElf(KindElf, fd, cmd)]), Some(p))
    else if a.None? then OpenObject(st, fd, cmd, image, p)
    else if st.heap[a.value].kind == KindAr then OpenMember(st, fd, cmd, a.value, image, p)
    else (Activate(st, a.value), a)
  }

  lemma FreshHasNoChildren(heap: Heap, p: Ptr)
    requires ParentsLive(heap) && p !in heap
    ensures Children(heap, p) == {}
  {
  }

  /** A new descriptor without parent joins the heap. */
  lemma NewRootLinked(heap: Heap, p: Ptr, e: Elf)
    requires Linked(heap) && p !in heap && e.parent.None? && e.nchildren == 0
    ensures Linked(heap[p := e])
    ensures forall q :: Children(heap[p := e], q) == Children(heap, q)
  {
    FreshHasNoChildren(heap, p);
    forall q
      ensures Children(heap[p := e], q) == Children(heap, q)
    {
    }
  }

  lemma AdoptChildren(heap: Heap, a: Ptr, p: Ptr, q: Ptr)
    requires a in heap && p in heap && heap[p].parent.None?
    ensures Children(Adopt(heap, a, p), q) == if q == a then Children(heap, q) + {p} else Children(heap, q)
  {
  }

  lemma AdoptCounts(heap: Heap, a: Ptr, p: Ptr)
    requires CountsExact(heap) && a in heap && p in heap && a != p && heap[p].parent.None?
    ensures CountsExact(Adopt(heap, a, p))
  {
    var after := Adopt(heap, a, p);
    forall q | q in after
      ensures after[q].nchildren == |Children(after, q)|
    {
      AdoptChildren(heap, a, p, q);
      assert p !in Children(heap, q);
    }
  }

  lemma AdoptParents(heap: Heap, a: Ptr, p: Ptr)
    requires ParentsLive(heap) && a in heap && p in heap && a != p && heap[a].kind == KindAr
    requires forall c :: c in heap ==> heap[c].parent != Some(p)
    ensures ParentsLive(Adopt(heap, a, p))
  {
  }

  /** A fresh descriptor becomes a member of an archive. */
  lemma AdoptLinked(heap: Heap, a: Ptr, p: Ptr)
    requires Linked(heap) && a in heap && p in heap && a != p && heap[a].kind == KindAr
    requires heap[p].parent.None? && Children(heap, p) == {}
    ensures Linked(Adopt(heap, a, p))
  {
    forall c | c in heap
      ensures heap[c].parent != Some(p)
    {
      assert heap[c].parent == Some(p) ==> c in Children(heap, p);
    }
    AdoptParents(heap, a, p);
    AdoptCounts(heap, a, p);
  }

  // ---------------------------------------------------------------- every step keeps the invariant

  lemma NewRootInv(st: State, p: Ptr, e: Elf, leak: bool)
    requires Inv(st) && p !in st.heap && e.parent.None? && e.nchildren == 0 && e.activations > 0
    ensures Inv(State(st.heap[p := e], if leak then st.leaked + {p} else st.leaked))
  {
    NewRootLinked(st.heap, p, e);
    FreshHasNoChildren(st.heap, p);
  }

  /** Changing only the activations of a descriptor keeps the invariant, if it stays held. */
  lemma FieldUpdateInv(st: State, p: Ptr, e: Elf)
    requires Inv(st) && p in st.heap && e == st.heap[p].(activations := e.activations) && e.activations > 0
    ensures Inv(st.(heap := st.heap[p := e]))
  {
    var after := st.heap[p := e];
    FieldUpdateKeepsLinked(st.heap, p, e);
    assert HeldExcept(after, None);
    forall q | q in st.leaked
      ensures after[q].activations > 0 && after[q].parent.None? && Children(after, q) == {}
    {
      FieldUpdateChildren(st.heap, p, e, q);
    }
  }

  lemma ReclaimInv(st: State, less: Heap, e: Ptr)
    requires Inv(st) && e in st.heap && e !in st.leaked && less.Keys == st.heap.Keys
    requires Linked(less) && HeldExcept(less, Some(e))
    requires forall p :: p in less && p != e ==> less[p] == st.heap[p]
    requires less[e].parent == st.heap[e].parent
    ensures Inv(st.(heap := Reclaim(less, Some(e))))
  {
    ReclaimSettles(less, Some(e));
    LeakedUntouched(st, less, Reclaim(less, Some(e)), e);
  }

  lemma LeakedUntouched(st: State, less: Heap, after: Heap, e: Ptr)
    requires Inv(st) && e in st.heap && e !in st.leaked && less.Keys == st.heap.Keys
    requires forall p :: p in less && p != e ==> less[p] == st.heap[p]
    requires less[e].parent == st.heap[e].parent && Preserves(less, after) && KeepsOpen(less, after)
    ensures forall p :: p in st.leaked ==>
      p in after && after[p].activations > 0 && after[p].parent.None? && Children(after, p) == {}
  {
    forall p | p in st.leaked
      ensures p in after && after[p].activations > 0 && after[p].parent.None? && Children(after, p) == {}
    {
      assert p in less;
      forall c | c in after
        ensures after[c].parent != Some(p)
      {
        assert st.heap[c].parent == Some(p) ==> c in Children(st.heap, p);
      }
    }
  }

  lemma EndInv(st: State, e: Ptr)
    requires Inv(st) && e in st.heap && e !in st.leaked
    ensures Inv(st.(heap := End(st.heap, e).0))
  {
    if st.heap[e].activations > 0 {
      var d := st.heap[e].(activations := st.heap[e].activations - 1);
      if d.activations > 0 {
        FieldUpdateInv(st, e, d);
      } else {
        FieldUpdateKeepsLinked(st.heap, e, d);
        ReclaimInv(st, st.heap[e := d], e);
      }
    }
  }

  lemma OpenObjectInv(st: State, fd: int, cmd: Cmd, image: Image, p: Ptr)
    requires Inv(st) && p !in st.heap
    ensures Inv(OpenObject(st, fd, cmd, image, p).0)
  {
    var made := Memory(st, p, image, fd, cmd).0;
    if image != Missing && image != BadElf {
      NewRootInv(st, p, made.heap[p], image == BadArchive);
      if cmd == CmdRdwr && image == Archive {
        EndInv(made, p);
      }
    }
  }

  lemma AdoptLeaked(st: State, a: Ptr, p: Ptr)
    requires Inv(st) && p in st.heap && p !in st.leaked && a in st.heap && a !in st.leaked && st.heap[p].parent.None?
    ensures forall q :: q in st.leaked ==>
      Adopt(st.heap, a, p)[q] == st.heap[q] && Children(Adopt(st.heap, a, p), q) == {}
  {
    forall q | q in st.leaked
      ensures Children(Adopt(st.heap, a, p), q) == {}
    {
      AdoptChildren(st.heap, a, p, q);
    }
  }

  lemma AdoptHeld(heap: Heap, a: Ptr, p: Ptr)
    requires CountsExact(heap) && HeldExcept(heap, None) && p in heap && a in heap && a != p && heap[a].kind == KindAr
    requires heap[p].activations > 0
    ensures HeldExcept(Adopt(heap, a, p), None)
  {
  }

  lemma AdoptInv(st: State, a: Ptr, p: Ptr)
    requires Inv(st) && p in st.heap && p !in st.leaked && a in st.heap && a !in st.leaked && a != p
    requires st.heap[a].kind == KindAr && st.heap[p].parent.None? && Children(st.heap, p) == {}
    requires st.heap[p].activations > 0
    ensures Inv(st.(heap := Adopt(st.heap, a, p)))
  {
    var after := Adopt(st.heap, a, p);
    assert Linked(after) by { AdoptLinked(st.heap, a, p); }
    assert HeldExcept(after, None) by { AdoptHeld(st.heap, a, p); }
    AdoptLeaked(st, a, p);
  }

  lemma OpenMemberInv(st: State, fd: int, cmd: Cmd, a: Ptr, image: Image, p: Ptr)
    requires Inv(st) && p !in st.heap && a in st.heap && a !in st.leaked && st.heap[a].kind == KindAr
    ensures Inv(OpenMember(st, fd, cmd, a, image, p).0)
  {
    var (made, e) := Memory(st, p, image, fd, cmd);
    if image != Missing && image != BadElf {
      NewRootInv(st, p, made.heap[p], image == BadArchive);
      if e.Some? {
        NewRootLinked(st.heap, p, made.heap[p]);
        FreshHasNoChildren(st.heap, p);
        AdoptInv(made, a, p);
      }
    }
  }

  lemma ActivateInv(st: State, a: Ptr)
    requires Inv(st) && a in st.heap
    ensures Inv(Activate(st, a))
  {
    FieldUpdateInv(st, a, Activate(st, a).heap[a]);
  }

  lemma BeginInv(st: State, fd: int, cmd: Cmd, a: Option<Ptr>, image: Image, p: Ptr)
    requires Inv(st) && p !in st.heap && HandleOk(st, a)
    ensures Inv(Begin(st, fd, cmd, a, image, p).0)
  {
    var after := Begin(st, fd, cmd, a, image, p).0;
    if after == st {
    } else if cmd == CmdWrite {
      NewRootInv(st, p, NewElf(KindElf, fd, cmd), false);
    } else if a.None? {
      OpenObjectInv(st, fd, cmd, image, p);
    } else if st.heap[a.value].kind == KindAr {
      OpenMemberInv(st, fd, cmd, a.value, image, p);
    } else {
      ActivateInv(st, a.value);
    }
  }

  // ---------------------------------------------------------------- whole runs

  /** A call of a program that uses libelf. A call of elf_begin brings the image it finds and the
      address that malloc would return. */
  datatype Call = BeginCall(fd: int, cmd: Cmd, a: Option<Ptr>, image: Image, p: Ptr) | EndCall(e: Ptr)

  /** The program passes only pointers to descriptors that have not been freed. */
  predicate Legal(st: State, c: Call)
  {
    match c
    case BeginCall(_, _, a, _, p) => HandleOk(st, a) && p !in st.heap
    case EndCall(e) => HandleOk(st, Some(e))
  }

  ghost function Step(st: State, c: Call): State
    requires Linked(st.heap) && Legal(st, c)
  {
    match c
    case BeginCall(fd, cmd, a, image, p) => Begin(st, fd, cmd, a, image, p).0
    case EndCall(e) => st.(heap := End(st.heap, e).0)
  }

  ghost predicate StepsTo(st: State, c: Call, after: State)
  {
    Linked(st.heap) && Legal(st, c) && after == Step(st, c)
  }

  lemma StepInv(st: State, c: Call, after: State)
    requires Inv(st) && StepsTo(st, c, after)
    ensures Inv(after)
  {
    match c
    case BeginCall(fd, cmd, a, image, p) => BeginInv(st, fd, cmd, a, image, p);
    case EndCall(e) => EndInv(st, e);
  }

  /** The state after a run that starts with an empty heap; None if some call is not legal. */
  ghost function After(calls: seq<Call>): Option<State>
  {
    if calls == [] then Some(State(map[], {}))
    else
      var before := After(calls[..|calls| - 1]);
      var c := calls[|calls| - 1];
      if before.Some? && Linked(before.value.heap) && Legal(before.value, c)
      then Some(Step(before.value, c)) else None
  }

  /** After every legal run, the parent of a live descriptor is live, e_nchildren is the number of live
      members, and no descriptor stays that is neither activated nor needed by a member. */
  lemma {:induction false} RunInv(calls: seq<Call>)
    requires After(calls).Some?
    ensures Inv(After(calls).value)
  {
    if calls != [] {
      var before := calls[..|calls| - 1];
      RunInv(before);
      StepInv(After(before).value, calls[|calls| - 1], After(calls).value);
    }
  }

  // ---------------------------------------------------------------- what is live, and why

  /** `q` is `p` or a member, at any depth, of `p`. */
  ghost predicate Inside(heap: Heap, q: Ptr, p: Ptr)
    requires ParentsLive(heap) && q in heap
    decreases heap[q].depth
  {
    q == p || (heap[q].parent.Some? && Inside(heap, heap[q].parent.value, p))
  }

  lemma {:induction false} InsideTransitive(heap: Heap, q: Ptr, c: Ptr, p: Ptr)
    requires ParentsLive(heap) && q in heap && c in heap && Inside(heap, q, c) && heap[c].parent == Some(p)
    ensures Inside(heap, q, p)
    decreases heap[q].depth
  {
    if q != c {
      InsideTransitive(heap, heap[q].parent.value, c, p);
    }
  }

  lemma {:induction false} DepthBound(heap: Heap) returns (b: nat)
    ensures forall p :: p in heap ==> heap[p].depth <= b
  {
    if heap == map[] {
      b := 0;
    } else {
      var p :| p in heap;
      var rest := heap - {p};
      b := DepthBound(rest);
      assert forall q :: q in heap && q != p ==> q in rest && rest[q] == heap[q];
      if b < heap[p].depth {
        b := heap[p].depth;
      }
    }
  }

  lemma {:induction false} OpenInside(heap: Heap, p: Ptr, b: nat) returns (q: Ptr)
    requires Linked(heap) && HeldExcept(heap, None) && p in heap
    requires forall x :: x in heap ==> heap[x].depth <= b
    ensures q in heap && heap[q].activations > 0 && Inside(heap, q, p)
    decreases b - heap[p].depth
  {
    if heap[p].activations > 0 {
      q := p;
    } else {
      assert Children(heap, p) != {};
      var c :| c in Children(heap, p);
      q := OpenInside(heap, c, b);
      InsideTransitive(heap, q, c, p);
    }
  }

  /** A live descriptor is open itself or has an open member inside it: nothing is kept needlessly. */
  lemma LiveIsNeeded(st: State, p: Ptr)
    requires Inv(st) && p in st.heap
    ensures exists q :: q in st.heap && st.heap[q].activations > 0 && Inside(st.heap, q, p)
  {
    var b := DepthBound(st.heap);
    var q := OpenInside(st.heap, p, b);
  }

  /** When every handle has been ended, exactly the descriptors of malformed archives remain. */
  lemma AllEnded(st: State)
    requires Inv(st) && forall p :: p in st.heap && p !in st.leaked ==> st.heap[p].activations == 0
    ensures st.heap.Keys == st.leaked
  {
    var b := DepthBound(st.heap);
    forall p | p in st.heap
      ensures p in st.leaked
    {
      var q := OpenInside(st.heap, p, b);
      RootIsOnlyInsideItself(st.heap, q, p);
    }
  }

  lemma RootIsOnlyInsideItself(heap: Heap, q: Ptr, p: Ptr)
    requires ParentsLive(heap) && q in heap && heap[q].parent.None? && Inside(heap, q, p)
    ensures q == p
  {
  }

  // ---------------------------------------------------------------- handles

  /** The activations that the program holds on `p`. */
  function Open(st: State, p: Ptr): nat
  {
    if p in st.heap && p !in st.leaked then st.heap[p].activations else 0
  }

  /** A successful elf_begin opens exactly one handle, on a live descriptor; a failed one opens none. */
  lemma BeginOpens(st: State, fd: int, cmd: Cmd, a: Option<Ptr>, image: Image, p: Ptr, q: Ptr)
    requires Inv(st) && p !in st.heap && HandleOk(st, a)
    ensures var (after, e) := Begin(st, fd, cmd, a, image, p);
            Open(after, q) == Open(st, q) + if e == Some(q) then 1 else 0
  {
    if a.None? {
      OpenObjectOpens(st, fd, cmd, image, p, q);
    } else {
      OpenMemberOpens(st, fd, cmd, a.value, image, p, q);
    }
  }

  lemma OpenObjectOpens(st: State, fd: int, cmd: Cmd, image: Image, p: Ptr, q: Ptr)
    requires Linked(st.heap) && st.leaked <= st.heap.Keys && p !in st.heap
    ensures var (after, e) := OpenObject(st, fd, cmd, image, p);
            Open(after, q) == Open(st, q) + if e == Some(q) then 1 else 0
  {
    assert p !in st.leaked;
    if cmd == CmdRdwr && image == Archive {
      UpdateOfArchiveFails(st, fd, p);
    }
  }

  lemma OpenMemberOpens(st: State, fd: int, cmd: Cmd, a: Ptr, image: Image, p: Ptr, q: Ptr)
    requires a in st.heap && st.leaked <= st.heap.Keys && p !in st.heap
    ensures var (after, e) := OpenMember(st, fd, cmd, a, image, p);
            Open(after, q) == Open(st, q) + if e == Some(q) then 1 else 0
  {
    assert p !in st.leaked;
  }

  lemma FreshRelease(heap: Heap, p: Ptr, e: Elf)
    requires Linked(heap) && p !in heap && e.parent.None? && e.nchildren == 0 && e.activations == 0
    ensures Linked(heap[p := e]) && Reclaim(heap[p := e], Some(p)) == heap
  {
    NewRootLinked(heap, p, e);
    ReleaseKeepsLinked(heap[p := e], p);
    assert Release(heap[p := e], p) == heap;
  }

  /** Opening an archive for update leaves nothing behind. */
  lemma UpdateOfArchiveFails(st: State, fd: int, p: Ptr)
    requires Linked(st.heap) && p !in st.heap
    ensures OpenObject(st, fd, CmdRdwr, Archive, p) == (st, None)
  {
    var e := NewElf(KindAr, fd, CmdRdwr);
    NewRootLinked(st.heap, p, e);
    FreshRelease(st.heap, p, e.(activations := 0));
    assert st.heap[p := e][p := e.(activations := 0)] == st.heap[p := e.(activations := 0)];
  }

  /** elf_end closes exactly one handle of its descriptor, if there is one, and returns how many are left. */
  lemma EndCloses(st: State, e: Ptr, q: Ptr)
    requires Inv(st) && e in st.heap && e !in st.leaked
    ensures var (heap, left) := End(st.heap, e);
            && left == Open(st.(heap := heap), e)
            && Open(st.(heap := heap), q) == if q == e && Open(st, e) > 0 then Open(st, e) - 1 else Open(st, q)
  {
    if st.heap[e].activations == 1 {
      var d := st.heap[e].(activations := 0);
      FieldUpdateKeepsLinked(st.heap, e, d);
      ReclaimSettles(st.heap[e := d], Some(e));
    }
  }

  /** The activations of `x` when elf_end has taken one from `e`. */
  function Left(heap: Heap, e: Ptr, x: Ptr): nat
    requires x in heap
  {
    if x == e && heap[x].activations > 0 then heap[x].activations - 1 else heap[x].activations
  }

  /** The same descriptors belong to the same archives, as far as they are still live. */
  ghost predicate SameParents(before: Heap, after: Heap)
  {
    after.Keys <= before.Keys && forall p :: p in after ==> after[p].parent == before[p].parent
  }

  lemma {:induction false} InsideStill(before: Heap, after: Heap, x: Ptr, q: Ptr)
    requires ParentsLive(before) && ParentsLive(after) && SameParents(before, after) && x in after
    ensures Inside(before, x, q) <==> Inside(after, x, q)
    ensures Inside(before, x, q) ==> q in after
    decreases before[x].depth
  {
    if x != q && after[x].parent.Some? {
      InsideStill(before, after, after[x].parent.value, q);
    }
  }

  /** Descriptors only go once they are not activated any more, and the others lose members at most. */
  ghost predicate EndsWith(heap: Heap, e: Ptr, after: Heap)
  {
    && SameParents(heap, after)
    && (forall x :: x in heap && Left(heap, e, x) > 0 ==> x in after)
    && (forall x :: x in after ==>
          after[x] == heap[x].(activations := Left(heap, e, x), nchildren := after[x].nchildren))
  }

  lemma PreservedEndsWith(heap: Heap, e: Ptr, d: Elf, after: Heap)
    requires e in heap && heap[e].activations > 0 && d == heap[e].(activations := heap[e].activations - 1)
    requires Preserves(heap[e := d], after) && KeepsOpen(heap[e := d], after)
    ensures EndsWith(heap, e, after)
  {
    assert heap[e := d].Keys == heap.Keys;
  }

  lemma EndEffect(st: State, e: Ptr)
    requires Inv(st) && e in st.heap && e !in st.leaked
    ensures EndsWith(st.heap, e, End(st.heap, e).0)
  {
    if st.heap[e].activations > 0 {
      var d := st.heap[e].(activations := st.heap[e].activations - 1);
      FieldUpdateKeepsLinked(st.heap, e, d);
      var less := st.heap[e := d];
      if d.activations > 0 {
        PreservedEndsWith(st.heap, e, d, less);
      } else {
        ReclaimSettles(less, Some(e));
        PreservedEndsWith(st.heap, e, d, Reclaim(less, Some(e)));
      }
    }
  }

  /** After elf_end exactly those descriptors remain that are still activated or have a member inside that is. */
  lemma EndKeepsIff(st: State, e: Ptr, q: Ptr)
    requires Inv(st) && e in st.heap && e !in st.leaked && q in st.heap
    ensures q in End(st.heap, e).0 <==>
      exists x :: x in st.heap && Left(st.heap, e, x) > 0 && Inside(st.heap, x, q)
  {
    var after := End(st.heap, e).0;
    EndInv(st, e);
    EndEffect(st, e);
    if q in after {
      LiveIsNeeded(st.(heap := after), q);
      var x :| x in after && after[x].activations > 0 && Inside(after, x, q);
      InsideStill(st.heap, after, x, q);
    }
    forall x | x in st.heap && Left(st.heap, e, x) > 0 && Inside(st.heap, x, q)
      ensures q in after
    {
      InsideStill(st.heap, after, x, q);
    }
  }

  /** The call is an elf_begin that gets as far as reading a malformed archive. */
  predicate Leaks(st: State, c: Call)
    requires Legal(st, c)
  {
    && c.BeginCall? && c.image == BadArchive
    && match c.a
       case None => c.cmd == CmdRead || c.cmd == CmdRdwr
       case Some(a) => c.cmd == CmdRead == st.heap[a].cmd && st.heap[a].fd == c.fd && st.heap[a].kind == KindAr
  }

  lemma StepLeaks(st: State, c: Call)
    requires Linked(st.heap) && Legal(st, c)
    ensures Step(st, c).leaked == if Leaks(st, c) then st.leaked + {c.p} else st.leaked
  {
  }

  /** Call k of a legal run reads a malformed archive. */
  ghost predicate LeaksAt(calls: seq<Call>, k: nat)
    requires k < |calls|
  {
    var st := After(calls[..k]);
    st.Some? && Legal(st.value, calls[k]) && Leaks(st.value, calls[k])
  }

  ghost predicate Lost(calls: seq<Call>) { After(calls).Some? && After(calls).value.leaked != {} }

  lemma LostNext(calls: seq<Call>, n: nat)
    requires |calls| == n + 1 && After(calls).Some?
    ensures After(calls[..n]).Some? && (Lost(calls) <==> Lost(calls[..n]) || LeaksAt(calls, n))
  {
    StepLeaks(After(calls[..n]).value, calls[n]);
  }

  lemma LeaksAtPrefix(calls: seq<Call>, n: nat, k: nat)
    requires k < n <= |calls|
    ensures LeaksAt(calls[..n], k) == LeaksAt(calls, k)
  {
    assert calls[..n][..k] == calls[..k];
  }

  /** A descriptor is lost in a run if and only if one of its calls reads a malformed archive. */
  lemma {:induction false} LostIff(calls: seq<Call>)
    requires After(calls).Some?
    ensures Lost(calls) <==> exists k :: 0 <= k < |calls| && LeaksAt(calls, k)
  {
    if calls != [] {
      var n := |calls| - 1;
      LostNext(calls, n);
      LostIff(calls[..n]);
      forall k | 0 <= k < n
        ensures LeaksAt(calls, k) == LeaksAt(calls[..n], k)
      {
        LeaksAtPrefix(calls, n, k);
      }
    }
  }

  /** A run that ends every handle it opened leaves an empty heap if and only if it read no malformed archive. */
  lemma EverythingIsFreedIff(calls: seq<Call>)
    requires After(calls).Some? && forall p :: Open(After(calls).value, p) == 0
    ensures After(calls).value.heap == map[] <==> forall k :: 0 <= k < |calls| ==> !LeaksAt(calls, k)
  {
    var st := After(calls).value;
    RunInv(calls);
    LostIff(calls);
    forall p | p in st.heap && p !in st.leaked
      ensures st.heap[p].activations == 0
    {
      assert Open(st, p) == 0;
    }
    AllEnded(st);
    assert st.heap == map[] <==> st.heap.Keys == {};
  }

  /** A malformed archive does leave a descriptor that no call can free. */
  lemma MalformedArchiveLeaks(fd: int, p: Ptr)
    ensures var call := BeginCall(fd, CmdRead, None, BadArchive, p);
            var st := After([call]);
            st.Some? && p in st.value.heap && forall q :: Open(st.value, q) == 0
  {
    var call := BeginCall(fd, CmdRead, None, BadArchive, p);
    assert [call][..0] == [];
    assert After([]) == Some(State(map[], {}));
    assert After([call]).Some?;
  }

  // ---------------------------------------------------------------- when elf_begin succeeds, and with what

  /** An image from which elf_memory makes a descriptor. */
  predicate Readable(image: Image) { image == ElfFile || image == Archive || image == Raw }

  /** The arguments with which elf_begin succeeds: writing and updating take no descriptor, an archive is
      never updated, and a descriptor must have been opened for reading on the same file. */
  predicate Begins(st: State, fd: int, cmd: Cmd, a: Option<Ptr>, image: Image)
    requires HandleOk(st, a)
  {
    match a
    case None =>
      || (cmd == CmdWrite && image != Missing)
      || (cmd == CmdRead && Readable(image))
      || (cmd == CmdRdwr && Readable(image) && image != Archive)
    case Some(q) =>
      && cmd == CmdRead && st.heap[q].cmd == CmdRead && st.heap[q].fd == fd
      && (st.heap[q].kind == KindAr ==> Readable(image))
  }

  /** Nothing but the descriptors in `except` has changed. */
  ghost predicate Untouched(before: Heap, after: Heap, except: set<Ptr>)
  {
    before.Keys <= after.Keys && forall q :: q in before && q !in except ==> after[q] == before[q]
  }

  /** What a call of elf_begin leaves: a further activation of `a`, or the new descriptor `p` under the
      archive `a` or under none; a failed call leaves at most the descriptor of a malformed archive. */
  ghost predicate Begun(st: State, fd: int, cmd: Cmd, a: Option<Ptr>, image: Image, p: Ptr, after: State, e: Option<Ptr>)
    requires p !in st.heap && HandleOk(st, a)
  {
    if !Begins(st, fd, cmd, a, image) then
      && e == None
      && if Leaks(st, BeginCall(fd, cmd, a, image, p)) then Orphaned(st, p, after) else after == st
    else if a.Some? && st.heap[a.value].kind != KindAr then
      && e == a && after.leaked == st.leaked && after.heap.Keys == st.heap.Keys
      && Untouched(st.heap, after.heap, {a.value})
      && after.heap[a.value] == st.heap[a.value].(activations := st.heap[a.value].activations + 1)
    else
      && e == Some(p) && after.leaked == st.leaked && after.heap.Keys == st.heap.Keys + {p}
      && Opened(after.heap[p], fd, cmd, a, image)
      && match a
         case None => Untouched(st.heap, after.heap, {}) && after.heap[p].depth == 0
         case Some(q) =>
           && Untouched(st.heap, after.heap, {q}) && after.heap[p].depth == st.heap[q].depth + 1
           && after.heap[q] == st.heap[q].(nchildren := st.heap[q].nchildren + 1)
  }

  /** A descriptor that elf_begin has just made. */
  predicate Opened(d: Elf, fd: int, cmd: Cmd, a: Option<Ptr>, image: Image)
  {
    && d.activations == 1 && d.nchildren == 0 && d.parent == a && d.fd == fd && d.cmd == cmd
    && (d.kind == KindElf <==> cmd == CmdWrite || image == ElfFile)
    && (d.kind == KindAr <==> cmd != CmdWrite && image == Archive)
  }

  /** The descriptor `p` of an archive exists, and nobody has it. */
  ghost predicate Orphaned(st: State, p: Ptr, after: State)
  {
    && after.leaked == st.leaked + {p} && after.heap.Keys == st.heap.Keys + {p} && Untouched(st.heap, after.heap, {})
    && after.heap[p].kind == KindAr && after.heap[p].parent == None && after.heap[p].nchildren == 0
  }

  /** What elf_memory leaves: a descriptor of one activation for a readable image, otherwise no handle. */
  ghost predicate Made(st: State, fd: int, cmd: Cmd, image: Image, p: Ptr, after: State, e: Option<Ptr>)
  {
    if !Readable(image) then e == None && if image == BadArchive then Orphaned(st, p, after) else after == st
    else
      && e == Some(p) && after.leaked == st.leaked && after.heap.Keys == st.heap.Keys + {p}
      && Untouched(st.heap, after.heap, {}) && after.heap[p].activations == 1 && after.heap[p].depth == 0
      && after.heap[p].nchildren == 0 && after.heap[p].parent == None
      && after.heap[p].fd == fd && after.heap[p].cmd == cmd
      && (after.heap[p].kind == KindElf <==> image == ElfFile) && (after.heap[p].kind == KindAr <==> image == Archive)
  }

  lemma MemoryIs(st: State, fd: int, cmd: Cmd, image: Image, p: Ptr)
    requires p !in st.heap
    ensures var (after, e) := Memory(st, p, image, fd, cmd); Made(st, fd, cmd, image, p, after, e)
  {
    assert st.heap[p := NewElf(KindAr, fd, cmd)].Keys == st.heap.Keys + {p};
    assert st.heap[p := NewElf(KindOf(image), fd, cmd)].Keys == st.heap.Keys + {p};
  }

  lemma OpenObjectIs(st: State, fd: int, cmd: Cmd, image: Image, p: Ptr)
    requires Linked(st.heap) && p !in st.heap && (cmd == CmdRead || cmd == CmdRdwr)
    ensures var (after, e) := OpenObject(st, fd, cmd, image, p); Begun(st, fd, cmd, None, image, p, after, e)
  {
    if cmd == CmdRdwr && image == Archive {
      UpdateOfArchiveFails(st, fd, p);
    } else {
      MemoryIs(st, fd, cmd, image, p);
    }
  }

  lemma OpenMemberIs(st: State, fd: int, a: Ptr, image: Image, p: Ptr)
    requires p !in st.heap && HandleOk(st, Some(a)) && st.heap[a].kind == KindAr
    requires st.heap[a].fd == fd && st.heap[a].cmd == CmdRead
    ensures var (after, e) := OpenMember(st, fd, CmdRead, a, image, p);
            Begun(st, fd, CmdRead, Some(a), image, p, after, e)
  {
    MemoryIs(st, fd, CmdRead, image, p);
    var (after, e) := OpenMember(st, fd, CmdRead, a, image, p);
    if Readable(image) {
      assert after.heap.Keys == st.heap.Keys + {p};
    }
  }

  lemma WriteIs(st: State, fd: int, image: Image, p: Ptr)
    requires Linked(st.heap) && p !in st.heap
    ensures var (after, e) := Begin(st, fd, CmdWrite, None, image, p);
            Begun(st, fd, CmdWrite, None, image, p, after, e)
  {
    assert st.heap[p := NewElf(KindElf, fd, CmdWrite)].Keys == st.heap.Keys + {p};
  }

  lemma BeginIs(st: State, fd: int, cmd: Cmd, a: Option<Ptr>, image: Image, p: Ptr)
    requires Linked(st.heap) && p !in st.heap && HandleOk(st, a)
    ensures var (after, e) := Begin(st, fd, cmd, a, image, p); Begun(st, fd, cmd, a, image, p, after, e)
  {
    if a.None? {
      if cmd == CmdRead || cmd == CmdRdwr {
        OpenObjectIs(st, fd, cmd, image, p);
      } else if cmd == CmdWrite {
        WriteIs(st, fd, image, p);
      }
    } else if cmd == CmdRead && st.heap[a.value].fd == fd && st.heap[a.value].cmd == CmdRead {
      if st.heap[a.value].kind == KindAr {
        OpenMemberIs(st, fd, a.value, image, p);
      }
    }
  }

  /** elf_begin succeeds if and only if its arguments allow it. */
  lemma BeginIff(st: State, fd: int, cmd: Cmd, a: Option<Ptr>, image: Image, p: Ptr)
    requires Linked(st.heap) && p !in st.heap && HandleOk(st, a)
    ensures Begin(st, fd, cmd, a, image, p).1.Some? <==> Begins(st, fd, cmd, a, image)
  {
    BeginIs(st, fd, cmd, a, image, p);
  }

  // ---------------------------------------------------------------- the library

  /** libelf's descriptors, and the calls as the library carries them out. */
  class Library {
    var heap: Heap
    ghost var leaked: set<Ptr>

    constructor ()
      ensures State(heap, leaked) == State(map[], {})
    {
      heap, leaked := map[], {};
    }

    /** elf_end. */
    method ElfEnd(e: Option<Ptr>) returns (r: nat)
      requires Inv(State(heap, leaked)) && HandleOk(State(heap, leaked), e)
      modifies this`heap
      ensures Inv(State(heap, leaked))
      ensures e.None? ==> heap == old(heap) && r == 0
      ensures e.Some? ==> (heap, r) == End(old(heap), e.value)
    {
      if e.None? || heap[e.value].activations == 0 {
        return 0;
      }
      EndInv(State(heap, leaked), e.value);
      var d := heap[e.value].(activations := heap[e.value].activations - 1);
      FieldUpdateKeepsLinked(heap, e.value, d);
      heap := heap[e.value := d];
      if d.activations > 0 {
        return d.activations;
      }
      ReclaimFrom(e.value);
      r := 0;
    }

    /** The loop of elf_end. */
    method ReclaimFrom(e: Ptr)
      requires Linked(heap) && e in heap
      modifies this`heap
      ensures heap == Reclaim(old(heap), Some(e))
    {
      var cur := Some(e);
      while cur.Some? && heap[cur.value].activations == 0
        invariant Linked(heap) && (cur.Some? ==> cur.value in heap)
        invariant Reclaim(heap, cur) == Reclaim(old(heap), Some(e))
        decreases |heap|
      {
        var p := cur.value;
        if heap[p].kind == KindAr && heap[p].nchildren > 0 {
          return;
        }
        ReleaseKeepsLinked(heap, p);
        ReleaseShrinks(heap, p);
        cur := heap[p].parent;
        ReleaseElf(p);
      }
    }

    /** The end of the loop body: the parent loses a member and the descriptor is freed. */
    method ReleaseElf(p: Ptr)
      requires Linked(heap) && p in heap
      modifies this`heap
      ensures heap == Release(old(heap), p)
    {
      var parent := heap[p].parent;
      if parent.Some? {
        heap := heap[parent.value := heap[parent.value].(nchildren := heap[parent.value].nchildren - 1)];
      }
      heap := heap - {p};
    }

    /** elf_memory; `p` is the address that malloc returns. */
    method ElfMemory(image: Image, fd: int, cmd: Cmd, p: Ptr) returns (e: Option<Ptr>)
      requires p !in heap
      modifies this
      ensures (State(heap, leaked), e) == Memory(old(State(heap, leaked)), p, image, fd, cmd)
      ensures Made(old(State(heap, leaked)), fd, cmd, image, p, State(heap, leaked), e)
    {
      MemoryIs(State(heap, leaked), fd, cmd, image, p);
      if image == Missing {
        return None;
      }
      heap := heap[p := NewElf(KindNone, fd, cmd)];
      match image {
        case ElfFile =>
          heap := heap[p := heap[p].(kind := KindElf)];
        case BadElf =>
          heap := heap - {p};
          assert heap == old(heap);
          return None;
        case Archive =>
          heap := heap[p := heap[p].(kind := KindAr)];
        case BadArchive =>
          heap := heap[p := heap[p].(kind := KindAr)];
          assert heap == old(heap)[p := NewElf(KindAr, fd, cmd)];
          leaked := leaked + {p};
          return None;
        case Raw =>
      }
      assert heap == old(heap)[p := NewElf(KindOf(image), fd, cmd)];
      e := Some(p);
    }

    /** _libelf_ar_open_member. */
    method OpenArMember(fd: int, cmd: Cmd, a: Ptr, image: Image, p: Ptr) returns (e: Option<Ptr>)
      requires p !in heap && a in heap
      modifies this
      ensures (State(heap, leaked), e) == OpenMember(old(State(heap, leaked)), fd, cmd, a, image, p)
    {
      e := ElfMemory(image, fd, cmd, p);
      if e.Some? {
        heap := heap[a := heap[a].(nchildren := heap[a].nchildren + 1)];
        heap := heap[p := heap[p].(parent := Some(a), depth := heap[a].depth + 1)];
      }
    }

    /** elf_begin. */
    method ElfBegin(fd: int, cmd: Cmd, a: Option<Ptr>, image: Image, p: Ptr) returns (e: Option<Ptr>)
      requires Inv(State(heap, leaked)) && p !in heap && HandleOk(State(heap, leaked), a)
      modifies this
      ensures Inv(State(heap, leaked))
      ensures (State(heap, leaked), e) == Begin(old(State(heap, leaked)), fd, cmd, a, image, p)
      ensures Begun(old(State(heap, leaked)), fd, cmd, a, image, p, State(heap, leaked), e)
    {
      BeginInv(State(heap, leaked), fd, cmd, a, image, p);
      BeginIs(State(heap, leaked), fd, cmd, a, image, p);
      match cmd {
        case CmdWrite =>
          if a.Some? || image == Missing {
            return None;
          }
          heap := heap[p := NewElf(KindElf, fd, cmd)];
          return Some(p);
        case CmdRdwr =>
          if a.Some? {
            return None;
          }
        case CmdRead =>
          if a.Some? && (heap[a.value].fd != fd || heap[a.value].cmd != cmd) {
            return None;
          }
        case _ =>
          return None;
      }
      if a.None? {
        e := OpenFile(fd, cmd, image, p);
      } else if heap[a.value].kind == KindAr {
        e := OpenArMember(fd, cmd, a.value, image, p);
      } else {
        heap := heap[a.value := heap[a.value].(activations := heap[a.value].activations + 1)];
        e := a;
      }
    }

    /** _libelf_open_object. */
    method OpenFile(fd: int, cmd: Cmd, image: Image, p: Ptr) returns (e: Option<Ptr>)
      requires Inv(State(heap, leaked)) && p !in heap
      modifies this
      ensures (State(heap, leaked), e) == OpenObject(old(State(heap, leaked)), fd, cmd, image, p)
      ensures cmd == CmdRead || cmd == CmdRdwr ==>
        Begun(old(State(heap, leaked)), fd, cmd, None, image, p, State(heap, leaked), e)
    {
      ghost var st := State(heap, leaked);
      if cmd == CmdRead || cmd == CmdRdwr {
        OpenObjectIs(st, fd, cmd, image, p);
      }
      e := ElfMemory(image, fd, cmd, p);
      if e.Some? && cmd == CmdRdwr && heap[p].kind == KindAr {
        NewRootInv(st, p, heap[p], false);
        var _ := ElfEnd(e);
        e := None;
      }
    }
  }
}
