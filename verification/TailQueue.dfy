/** The singly-linked tail queue of elf_queue.h, as the list of sections of an object, and
    _libelf_insert_section on it. The queue is linked through its nodes; `Nodes` is its contents. */
module TailQueue {

  /** A section as the list sees it: its place in the file and the link to the next section. */
  class Scn {
    const offset: nat
    const size: nat
    const occupies: bool   // its type is neither SHT_NULL nor SHT_NOBITS
    var next: Scn?

    constructor (offset: nat, size: nat, occupies: bool)
      ensures this.offset == offset && this.size == size && this.occupies == occupies && next == null
    {
      this.offset, this.size, this.occupies, next := offset, size, occupies, null;
    }
  }

  ghost predicate Distinct<T>(s: seq<T>)
  {
    forall i, j :: 0 <= i < j < |s| ==> s[i] != s[j]
  }

  class Queue {
    var first: Scn?
    var last: Scn?   // the node whose next field ends the list; null when that is `first`
    ghost var Nodes: seq<Scn>

    ghost predicate Valid()
      reads this, Nodes
    {
      && Distinct(Nodes)
      && first == Link(Nodes, 0)
      && last == (if Nodes == [] then null else Nodes[|Nodes| - 1])
      && forall i {:trigger Nodes[i].next} :: 0 <= i < |Nodes| ==> Nodes[i].next == Link(Nodes, i + 1)
    }

    static ghost function Link(nodes: seq<Scn>, i: nat): Scn?
    {
      if i < |nodes| then nodes[i] else null
    }

    /** STAILQ_INIT. */
    constructor ()
      ensures Valid() && Nodes == []
    {
      first, last, Nodes := null, null, [];
    }

    /** STAILQ_INSERT_HEAD. */
    method InsertHead(elm: Scn)
      requires Valid() && elm !in Nodes
      modifies this, elm`next
      ensures Valid() && Nodes == [elm] + old(Nodes)
    {
      elm.next := first;
      if elm.next == null {
        last := elm;
      }
      first := elm;
      Nodes := [elm] + Nodes;
    }

    /** STAILQ_INSERT_TAIL. */
    method InsertTail(elm: Scn)
      requires Valid() && elm !in Nodes
      modifies this, elm`next, Nodes`next
      ensures Valid() && Nodes == old(Nodes) + [elm]
    {
      elm.next := null;
      if last == null {
        first := elm;
      } else {
        last.next := elm;
      }
      last := elm;
      Nodes := Nodes + [elm];
    }

    /** STAILQ_INSERT_AFTER, with the position of `prev` as a ghost argument. */
    method InsertAfter(prev: Scn, elm: Scn, ghost k: nat)
      requires Valid() && elm !in Nodes && k < |Nodes| && Nodes[k] == prev
      modifies this, elm`next, prev`next
      ensures Valid() && Nodes == old(Nodes)[..k + 1] + [elm] + old(Nodes)[k + 1..]
    {
      elm.next := prev.next;
      if elm.next == null {
        last := elm;
      }
      prev.next := elm;
      Nodes := Nodes[..k + 1] + [elm] + Nodes[k + 1..];
    }

    /** STAILQ_REMOVE_HEAD. */
    method RemoveHead()
      requires Valid() && Nodes != []
      modifies this
      ensures Valid() && Nodes == old(Nodes)[1..]
    {
      first := first.next;
      if first == null {
        last := null;
      }
      Nodes := Nodes[1..];
    }

    /** The unlinking step of STAILQ_REMOVE, past the node that precedes the removed one. */
    method Unlink(cur: Scn, ghost i: nat)
      requires Valid() && i + 1 < |Nodes| && Nodes[i] == cur
      modifies this, cur`next
      ensures Valid() && Nodes == old(Nodes)[..i + 1] + old(Nodes)[i + 2..]
    {
      cur.next := cur.next.next;
      if cur.next == null {
        last := cur;
      }
      Nodes := Nodes[..i + 1] + Nodes[i + 2..];
    }

    /** STAILQ_REMOVE: the queue keeps its other nodes, in order. */
    method Remove(elm: Scn, ghost k: nat)
      requires Valid() && k < |Nodes| && Nodes[k] == elm
      modifies this, Nodes`next
      ensures Valid() && Nodes == old(Nodes)[..k] + old(Nodes)[k + 1..]
    {
      if first == elm {
        RemoveHead();
      } else {
        var cur := first;
        ghost var i := 0;
        while cur.next != elm
          invariant 0 <= i < k && Nodes[i] == cur
          decreases k - i
        {
          cur := cur.next;
          i := i + 1;
        }
        Unlink(cur, i);
      }
    }
  }

  // ---------------------------------------------------------------- sections in file order

  ghost function End(s: Scn): nat { s.offset + s.size }

  /** Those of the sections that are among the given ones are in file order and do not overlap. */
  ghost predicate Ascending(nodes: seq<Scn>, among: set<Scn>)
  {
    forall i, j :: 0 <= i < j < |nodes| && nodes[i] in among && nodes[j] in among ==> End(nodes[i]) <= nodes[j].offset
  }

  /** The extents of the two sections touch or overlap. */
  ghost predicate Collides(s: Scn, t: Scn)
  {
    s.offset <= End(t) && t.offset <= End(s)
  }

  /** Where the search of _libelf_insert_section stops, on any list: at the first section that does not end below. */
  ghost function Stop(nodes: seq<Scn>, s: Scn): (k: nat)
    ensures k <= |nodes| && (k < |nodes| ==> End(nodes[k]) >= s.offset)
    ensures forall i :: 0 <= i < k ==> End(nodes[i]) < s.offset
  {
    if nodes == [] || End(nodes[0]) >= s.offset then 0 else 1 + Stop(nodes[1..], s)
  }

  /** There is room where the search stops. */
  ghost predicate Room(nodes: seq<Scn>, s: Scn)
  {
    var k := Stop(nodes, s);
    k == |nodes| || End(s) < nodes[k].offset
  }

  ghost function Inserted(nodes: seq<Scn>, s: Scn): seq<Scn>
  {
    var k := Stop(nodes, s);
    nodes[..k] + [s] + nodes[k..]
  }

  lemma {:induction false} StopIs(nodes: seq<Scn>, s: Scn, k: nat)
    requires k <= |nodes| && (forall i :: 0 <= i < k ==> End(nodes[i]) < s.offset)
    requires k == |nodes| || End(nodes[k]) >= s.offset
    ensures Stop(nodes, s) == k
  {
    if k > 0 {
      StopIs(nodes[1..], s, k - 1);
    }
  }

  /** When the sections up to n are in file order, but for some that end below the new one, and the search stops
      among them, there is room exactly when none of them touches or overlaps the new one, and inserting it keeps
      them in file order and the rest in place. */
  lemma InsertedAscends(nodes: seq<Scn>, s: Scn, n: nat, among: set<Scn>)
    requires n <= |nodes| && Ascending(nodes[..n], among) && (n == |nodes| || Stop(nodes, s) < n)
    requires s in among && forall i :: 0 <= i < n ==> nodes[i] in among || End(nodes[i]) < s.offset
    ensures Room(nodes, s) <==> forall t :: t in nodes[..n] ==> !Collides(s, t)
    ensures Room(nodes, s) ==> Ascending(Inserted(nodes, s)[..n + 1], among)
    ensures Inserted(nodes, s)[n + 1..] == nodes[n..]
  {
    var k, front := Stop(nodes, s), nodes[..n];
    assert forall i :: 0 <= i < n ==> front[i] == nodes[i];
    AroundInserted(nodes, k, s, n);
    if Room(nodes, s) {
      BeyondStop(front, k, s, among);
      AscendingInsert(front, k, s, among);
    } else {
      assert Collides(s, front[k]) && front[k] in nodes[..n];
    }
  }

  lemma BeyondStop(front: seq<Scn>, k: nat, s: Scn, among: set<Scn>)
    requires Ascending(front, among) && k <= |front| && (k < |front| ==> End(s) < front[k].offset)
    requires k < |front| ==> End(front[k]) >= s.offset
    requires forall i :: 0 <= i < |front| ==> front[i] in among || End(front[i]) < s.offset
    ensures forall i :: k <= i < |front| && front[i] in among ==> End(s) < front[i].offset
  {
    forall i | k <= i < |front| && front[i] in among
      ensures End(s) < front[i].offset
    {
      assert i > k ==> End(front[k]) <= front[i].offset;
    }
  }

  lemma AroundInserted(nodes: seq<Scn>, k: nat, s: Scn, n: nat)
    requires k <= n <= |nodes|
    ensures var all := nodes[..k] + [s] + nodes[k..];
            all[..n + 1] == nodes[..n][..k] + [s] + nodes[..n][k..] && all[n + 1..] == nodes[n..]
  {
    var all := nodes[..k] + [s] + nodes[k..];
    assert nodes[..n][..k] == nodes[..k] && nodes[..n][k..] == nodes[k..n];
    assert all[..n + 1] == nodes[..k] + [s] + nodes[k..n];
  }

  /** The same for a whole list in file order. */
  lemma SortedInsert(nodes: seq<Scn>, s: Scn, among: set<Scn>)
    requires Ascending(nodes, among) && s in among && forall t :: t in nodes ==> t in among
    ensures Room(nodes, s) <==> forall t :: t in nodes ==> !Collides(s, t)
    ensures Room(nodes, s) ==> Ascending(Inserted(nodes, s), among)
  {
    assert nodes[..|nodes|] == nodes;
    InsertedAscends(nodes, s, |nodes|, among);
    assert Inserted(nodes, s)[..|nodes| + 1] == Inserted(nodes, s);
  }

  lemma AscendingInsert(nodes: seq<Scn>, k: nat, s: Scn, among: set<Scn>)
    requires Ascending(nodes, among) && k <= |nodes|
    requires forall i :: 0 <= i < k ==> End(nodes[i]) < s.offset
    requires forall i :: k <= i < |nodes| ==>
      if nodes[i] in among then End(s) < nodes[i].offset else End(nodes[i]) < s.offset
    ensures Ascending(nodes[..k] + [s] + nodes[k..], among)
    ensures forall t :: t in nodes ==> !Collides(s, t)
  {
  }

  /** The search of _libelf_insert_section: the node to insert after, if there is a place. */
  method FindPlace(q: Queue, s: Scn) returns (ok: bool, prevt: Scn?, ghost k: nat)
    requires q.Valid()
    ensures k == Stop(q.Nodes, s) && prevt == (if k == 0 then null else q.Nodes[k - 1])
    ensures ok <==> Room(q.Nodes, s)
  {
    prevt := null;
    var t := q.first;
    k := 0;
    while t != null
      invariant k <= |q.Nodes| && t == Queue.Link(q.Nodes, k)
      invariant prevt == (if k == 0 then null else q.Nodes[k - 1])
      invariant forall i :: 0 <= i < k ==> End(q.Nodes[i]) < s.offset
      decreases |q.Nodes| - k
    {
      if t.offset + t.size < s.offset {
        prevt := t;
        t := t.next;
        k := k + 1;
      } else {
        StopIs(q.Nodes, s, k);
        return s.offset + s.size < t.offset, prevt, k;
      }
    }
    StopIs(q.Nodes, s, k);
    ok := true;
  }

  /** The insertion itself, after `prevt` or at the head. */
  method Put(q: Queue, s: Scn, prevt: Scn?, ghost k: nat)
    requires q.Valid() && s !in q.Nodes && k <= |q.Nodes| && prevt == (if k == 0 then null else q.Nodes[k - 1])
    modifies q, s`next, q.Nodes`next
    ensures q.Valid() && q.Nodes == old(q.Nodes)[..k] + [s] + old(q.Nodes)[k..]
  {
    if prevt != null {
      q.InsertAfter(prevt, s, k - 1);
    } else {
      q.InsertHead(s);
    }
    assert q.Nodes == old(q.Nodes)[..k] + [s] + old(q.Nodes)[k..];
  }

  /** _libelf_insert_section, on any list: the section goes to the place where the search stops, or the list stays
      as it is and a layout error is reported. SortedInsert says what this means for a list in file order. */
  method InsertSection(q: Queue, s: Scn) returns (ok: bool)
    requires q.Valid() && s !in q.Nodes
    modifies q, s`next, q.Nodes`next
    ensures q.Valid()
    ensures ok <==> Room(old(q.Nodes), s)
    ensures q.Nodes == if ok then Inserted(old(q.Nodes), s) else old(q.Nodes)
  {
    var prevt;
    ghost var k;
    ok, prevt, k := FindPlace(q, s);
    if ok {
      Put(q, s, prevt, k);
    }
  }

  ghost function Without(nodes: seq<Scn>, k: nat): seq<Scn>
    requires k < |nodes|
  {
    nodes[..k] + nodes[k + 1..]
  }

  lemma WithoutProperties(nodes: seq<Scn>, k: nat)
    requires k < |nodes| && Distinct(nodes)
    ensures nodes[k] !in Without(nodes, k)
    ensures multiset(Without(nodes, k)) + multiset{nodes[k]} == multiset(nodes)
  {
    assert nodes == nodes[..k] + [nodes[k]] + nodes[k + 1..];
  }

  lemma InsertedMembers(nodes: seq<Scn>, s: Scn)
    ensures multiset(Inserted(nodes, s)) == multiset(nodes) + multiset{s}
  {
    var k := Stop(nodes, s);
    assert nodes == nodes[..k] + nodes[k..];
  }

  ghost function Occupying(nodes: seq<Scn>): set<Scn> { set t | t in nodes && t.occupies }

  /** Of the sections before k those that occupy space are in file order, and one of them ends beyond the end of
      section k; the others end below it, as sections without extent do. */
  ghost predicate Passed(nodes: seq<Scn>, k: nat)
    requires k < |nodes|
  {
    && nodes[k].occupies && Ascending(nodes[..k], Occupying(nodes))
    && (exists i :: 0 <= i < k && nodes[i].occupies && End(nodes[k]) < End(nodes[i]))
    && forall i :: 0 <= i < k ==> nodes[i].occupies || End(nodes[i]) < nodes[k].offset
  }

  lemma PassedStops(nodes: seq<Scn>, k: nat)
    requires k < |nodes| && Passed(nodes, k)
    ensures Stop(Without(nodes, k), nodes[k]) < k
  {
    var rest := Without(nodes, k);
    var i :| 0 <= i < k && nodes[i].occupies && End(nodes[k]) < End(nodes[i]);
    assert rest[i] == nodes[i];
  }

  /** What a move means when the occupying sections before are in file order and reach beyond the section's end,
      which is when the code moves it: it succeeds exactly when the section collides with none of those before, and
      then the occupying ones of the first k + 1 are in file order and the sections still to come stay where they
      were. */
  lemma MovedAscends(nodes: seq<Scn>, k: nat)
    requires k < |nodes| && Passed(nodes, k)
    ensures var rest := Without(nodes, k);
            && (Room(rest, nodes[k]) <==> forall t :: t in nodes[..k] ==> !Collides(nodes[k], t))
            && (Room(rest, nodes[k]) ==> Ascending(Inserted(rest, nodes[k])[..k + 1], Occupying(nodes)))
            && Inserted(rest, nodes[k])[k + 1..] == nodes[k + 1..]
  {
    var rest := Without(nodes, k);
    assert rest[..k] == nodes[..k] && rest[k..] == nodes[k + 1..];
    assert forall i :: 0 <= i < k ==> rest[i] == nodes[i];
    PassedStops(nodes, k);
    InsertedAscends(rest, nodes[k], k, Occupying(nodes));
  }

  /** The branch of _libelf_resync_sections that moves section k to its place. */
  method MoveSection(q: Queue, s: Scn, ghost k: nat) returns (ok: bool)
    requires q.Valid() && k < |q.Nodes| && q.Nodes[k] == s
    modifies q, q.Nodes`next
    ensures q.Valid()
    ensures ok <==> Room(Without(old(q.Nodes), k), s)
    ensures q.Nodes == if ok then Inserted(Without(old(q.Nodes), k), s) else Without(old(q.Nodes), k)
    ensures ok ==> multiset(q.Nodes) == multiset(old(q.Nodes))
  {
    WithoutProperties(q.Nodes, k);
    InsertedMembers(Without(q.Nodes, k), s);
    q.Remove(s, k);
    ok := InsertSection(q, s);
  }
}
