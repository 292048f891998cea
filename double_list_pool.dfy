/** The receiver's frame pool-queue (class `DoubleListPool` of
    receiver_cpp/DoubleListPool.hpp): 100-byte nodes on two intrusive
    singly linked lists, the free list (LIFO) and the ready list (FIFO,
    with a tail pointer), their counts and a permanent `closed` flag.

    The heap of nodes becomes an arena: a map from node id to the node's
    two fields, where `new Node()` hands out a fresh id and `delete`
    removes the entry. Each locked region is one atomic step; the mutex
    and the two condition variables are not modelled, and a wait that
    nothing in a sequential run could end returns `WouldBlock`. Ghost
    state records, for each list, the sequence of ids its links visit
    and, for the live nodes outside both lists, that a caller holds
    them. */
module FramePool {
  import opened Common

  /** `kPayload`: the bytes carried by one node. */
  const Payload: nat := 100

  type NodeId = nat

  /** A `Node*`: null or the node with that id. */
  datatype Link = Nil | Ptr(id: NodeId)

  /** `struct Node`: the payload and the intrusive link. */
  datatype Node = Node(data: seq<byte>, next: Link)

  /** The payload of a freshly allocated node (`data{}`). */
  function Zeros(): seq<byte> {
    seq(Payload, _ => 0)
  }

  // ---------------------------------------------------------------------
  // Lists as chains of links
  // ---------------------------------------------------------------------

  /** The ids of a list. */
  ghost function Elems(s: seq<NodeId>): set<NodeId>
    decreases |s|
  {
    if s == [] then {} else {s[0]} + Elems(s[1..])
  }

  lemma {:induction false} ElemsIn(s: seq<NodeId>)
    ensures forall x :: x in Elems(s) <==> x in s
    decreases |s|
  {
    if s != [] {
      ElemsIn(s[1..]);
      assert s == [s[0]] + s[1..];
    }
  }

  lemma {:induction false} ElemsSnoc(s: seq<NodeId>, k: NodeId)
    ensures Elems(s + [k]) == Elems(s) + {k}
    decreases |s|
  {
    if s != [] {
      assert (s + [k])[1..] == s[1..] + [k];
      ElemsSnoc(s[1..], k);
    }
  }

  lemma ElemsCons(k: NodeId, s: seq<NodeId>)
    ensures Elems([k] + s) == {k} + Elems(s)
  {
    assert ([k] + s)[1..] == s;
  }

  lemma {:induction false} ElemsLast(s: seq<NodeId>)
    requires s != []
    ensures s[|s| - 1] in Elems(s)
    decreases |s|
  {
    if |s| > 1 {
      ElemsLast(s[1..]);
    }
  }

  /** Following `next` from `head` visits exactly the ids of `s`, in
      order, each once, and then reaches null. */
  ghost predicate Chain(s: seq<NodeId>, head: Link, nodes: map<NodeId, Node>)
    decreases |s|
  {
    if s == [] then head == Nil
    else
      && head == Ptr(s[0]) && s[0] in nodes && s[0] !in Elems(s[1..])
      && Chain(s[1..], nodes[s[0]].next, nodes)
  }

  /** Rewriting a node outside a chain keeps the chain. */
  lemma {:induction false} ChainUpdateOutside(s: seq<NodeId>, head: Link, nodes: map<NodeId, Node>, k: NodeId, v: Node)
    requires Chain(s, head, nodes) && k !in Elems(s)
    ensures Chain(s, head, nodes[k := v])
    decreases |s|
  {
    if s != [] {
      ChainUpdateOutside(s[1..], nodes[s[0]].next, nodes, k, v);
    }
  }

  /** Deleting a node outside a chain keeps the chain. */
  lemma {:induction false} ChainRemoveOutside(s: seq<NodeId>, head: Link, nodes: map<NodeId, Node>, k: NodeId)
    requires Chain(s, head, nodes) && k !in Elems(s)
    ensures Chain(s, head, nodes - {k})
    decreases |s|
  {
    if s != [] {
      ChainRemoveOutside(s[1..], nodes[s[0]].next, nodes, k);
    }
  }

  /** Pushing a node in front of a chain (`n->next = head; head = n`). */
  lemma ChainCons(s: seq<NodeId>, head: Link, nodes: map<NodeId, Node>, k: NodeId, v: Node)
    requires Chain(s, head, nodes) && k !in Elems(s) && v.next == head
    ensures Chain([k] + s, Ptr(k), nodes[k := v])
  {
    assert ([k] + s)[1..] == s;
    ChainUpdateOutside(s, head, nodes, k, v);
  }

  /** Linking a node with null `next` after the last node of a non-empty
      chain (`n->next = null; tail->next = n`). */
  lemma {:induction false} ChainSnoc(s: seq<NodeId>, head: Link, nodes: map<NodeId, Node>, k: NodeId, v: Node)
    requires Chain(s, head, nodes) && k !in Elems(s) && s != [] && v.next == Nil
    requires s[|s| - 1] in nodes
    ensures var last := s[|s| - 1];
      Chain(s + [k], head, nodes[k := v][last := nodes[last].(next := Ptr(k))])
    decreases |s|
  {
    var last := s[|s| - 1];
    var nodes' := nodes[k := v][last := nodes[last].(next := Ptr(k))];
    var t := s + [k];
    assert t[1..] == s[1..] + [k];
    ElemsSnoc(s[1..], k);
    if |s| == 1 {
      assert t[1..] == [k];
      assert Chain([k], Ptr(k), nodes');
    } else {
      ElemsLast(s[1..]);
      assert last == s[1..][|s[1..]| - 1];
      ChainSnoc(s[1..], nodes[s[0]].next, nodes, k, v);
    }
  }

  /** The ids lo, lo+1, ..., hi-1 in order. */
  function Range(lo: nat, hi: nat): (r: seq<NodeId>)
    ensures |r| == if lo < hi then hi - lo else 0
    ensures forall i :: 0 <= i < |r| ==> r[i] == lo + i
    decreases hi - lo
  {
    if lo < hi then [lo] + Range(lo + 1, hi) else []
  }

  lemma RangeHas(lo: nat, hi: nat)
    ensures forall i: nat :: lo <= i < hi ==> i in Range(lo, hi)
  {
    var r := Range(lo, hi);
    forall i: nat | lo <= i < hi ensures i in r {
      assert r[i - lo] == i;
    }
  }

  lemma {:induction false} ElemsRange(lo: nat, hi: nat)
    ensures forall x :: x in Elems(Range(lo, hi)) ==> lo <= x < hi
    decreases hi - lo
  {
    if lo < hi {
      assert Range(lo, hi)[1..] == Range(lo + 1, hi);
      ElemsRange(lo + 1, hi);
    }
  }

  /** Nodes lo .. hi-1, each linked to its successor and the last to
      null, form a chain from lo. */
  lemma {:induction false} ChainRange(lo: nat, hi: nat, nodes: map<NodeId, Node>)
    requires forall i: nat :: lo <= i < hi ==>
      i in nodes && nodes[i].next == if i + 1 < hi then Ptr(i + 1) else Nil
    ensures Chain(Range(lo, hi), if lo < hi then Ptr(lo) else Nil, nodes)
    decreases hi - lo
  {
    if lo < hi {
      var r := Range(lo, hi);
      assert r[1..] == Range(lo + 1, hi);
      ElemsRange(lo + 1, hi);
      ChainRange(lo + 1, hi, nodes);
    }
  }

  /** The null-or-last link of a list (`ready_tail_`). */
  function LastLink(s: seq<NodeId>): Link {
    if s == [] then Nil else Ptr(s[|s| - 1])
  }

  // ---------------------------------------------------------------------
  // The pool's state and its invariant
  // ---------------------------------------------------------------------

  /** A snapshot of the pool's links, arena and ownership (the counts and
      the flag are kept out: they do not constrain the links). */
  datatype PoolState = PoolState(
    nodes: map<NodeId, Node>,
    freeHead: Link,
    readyHead: Link,
    readyTail: Link,
    nextId: NodeId,
    free: seq<NodeId>,
    ready: seq<NodeId>,
    held: set<NodeId>)

  /** The links realise the two lists, `ready_tail_` is the last ready
      node (null exactly when the ready list is empty), and every live
      node is in exactly one place: the free list, the ready list, or a
      caller's hands. Each live node has a 100-byte payload and an id
      below the allocator's. */
  ghost predicate Inv(s: PoolState) {
    && Chain(s.free, s.freeHead, s.nodes)
    && Chain(s.ready, s.readyHead, s.nodes)
    && s.readyTail == LastLink(s.ready)
    && Elems(s.free) !! Elems(s.ready)
    && Elems(s.free) !! s.held
    && Elems(s.ready) !! s.held
    && s.nodes.Keys == Elems(s.free) + Elems(s.ready) + s.held
    && (forall id | id in s.nodes :: id < s.nextId && |s.nodes[id].data| == Payload)
  }

  /** `n` preallocated zeroed nodes 0 .. n-1, each linked to its
      successor. */
  function InitialNodes(n: nat): (m: map<NodeId, Node>)
    ensures forall i: nat :: i < n ==>
      i in m && m[i] == Node(Zeros(), if i + 1 < n then Ptr(i + 1) else Nil)
  {
    RangeHas(0, n);
    map i: NodeId | i in Range(0, n) :: Node(Zeros(), if i + 1 < n then Ptr(i + 1) else Nil)
  }

  /** A pool with `n` preallocated nodes, all on the free list. */
  ghost function Initial(n: nat): PoolState {
    PoolState(InitialNodes(n), if n == 0 then Nil else Ptr(0), Nil, Nil, n, Range(0, n), [], {})
  }

  lemma InitialInv(n: nat)
    ensures Inv(Initial(n))
  {
    ChainRange(0, n, InitialNodes(n));
    ElemsIn(Range(0, n));
  }

  /** `try_pop_free_unsafe` on a non-empty free list: the head moves to a
      caller (its stale `next` is left as it was). */
  lemma TakeFreeStep(s: PoolState)
    requires Inv(s) && s.free != []
    ensures s.free[0] in s.nodes
    ensures Inv(s.(freeHead := s.nodes[s.free[0]].next, free := s.free[1..], held := s.held + {s.free[0]}))
  {
  }

  /** `new Node()`: a fresh zeroed node with null `next`, held by the
      caller. */
  lemma AllocateStep(s: PoolState)
    requires Inv(s)
    ensures s.nextId !in s.nodes
    ensures Inv(s.(nextId := s.nextId + 1, nodes := s.nodes[s.nextId := Node(Zeros(), Nil)],
                   held := s.held + {s.nextId}))
  {
    var k := s.nextId;
    ChainUpdateOutside(s.free, s.freeHead, s.nodes, k, Node(Zeros(), Nil));
    ChainUpdateOutside(s.ready, s.readyHead, s.nodes, k, Node(Zeros(), Nil));
  }

  /** The state after `addNode(k)` on an open pool: `k->next = null`, then
      `k` becomes the only ready node or is linked after the tail. */
  ghost function Submitted(s: PoolState, k: NodeId): (t: PoolState)
    requires Inv(s) && k in s.held
    ensures t.nodes.Keys == s.nodes.Keys
  {
    var nodes := s.nodes[k := s.nodes[k].(next := Nil)];
    if s.readyTail == Nil then
      s.(nodes := nodes, readyHead := Ptr(k), readyTail := Ptr(k),
         ready := s.ready + [k], held := s.held - {k})
    else
      ElemsLast(s.ready);
      s.(nodes := nodes[s.readyTail.id := nodes[s.readyTail.id].(next := Ptr(k))],
         readyTail := Ptr(k), ready := s.ready + [k], held := s.held - {k})
  }

  /** `addNode` on an open pool: a held node joins the ready list at its
      tail, with null `next` and its payload kept. */
  lemma SubmitStep(s: PoolState, k: NodeId)
    requires Inv(s) && k in s.held
    ensures k in Submitted(s, k).nodes
    ensures Submitted(s, k).nodes[k] == s.nodes[k].(next := Nil)
    ensures Inv(Submitted(s, k))
  {
    var t := Submitted(s, k);
    var v := s.nodes[k].(next := Nil);
    ElemsSnoc(s.ready, k);
    ChainUpdateOutside(s.free, s.freeHead, s.nodes, k, v);
    if s.ready == [] {
      assert Elems([k]) == {k};
      assert Chain([k], Ptr(k), t.nodes);
    } else {
      var last := s.ready[|s.ready| - 1];
      ElemsLast(s.ready);
      ChainSnoc(s.ready, s.readyHead, s.nodes, k, v);
      ChainUpdateOutside(s.free, s.freeHead, s.nodes[k := v], last, s.nodes[last].(next := Ptr(k)));
    }
  }

  /** `delete n` of a held node: it leaves the arena. */
  lemma DeleteStep(s: PoolState, k: NodeId)
    requires Inv(s) && k in s.held
    ensures Inv(s.(nodes := s.nodes - {k}, held := s.held - {k}))
  {
    ChainRemoveOutside(s.free, s.freeHead, s.nodes, k);
    ChainRemoveOutside(s.ready, s.readyHead, s.nodes, k);
  }

  /** `try_pop_ready_unsafe` on a non-empty ready list: the oldest node
      moves to a caller with null `next`; the tail link is cleared when
      the list empties. */
  lemma TakeReadyStep(s: PoolState)
    requires Inv(s) && s.ready != []
    ensures s.ready[0] in s.nodes
    ensures var k := s.ready[0];
      Inv(s.(readyHead := s.nodes[k].next,
             readyTail := if s.nodes[k].next == Nil then Nil else s.readyTail,
             nodes := s.nodes[k := s.nodes[k].(next := Nil)],
             ready := s.ready[1..], held := s.held + {k}))
  {
    var k := s.ready[0];
    var v := s.nodes[k].(next := Nil);
    ChainUpdateOutside(s.ready[1..], s.nodes[k].next, s.nodes, k, v);
    ChainUpdateOutside(s.free, s.freeHead, s.nodes, k, v);
    if |s.ready| > 1 {
      assert s.ready[1..][|s.ready| - 2] == s.ready[|s.ready| - 1];
    }
  }

  /** `addFree` of a held node: it becomes the head of the free list,
      its payload kept. */
  lemma ReturnFreeStep(s: PoolState, k: NodeId)
    requires Inv(s) && k in s.held
    ensures k in s.nodes
    ensures Inv(s.(nodes := s.nodes[k := s.nodes[k].(next := s.freeHead)], freeHead := Ptr(k),
                   free := [k] + s.free, held := s.held - {k}))
  {
    var v := s.nodes[k].(next := s.freeHead);
    ElemsCons(k, s.free);
    ChainCons(s.free, s.freeHead, s.nodes, k, v);
    ChainUpdateOutside(s.ready, s.readyHead, s.nodes, k, v);
  }

  /** A holder writing a held node's payload. */
  lemma FillStep(s: PoolState, k: NodeId, payload: seq<byte>)
    requires Inv(s) && k in s.held && |payload| == Payload
    ensures k in s.nodes
    ensures Inv(s.(nodes := s.nodes[k := s.nodes[k].(data := payload)]))
  {
    var v := s.nodes[k].(data := payload);
    ChainUpdateOutside(s.free, s.freeHead, s.nodes, k, v);
    ChainUpdateOutside(s.ready, s.readyHead, s.nodes, k, v);
  }

  // ---------------------------------------------------------------------
  // The class
  // ---------------------------------------------------------------------

  class DoubleListPool {
    /** The live nodes of the heap, by id. */
    var nodes: map<NodeId, Node>
    var freeHead: Link
    var freeCount: nat
    var readyHead: Link
    var readyTail: Link
    var readyCount: nat
    var closed: bool
    /** The allocator: every id ever handed out is below it. */
    var nextId: NodeId

    /** The free list, head first. */
    ghost var FreeList: seq<NodeId>
    /** The ready list, oldest (head) first. */
    ghost var ReadyList: seq<NodeId>
    /** The nodes held by callers (taken and not yet given back). */
    ghost var Held: set<NodeId>

    ghost function State(): PoolState
      reads this
    {
      PoolState(nodes, freeHead, readyHead, readyTail, nextId, FreeList, ReadyList, Held)
    }

    /** The class invariant: `Inv`, and `free_count_` and `ready_count_`
        are the lengths of the two lists. */
    ghost predicate Valid()
      reads this
    {
      Inv(State()) && freeCount == |FreeList| && readyCount == |ReadyList|
    }

    /** The constructor (whose body is not part of the header) is
        modelled abstractly: `capacityHint` zeroed nodes with ids
        0 .. capacityHint-1 are preallocated onto the free list, the ready
        list is empty and the pool open. */
    constructor (capacityHint: nat)
      ensures Valid()
      ensures FreeList == Range(0, capacityHint) && ReadyList == [] && Held == {}
      ensures freeCount == capacityHint && readyCount == 0 && !closed
    {
      InitialInv(capacityHint);
      nodes := InitialNodes(capacityHint);
      freeHead, freeCount := if capacityHint == 0 then Nil else Ptr(0), capacityHint;
      readyHead, readyTail, readyCount := Nil, Nil, 0;
      closed := false;
      nextId := capacityHint;
      FreeList, ReadyList, Held := Range(0, capacityHint), [], {};
      new;
      assert State() == Initial(capacityHint);
    }

    /** `try_pop_free_unsafe`: unlink the head of the free list, if any;
        the caller then holds it. `free_count_` is left to the caller. */
    method TryPopFree() returns (n: Link)
      requires Valid()
      modifies this
      ensures Inv(State())
      ensures n == (if old(FreeList) == [] then Nil else Ptr(old(FreeList)[0]))
      ensures FreeList == if old(FreeList) == [] then [] else old(FreeList)[1..]
      ensures Held == if n == Nil then old(Held) else old(Held) + {n.id}
      ensures ReadyList == old(ReadyList) && nodes == old(nodes)
      ensures freeCount == old(freeCount) && readyCount == old(readyCount)
      ensures closed == old(closed) && nextId == old(nextId)
    {
      n := freeHead;
      if n.Ptr? {
        ghost var s := State();
        TakeFreeStep(s);
        freeHead, FreeList, Held := nodes[n.id].next, FreeList[1..], Held + {n.id};
        assert State() == s.(freeHead := s.nodes[s.free[0]].next, free := s.free[1..], held := s.held + {s.free[0]});
      }
    }

    /** `getFree`: null exactly when the pool is closed. Otherwise the
        head of the free list (with `free_count_` one less), or, when the
        free list is empty, a freshly allocated zeroed node (the pool
        grows; `free_count_` stays). The caller then holds the node. */
    method GetFree() returns (r: Link)
      requires Valid()
      modifies this
      ensures Valid()
      ensures r == Nil <==> old(closed)
      ensures old(closed) ==> unchanged(this)
      ensures closed == old(closed) && ReadyList == old(ReadyList)
      ensures !old(closed) && old(FreeList) != [] ==>
        && r == Ptr(old(FreeList)[0]) && FreeList == old(FreeList)[1..]
        && freeCount == old(freeCount) - 1 && nodes == old(nodes)
      ensures !old(closed) && old(FreeList) == [] ==>
        && r.Ptr? && r.id !in old(nodes) && FreeList == []
        && freeCount == old(freeCount) && nodes == old(nodes)[r.id := Node(Zeros(), Nil)]
      ensures r.Ptr? ==> Held == old(Held) + {r.id}
    {
      if closed {
        return Nil;
      }
      r := TryPopFree();
      if r == Nil {
        r := Allocate();
      } else {
        freeCount := freeCount - 1;
      }
    }

    /** `new Node()`: a fresh zeroed node with null `next`, held by the
        caller. */
    method Allocate() returns (r: Link)
      requires Inv(State())
      modifies this
      ensures Inv(State())
      ensures r.Ptr? && r.id !in old(nodes) && nodes == old(nodes)[r.id := Node(Zeros(), Nil)]
      ensures Held == old(Held) + {r.id}
      ensures FreeList == old(FreeList) && ReadyList == old(ReadyList)
      ensures freeCount == old(freeCount) && readyCount == old(readyCount) && closed == old(closed)
    {
      ghost var s := State();
      AllocateStep(s);
      r := Ptr(nextId);
      nextId, nodes, Held := nextId + 1, nodes[r.id := Node(Zeros(), Nil)], Held + {r.id};
      assert State() == s.(nextId := s.nextId + 1, nodes := s.nodes[s.nextId := Node(Zeros(), Nil)],
                           held := s.held + {s.nextId});
    }

    /** `delete n`: a held node leaves the arena. */
    method DeleteNode(id: NodeId)
      requires Valid() && id in Held
      modifies this
      ensures Valid()
      ensures nodes == old(nodes) - {id} && Held == old(Held) - {id}
      ensures FreeList == old(FreeList) && ReadyList == old(ReadyList)
      ensures freeCount == old(freeCount) && readyCount == old(readyCount) && closed == old(closed)
    {
      ghost var s := State();
      DeleteStep(s, id);
      nodes, Held := nodes - {id}, Held - {id};
      assert State() == s.(nodes := s.nodes - {id}, held := s.held - {id});
    }

    /** The open branch of `addNode`: link a held node, with null `next`,
        after the tail of the ready list (or as its only node) and grow
        `ready_count_`. */
    method PushReady(id: NodeId)
      requires Valid() && id in Held
      modifies this
      ensures Valid()
      ensures ReadyList == old(ReadyList) + [id] && readyCount == old(readyCount) + 1
      ensures readyTail == Ptr(id) && id in nodes && nodes[id] == old(nodes[id]).(next := Nil)
      ensures nodes.Keys == old(nodes.Keys) && Held == old(Held) - {id}
      ensures FreeList == old(FreeList) && freeCount == old(freeCount) && closed == old(closed)
    {
      ghost var s := State();
      SubmitStep(s, id);
      if readyTail == Nil {
        LinkOnly(id);
      } else {
        ElemsLast(ReadyList);
        LinkAfterTail(id);
      }
      assert State() == Submitted(s, id);
    }

    /** `n->next = nullptr; ready_head_ = ready_tail_ = n` on an empty
        ready list, then `++ready_count_`. */
    method LinkOnly(id: NodeId)
      requires readyTail == Nil && id in nodes
      modifies this
      ensures nodes == old(nodes)[id := old(nodes)[id].(next := Nil)]
      ensures readyHead == Ptr(id) && readyTail == Ptr(id) && readyCount == old(readyCount) + 1
      ensures ReadyList == old(ReadyList) + [id] && Held == old(Held) - {id}
      ensures freeHead == old(freeHead) && freeCount == old(freeCount) && FreeList == old(FreeList)
      ensures closed == old(closed) && nextId == old(nextId)
    {
      nodes := nodes[id := nodes[id].(next := Nil)];
      readyHead, readyTail := Ptr(id), Ptr(id);
      readyCount, ReadyList, Held := readyCount + 1, ReadyList + [id], Held - {id};
    }

    /** `n->next = nullptr; ready_tail_->next = n; ready_tail_ = n` on a
        non-empty ready list, then `++ready_count_`. */
    method LinkAfterTail(id: NodeId)
      requires readyTail.Ptr? && id in nodes && readyTail.id in nodes
      modifies this
      ensures var m := old(nodes)[id := old(nodes)[id].(next := Nil)];
        nodes == m[old(readyTail).id := m[old(readyTail).id].(next := Ptr(id))]
      ensures readyHead == old(readyHead) && readyTail == Ptr(id) && readyCount == old(readyCount) + 1
      ensures ReadyList == old(ReadyList) + [id] && Held == old(Held) - {id}
      ensures freeHead == old(freeHead) && freeCount == old(freeCount) && FreeList == old(FreeList)
      ensures closed == old(closed) && nextId == old(nextId)
    {
      nodes := nodes[id := nodes[id].(next := Nil)];
      nodes := nodes[readyTail.id := nodes[readyTail.id].(next := Ptr(id))];
      readyTail := Ptr(id);
      readyCount, ReadyList, Held := readyCount + 1, ReadyList + [id], Held - {id};
    }

    /** `addNode`: false for null. When closed, false, and the node is
        deleted: it leaves the arena and the caller no longer holds it.
        Otherwise the node is linked, with `next` null, after the tail of
        the ready list, `ready_count_` grows and the result is true. */
    method AddNode(n: Link) returns (ok: bool)
      requires Valid()
      requires n.Ptr? ==> n.id in Held
      modifies this
      ensures Valid()
      ensures ok <==> n.Ptr? && !old(closed)
      ensures n == Nil ==> unchanged(this)
      ensures closed == old(closed) && FreeList == old(FreeList) && freeCount == old(freeCount)
      ensures n.Ptr? && old(closed) ==>
        && ReadyList == old(ReadyList) && Held == old(Held) - {n.id}
        && nodes == old(nodes) - {n.id}
      ensures ok ==>
        && ReadyList == old(ReadyList) + [n.id] && readyCount == old(readyCount) + 1
        && readyTail == n && n.id in nodes && nodes[n.id] == old(nodes[n.id]).(next := Nil)
        && nodes.Keys == old(nodes.Keys) && Held == old(Held) - {n.id}
    {
      if n == Nil {
        return false;
      }
      if closed {
        DeleteNode(n.id);
        return false;
      }
      PushReady(n.id);
      return true;
    }

    /** `try_pop_ready_unsafe`: unlink the oldest ready node, if any,
        clear its `next`, and null `ready_tail_` when the list empties;
        the caller then holds the node. `ready_count_` is left to the
        caller. */
    method TryPopReady() returns (n: Link)
      requires Valid()
      modifies this
      ensures Inv(State())
      ensures n == (if old(ReadyList) == [] then Nil else Ptr(old(ReadyList)[0]))
      ensures ReadyList == if old(ReadyList) == [] then [] else old(ReadyList)[1..]
      ensures n.Ptr? ==>
        && n.id in old(nodes) && nodes == old(nodes)[n.id := old(nodes)[n.id].(next := Nil)]
        && Held == old(Held) + {n.id}
      ensures n == Nil ==> Held == old(Held) && nodes == old(nodes)
      ensures FreeList == old(FreeList) && freeCount == old(freeCount) && readyCount == old(readyCount)
      ensures closed == old(closed) && nextId == old(nextId)
    {
      n := readyHead;
      if n == Nil {
        return Nil;
      }
      ghost var s := State();
      TakeReadyStep(s);
      readyHead := nodes[n.id].next;
      if readyHead == Nil {
        readyTail := Nil;
      }
      nodes, ReadyList, Held := nodes[n.id := nodes[n.id].(next := Nil)], ReadyList[1..], Held + {n.id};
      ghost var k := s.ready[0];
      assert State() == s.(readyHead := s.nodes[k].next,
                           readyTail := if s.nodes[k].next == Nil then Nil else s.readyTail,
                           nodes := s.nodes[k := s.nodes[k].(next := Nil)],
                           ready := s.ready[1..], held := s.held + {k});
    }

    /** `getNode`: waits until the pool is closed or a node is ready.
        Null only when closed and drained; otherwise the oldest ready node
        (FIFO), with `ready_count_` one less. Ready nodes stay retrievable
        after `close`. */
    method GetNode() returns (r: Blocking<Link>)
      requires Valid()
      modifies this
      ensures Valid()
      ensures r == Returned(Nil) <==> old(closed) && old(ReadyList) == []
      ensures r == WouldBlock <==> !old(closed) && old(ReadyList) == []
      ensures old(ReadyList) == [] ==> unchanged(this)
      ensures old(ReadyList) != [] ==>
        && r == Returned(Ptr(old(ReadyList)[0])) && ReadyList == old(ReadyList)[1..]
        && readyCount == old(readyCount) - 1
        && nodes == old(nodes)[old(ReadyList)[0] := old(nodes)[old(ReadyList)[0]].(next := Nil)]
        && Held == old(Held) + {old(ReadyList)[0]}
      ensures closed == old(closed) && FreeList == old(FreeList)
    {
      if !closed && readyHead == Nil {
        return WouldBlock;
      }
      if readyHead == Nil {
        return Returned(Nil);
      }
      var n := TryPopReady();
      readyCount := readyCount - 1;
      return Returned(n);
    }

    /** `addFree`: push the node onto the head of the free list (LIFO:
        the next `getFree` returns it) and grow `free_count_`; works
        whether or not the pool is closed; null is a no-op. */
    method AddFree(n: Link)
      requires Valid()
      requires n.Ptr? ==> n.id in Held
      modifies this
      ensures Valid()
      ensures n == Nil ==> unchanged(this)
      ensures n.Ptr? ==>
        && FreeList == [n.id] + old(FreeList) && freeCount == old(freeCount) + 1
        && freeHead == n && n.id in old(nodes)
        && nodes == old(nodes)[n.id := old(nodes)[n.id].(next := old(freeHead))]
        && Held == old(Held) - {n.id}
      ensures closed == old(closed) && ReadyList == old(ReadyList)
    {
      if n == Nil {
        return;
      }
      ghost var s := State();
      ReturnFreeStep(s, n.id);
      nodes, freeHead, freeCount := nodes[n.id := nodes[n.id].(next := freeHead)], n, freeCount + 1;
      FreeList, Held := [n.id] + FreeList, Held - {n.id};
      assert State() == s.(nodes := s.nodes[n.id := s.nodes[n.id].(next := s.freeHead)], freeHead := n,
                           free := [n.id] + s.free, held := s.held - {n.id});
    }

    /** `readySize`: the length of the ready list; nothing changes. */
    method ReadySize() returns (c: nat)
      requires Valid()
      ensures c == |ReadyList|
    {
      return readyCount;
    }

    /** `freeSize`: the length of the free list; nothing changes. */
    method FreeSize() returns (c: nat)
      requires Valid()
      ensures c == |FreeList|
    {
      return freeCount;
    }

    /** `close`: sets the permanent flag and leaves both lists alone, so
        nodes already ready can still be taken in order. */
    method Close()
      requires Valid()
      modifies this
      ensures Valid() && closed
      ensures FreeList == old(FreeList) && ReadyList == old(ReadyList)
      ensures Held == old(Held) && nodes == old(nodes)
      ensures freeCount == old(freeCount) && readyCount == old(readyCount)
    {
      closed := true;
    }

    /** A holder writing `node->data` (the listener fills the payload
        between `getFree` and `addNode`). */
    method Fill(id: NodeId, payload: seq<byte>)
      requires Valid() && id in Held && |payload| == Payload
      modifies this
      ensures Valid()
      ensures id in old(nodes) && nodes == old(nodes)[id := old(nodes)[id].(data := payload)]
      ensures FreeList == old(FreeList) && ReadyList == old(ReadyList) && Held == old(Held)
      ensures closed == old(closed)
    {
      ghost var s := State();
      FillStep(s, id, payload);
      nodes := nodes[id := nodes[id].(data := payload)];
      assert State() == s.(nodes := s.nodes[id := s.nodes[id].(data := payload)]);
    }
  }
}
