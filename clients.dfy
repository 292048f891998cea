/** Short runs of the two buffers as their threads use them: the sender's
    reader parking on a full ring and resuming, the receiver's shutdown
    sequence, and the listener's hand-off of a filled node
    (receiver_cpp/ListenerThread.cpp:105-124). */
module Clients {
  import opened Common
  import opened RingBuffer
  import opened FramePool

  /** A ring of capacity 10 takes 7 bytes, then only 3 of the next 7 fit
      and the writer parks; a reader takes 10 bytes, the writer resumes
      with the 4 bytes it still holds, and a reader takes those. The
      bytes come out in the order they went in, none lost or repeated. */
  method ResumeAfterFull() returns (parked: PushOutcome, first: seq<byte>, second: seq<byte>)
    ensures parked == BlockedFull
    ensures first == [0, 1, 2, 3, 4, 5, 6, 7, 8, 9]
    ensures second == [10, 11, 12, 13]
  {
    var ring := new ByteRing();
    var ok := ring.Init(10);
    var src1: seq<byte> := [0, 1, 2, 3, 4, 5, 6];
    var src2: seq<byte> := [7, 8, 9, 10, 11, 12, 13];
    var off1, done1 := ring.PushBytes(src1);
    assert off1 == 7 && ring.Contents == src1;
    var off2, done2 := ring.PushBytes(src2);
    assert off2 == 3 && ring.Contents == src1 + src2[..3];
    parked := done2;
    var dst1 := new byte[10];
    var n1, got1 := ring.PopExact(dst1, 10);
    assert n1 == 10 && dst1[..] == dst1[..10];
    assert src1 + src2[..3] == [0, 1, 2, 3, 4, 5, 6, 7, 8, 9];
    first := dst1[..];
    var off3, done3 := ring.PushBytes(src2[off2..]);
    assert ring.Contents == [10, 11, 12, 13];
    var dst2 := new byte[4];
    var n2, got2 := ring.PopExact(dst2, 4);
    assert n2 == 4 && dst2[..] == dst2[..4];
    second := dst2[..];
  }

  /** LIFO reuse: of two nodes given back, the one given back last is the
      next one handed out. */
  method RecycleOrder() returns (reused: Link)
    ensures reused == Ptr(1)
  {
    var pool := new DoubleListPool(2);
    var a := pool.GetFree();
    var b := pool.GetFree();
    pool.AddFree(a);
    pool.AddFree(b);
    reused := pool.GetFree();
  }

  /** The receiver's shutdown: two frames are queued, the pool is closed,
      a late `getFree` gets null and a late `addNode` is refused; the
      consumer still takes both frames in submission order and then the
      null that ends its loop. */
  method ShutdownDrain() returns (late: Link, lateAccepted: bool, taken: seq<Blocking<Link>>)
    ensures late == Nil && !lateAccepted
    ensures taken == [Returned(Ptr(0)), Returned(Ptr(1)), Returned(Nil)]
  {
    var pool := new DoubleListPool(2);
    var a := pool.GetFree();
    var b := pool.GetFree();
    var c := pool.GetFree();
    var okA := pool.AddNode(a);
    var okB := pool.AddNode(b);
    pool.Close();
    late := pool.GetFree();
    lateAccepted := pool.AddNode(c);
    var x := pool.GetNode();
    var y := pool.GetNode();
    var z := pool.GetNode();
    taken := [x, y, z];
  }

  /** The listener's hand-off as written (ListenerThread.cpp:116-119): on
      a refused `addNode` the node is passed on to `addFree`. The result
      is the node that call would receive; whenever there is one, the pool
      has already deleted it, so `addFree` would relink freed memory. */
  method HandOffAsWritten(pool: DoubleListPool, id: NodeId) returns (recycle: Link)
    requires pool.Valid() && id in pool.Held
    modifies pool
    ensures pool.Valid()
    ensures recycle.Ptr? <==> old(pool.closed)
    ensures recycle.Ptr? ==> recycle.id == id && id !in pool.nodes && id !in pool.Held
  {
    var ok := pool.AddNode(Ptr(id));
    recycle := if ok then Nil else Ptr(id);
  }

  /** A run that reaches the faulty path: some other thread closes the
      pool while the listener holds a node (the pool's interface allows
      it, though no thread of the receiver does so before the listener's
      loop ends), and the node handed back for recycling is no longer a
      live node of the pool. */
  method CloseDuringHandOff() returns (recycle: Link, stillLive: bool)
    ensures recycle == Ptr(0) && !stillLive
  {
    var pool := new DoubleListPool(1);
    var node := pool.GetFree();
    pool.Close();
    recycle := HandOffAsWritten(pool, node.id);
    stillLive := recycle.id in pool.nodes;
  }

  /** The hand-off corrected: a refused `addNode` has consumed the node,
      so the listener only stops. Either way the listener no longer holds
      the node, and it is either queued at the tail of the ready list or
      gone, never both and never dangling. */
  method HandOff(pool: DoubleListPool, id: NodeId) returns (ok: bool)
    requires pool.Valid() && id in pool.Held
    modifies pool
    ensures pool.Valid()
    ensures ok <==> !old(pool.closed)
    ensures id !in pool.Held
    ensures ok ==> pool.ReadyList == old(pool.ReadyList) + [id] && id in pool.nodes
    ensures !ok ==> pool.ReadyList == old(pool.ReadyList) && id !in pool.nodes
    ensures pool.FreeList == old(pool.FreeList)
  {
    ok := pool.AddNode(Ptr(id));
  }
}
