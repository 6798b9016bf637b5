/**
 What every step of the engine keeps, whatever the schedule, the stream and the addresses: the accounting of requests, the
 tiling of the stream by the pieces read, and the bookkeeping of receipts.
 */
module Accounting {
  import opened Deliver
  import opened Engine
  import opened Pdu

  /** A request that sms112_req_stor_add accepted. */
  predicate Accepted(r: Request) {
    !(r.phase.Gone? && r.phase.exit == Exists)
  }

  ghost predicate NoDuplicates(ids: seq<nat>) {
    forall i, j :: 0 <= i < j < |ids| ==> ids[i] != ids[j]
  }

  ghost predicate StoreOk(w: World) {
    forall key :: key in w.store ==>
                    var e := w.store[key];
                    && e.owner < |w.reqs| && e.owner !in w.handed
                    && w.reqs[e.owner].key == key && w.reqs[e.owner].addr == e.addr && Accepted(w.reqs[e.owner])
  }

  ghost predicate AllAccounted(w: World) {
    forall i :: 0 <= i < |w.reqs| && Accepted(w.reqs[i]) && i !in w.handed ==>
                  w.reqs[i].key in w.store && w.store[w.reqs[i].key].owner == i
  }

  ghost predicate HandedOk(w: World) {
    && NoDuplicates(w.handed)
    && forall i :: i in w.handed ==> i < |w.reqs| && Accepted(w.reqs[i])
  }

  /** Each request passes the stages handed, filled and posted in the same order, and at most one is on its way. */
  ghost predicate StagesOk(w: World) {
    match w.rcv
    case Holding(h, e) => w.handed == w.filled + [e.owner] && w.posted == w.filled
    case Filled(h, e) => w.handed == w.filled == w.posted + [e.owner]
    case Ready(h, e) => w.handed == w.filled == w.posted + [e.owner]
    case _ => w.handed == w.filled == w.posted
  }

  ghost predicate ReceiverOk(w: World) {
    && (w.rcv.Peeked? || w.rcv.Holding? ==> w.pos + HEADER_SIZE <= |w.inbound| && w.rcv.h == HeaderAt(w.inbound, w.pos))
    && (w.rcv.Holds() ==>
          var e := w.rcv.e;
          && e.owner < |w.reqs| && w.reqs[e.owner].key == w.rcv.h.seqNum && w.reqs[e.owner].addr == e.addr
          && IsResponse(w.rcv.h))
    && (w.rcv.Filled? || w.rcv.Ready? ==> w.rcv.e.owner in w.receipts && w.receipts[w.rcv.e.owner].h == w.rcv.h)
    && (w.rcv.Filled? ==> Full(w.rcv.h.length, w.receipts[w.rcv.e.owner].got))
  }

  /** A receipt tells where in the stream its bytes came from, behind the header that named the request. */
  ghost predicate ReceiptOk(w: World, i: nat, r: Receipt) {
    && i < |w.reqs| && IsResponse(r.h) && r.h.seqNum == w.reqs[i].key
    && r.at + HEADER_SIZE <= |w.inbound| && r.h == HeaderAt(w.inbound, r.at)
    && -1 <= r.got <= r.h.length && r.at + Taken(r.got) <= |w.inbound|
    && r.index < |w.pieces| && w.pieces[r.index] == w.inbound[r.at..r.at + Taken(r.got)]
  }

  ghost predicate ReceiptsOk(w: World) {
    && (forall i :: i in w.receipts <==> i in w.filled)
    && (forall i :: i in w.receipts ==> ReceiptOk(w, i, w.receipts[i]))
    && forall i, j :: i in w.receipts && j in w.receipts && i != j ==> w.receipts[i].index != w.receipts[j].index
  }

  ghost predicate StreamOk(w: World) {
    w.pos <= |w.inbound| && Concat(w.pieces) == w.inbound[..w.pos]
  }

  ghost predicate CellsOk(w: World) {
    forall i :: 0 <= i < |w.reqs| ==> w.reqs[i].addr in w.cells
  }

  ghost predicate Base(w: World) {
    StoreOk(w) && AllAccounted(w) && HandedOk(w) && StagesOk(w) && ReceiverOk(w) && ReceiptsOk(w) && StreamOk(w) && CellsOk(w)
  }

  // ---------------------------------------------------------------- preservation

  /** Receipts stay good while requests keep their keys and the pieces only grow. */
  lemma ReceiptsFrame(w: World, w': World)
    requires ReceiptsOk(w)
    requires w'.inbound == w.inbound && w'.receipts == w.receipts && w'.filled == w.filled && w.pieces <= w'.pieces
    requires |w.reqs| <= |w'.reqs| && forall i :: 0 <= i < |w.reqs| ==> w'.reqs[i].key == w.reqs[i].key
    ensures ReceiptsOk(w')
  {
    forall i | i in w'.receipts
      ensures ReceiptOk(w', i, w'.receipts[i])
    {
      assert ReceiptOk(w, i, w.receipts[i]);
    }
  }

  /** The requests of the old world keep everything but, perhaps, how far they got. */
  ghost predicate SameRequests(w: World, w': World) {
    && |w.reqs| <= |w'.reqs|
    && forall i :: 0 <= i < |w.reqs| ==>
                     w'.reqs[i].key == w.reqs[i].key && w'.reqs[i].addr == w.reqs[i].addr
                     && (Accepted(w'.reqs[i]) <==> Accepted(w.reqs[i]))
  }

  /** What only depends on the store, the histories and the receiver. */
  lemma RestFrame(w: World, w': World)
    requires Base(w) && SameRequests(w, w')
    requires w'.inbound == w.inbound && w'.pos == w.pos && w'.pieces == w.pieces && w'.rcv == w.rcv
    requires w'.handed == w.handed && w'.filled == w.filled && w'.posted == w.posted && w'.receipts == w.receipts
    ensures HandedOk(w') && StagesOk(w') && ReceiverOk(w') && ReceiptsOk(w') && StreamOk(w')
  {
    ReceiptsFrame(w, w');
  }

  lemma BeginStore(w: World, key: uint32, addr: nat)
    requires StoreOk(w) && AllAccounted(w) && HandedOk(w)
    ensures StoreOk(DoBegin(w, key, addr)) && AllAccounted(DoBegin(w, key, addr))
  {
    var w' := DoBegin(w, key, addr);
    assert forall i :: 0 <= i < |w.reqs| ==> w'.reqs[i] == w.reqs[i];
  }

  lemma BeginSame(w: World, key: uint32, addr: nat)
    requires CellsOk(w)
    ensures SameRequests(w, DoBegin(w, key, addr)) && CellsOk(DoBegin(w, key, addr))
  {
    var w' := DoBegin(w, key, addr);
    assert forall i :: 0 <= i < |w.reqs| ==> w'.reqs[i] == w.reqs[i];
  }

  lemma BeginKeeps(w: World, key: uint32, addr: nat)
    requires Base(w)
    ensures Base(DoBegin(w, key, addr))
  {
    BeginSame(w, key, addr);
    BeginStore(w, key, addr);
    RestFrame(w, DoBegin(w, key, addr));
  }

  /** A requester's step after sms112_req_stor_add changes its own phase and no part of the accounting. */
  lemma PhaseKeeps(w: World, w': World, id: nat)
    requires Base(w) && id < |w.reqs| && Accepted(w.reqs[id])
    requires w' == w.(reqs := w'.reqs, cells := w'.cells, peer := w'.peer)
    requires |w'.reqs| == |w.reqs| && (forall i :: 0 <= i < |w.reqs| && i != id ==> w'.reqs[i] == w.reqs[i])
    requires w'.reqs[id].key == w.reqs[id].key && w'.reqs[id].addr == w.reqs[id].addr && Accepted(w'.reqs[id])
    requires w.cells.Keys <= w'.cells.Keys
    ensures Base(w')
  {
    assert SameRequests(w, w');
    RestFrame(w, w');
  }

  lemma SendKeeps(w: World, id: nat, s: Sending)
    requires Base(w) && Enabled(w, Send(id, s))
    ensures Base(DoSend(w, id, s))
  {
    PhaseKeeps(w, DoSend(w, id, s), id);
  }

  lemma TimedLockKeeps(w: World, id: nat, lock: int)
    requires Base(w) && Enabled(w, TimedLock(id, lock))
    ensures Base(DoTimedLock(w, id, lock))
  {
    PhaseKeeps(w, DoTimedLock(w, id, lock), id);
  }

  lemma CheckKeeps(w: World, id: nat)
    requires Base(w) && Enabled(w, Check(id))
    ensures Base(DoCheck(w, id))
  {
    PhaseKeeps(w, DoCheck(w, id), id);
  }

  lemma TakeKeeps(w: World)
    requires Base(w) && Enabled(w, Take)
    ensures Base(DoTake(w))
  {
    var w' := DoTake(w);
    var key := w.rcv.h.seqNum;
    if key in w.store {
      var owner := w.store[key].owner;
      assert forall i :: i in w'.handed <==> i in w.handed || i == owner;
      forall other | other in w'.store
        ensures w'.store[other].owner != owner
      {
        assert w.reqs[w.store[other].owner].key == other;
      }
    }
    ReceiptsFrame(w, w');
  }

  lemma ConsumeKeeps(w: World, got: nat)
    requires StreamOk(w) && w.pos + got <= |w.inbound|
    ensures StreamOk(Consume(w, got))
  {
    ConcatSnoc(w.pieces, w.inbound[w.pos..w.pos + got]);
    assert w.inbound[..w.pos + got] == w.inbound[..w.pos] + w.inbound[w.pos..w.pos + got];
  }

  /** One more receipt, for a request that has none, over the piece just read. */
  lemma AddReceipt(w: World, w': World, owner: nat, r: Receipt)
    requires ReceiptsOk(w) && owner !in w.filled
    requires w'.inbound == w.inbound && w'.reqs == w.reqs && w.pieces <= w'.pieces
    requires w'.receipts == w.receipts[owner := r] && w'.filled == w.filled + [owner]
    requires ReceiptOk(w', owner, r) && r.index == |w.pieces|
    ensures ReceiptsOk(w')
  {
    forall i | i in w'.receipts
      ensures ReceiptOk(w', i, w'.receipts[i])
      ensures i != owner ==> w'.receipts[i] == w.receipts[i] && w'.receipts[i].index < |w.pieces|
    {
      if i != owner {
        assert ReceiptOk(w, i, w.receipts[i]);
      }
    }
  }

  lemma LastIsNew(ids: seq<nat>, last: nat)
    requires NoDuplicates(ids + [last])
    ensures last !in ids
  {
    assert (ids + [last])[|ids|] == last;
    assert forall i :: 0 <= i < |ids| ==> (ids + [last])[i] == ids[i];
  }

  lemma FillReceipts(w: World, got: int)
    requires NoDuplicates(w.handed) && StagesOk(w) && ReceiverOk(w) && ReceiptsOk(w)
    requires Enabled(w, RecvResponse(got))
    ensures ReceiptsOk(DoRecvResponse(w, got))
  {
    var owner := w.rcv.e.owner;
    var r, w' := Receipt(w.rcv.h, w.pos, got, |w.pieces|), DoRecvResponse(w, got);
    LastIsNew(w.filled, owner);
    assert w'.pieces[|w.pieces|] == w.inbound[w.pos..w.pos + Taken(got)];
    assert ReceiptOk(w', owner, r);
    AddReceipt(w, w', owner, r);
  }

  lemma FillStages(w: World, got: int)
    requires StagesOk(w) && ReceiverOk(w) && Enabled(w, RecvResponse(got))
    ensures StagesOk(DoRecvResponse(w, got)) && ReceiverOk(DoRecvResponse(w, got))
  {
  }

  lemma RecvResponseKeeps(w: World, got: int)
    requires Base(w) && Enabled(w, RecvResponse(got))
    ensures Base(DoRecvResponse(w, got))
  {
    var w' := DoRecvResponse(w, got);
    assert StreamOk(w') by { FillStream(w, got); }
    assert ReceiptsOk(w') by { FillReceipts(w, got); }
    assert StagesOk(w') && ReceiverOk(w') by { FillStages(w, got); }
    assert StoreOk(w') && AllAccounted(w') && HandedOk(w') && CellsOk(w') by { FillLeaves(w, got); }
  }

  lemma FillStream(w: World, got: int)
    requires StreamOk(w) && Enabled(w, RecvResponse(got))
    ensures StreamOk(DoRecvResponse(w, got))
  {
    ConsumeKeeps(w, Taken(got));
  }

  lemma FillLeaves(w: World, got: int)
    requires StoreOk(w) && AllAccounted(w) && HandedOk(w) && CellsOk(w) && Enabled(w, RecvResponse(got))
    ensures var w' := DoRecvResponse(w, got); StoreOk(w') && AllAccounted(w') && HandedOk(w') && CellsOk(w')
  {
  }

  lemma SetLengthKeeps(w: World)
    requires Base(w) && Enabled(w, SetLength)
    ensures Base(DoSetLength(w))
  {
    ReceiptsFrame(w, DoSetLength(w));
  }

  lemma PostKeeps(w: World)
    requires Base(w) && Enabled(w, Post)
    ensures Base(DoPost(w))
  {
    ReceiptsFrame(w, DoPost(w));
  }

  lemma PeekKeeps(w: World)
    requires Base(w) && Enabled(w, Peek)
    ensures Base(DoPeek(w))
  {
    ReceiptsFrame(w, DoPeek(w));
  }

  lemma RecvRequestKeeps(w: World, got: int)
    requires Base(w) && Enabled(w, RecvRequest(got))
    ensures Base(DoRecvRequest(w, got))
  {
    ConsumeKeeps(w, Taken(got));
    RequestReceipts(w, got);
  }

  lemma RequestReceipts(w: World, got: int)
    requires ReceiptsOk(w) && Enabled(w, RecvRequest(got))
    ensures ReceiptsOk(DoRecvRequest(w, got))
  {
    ReceiptsFrame(w, DoRecvRequest(w, got));
  }

  lemma OperateKeeps(w: World, o: Outside)
    requires Base(w) && Enabled(w, Operate(o))
    ensures Base(DoOperate(w, o))
  {
    ReceiptsFrame(w, DoOperate(w, o));
  }

  lemma StepKeepsBase(w: World, a: Action)
    requires Base(w) && Enabled(w, a)
    ensures Base(Step(w, a))
  {
    match a
    case Begin(key, addr) => BeginKeeps(w, key, addr);
    case Send(id, s) => SendKeeps(w, id, s);
    case TimedLock(id, lock) => TimedLockKeeps(w, id, lock);
    case Check(id) => CheckKeeps(w, id);
    case Peek => PeekKeeps(w);
    case Take => TakeKeeps(w);
    case RecvResponse(got) => RecvResponseKeeps(w, got);
    case SetLength => SetLengthKeeps(w);
    case Post => PostKeeps(w);
    case RecvRequest(got) => RecvRequestKeeps(w, got);
    case Operate(o) => OperateKeeps(w, o);
  }

  lemma {:induction false} RunBase(ws: seq<World>, acts: seq<Action>, n: nat)
    requires Run(ws, acts) && n < |ws|
    ensures Base(ws[n])
  {
    if n > 0 {
      RunBase(ws, acts, n - 1);
      StepKeepsBase(ws[n - 1], acts[n - 1]);
    } else {
      assert Concat([]) == [];
    }
  }

  // ---------------------------------------------------------------- results

  /**
   Request accounting, for every run: the accepted requests split into those in the store, under their own key and once,
   and those handed to the receiver; each is handed out, filled and posted at most once, and in one and the same order.
   */
  lemma RequestsAccounted(ws: seq<World>, acts: seq<Action>, n: nat)
    requires Run(ws, acts) && n < |ws|
    ensures var w := ws[n];
            && (forall i :: 0 <= i < |w.reqs| && Accepted(w.reqs[i]) ==>
                              ((i in w.handed) <==> !(w.reqs[i].key in w.store && w.store[w.reqs[i].key].owner == i)))
            && (forall key :: key in w.store ==>
                                w.store[key].owner < |w.reqs| && Accepted(w.reqs[w.store[key].owner])
                                && w.reqs[w.store[key].owner].key == key)
            && NoDuplicates(w.handed) && w.posted <= w.filled <= w.handed && |w.handed| <= |w.posted| + 1
  {
    RunBase(ws, acts, n);
  }
}
