/**
 Correlation of responses with requests (section 5.1.4 of SMPP 3.4): what a requester finds in its cell when
 sms112_smpp_send returns, over every interleaving.
 */
module Correlation {
  import opened Accounting
  import opened Deliver
  import opened Engine
  import opened Pdu
  import opened Text

  predicate Live(r: Request) {
    !r.phase.Gone?
  }

  /** The store or the receiver holds a pointer to this address. */
  ghost predicate PointedAt(w: World, addr: nat) {
    (exists key :: key in w.store && w.store[key].addr == addr) || (w.rcv.Holds() && w.rcv.e.addr == addr)
  }

  /** A new request does not take the address of one that left while the store or the receiver still points at it. */
  ghost predicate NoReuse(w: World, a: Action) {
    a.Begin? ==> !PointedAt(w, a.addr)
  }

  // ---------------------------------------------------------------- invariant

  ghost predicate LiveApart(w: World) {
    forall i, j :: 0 <= i < j < |w.reqs| && Live(w.reqs[i]) && Live(w.reqs[j]) ==> w.reqs[i].addr != w.reqs[j].addr
  }

  ghost predicate StoreMeans(w: World) {
    forall key, i :: key in w.store && 0 <= i < |w.reqs| && Live(w.reqs[i]) && w.reqs[i].addr == w.store[key].addr ==>
                       i == w.store[key].owner
  }

  ghost predicate HeldMeans(w: World) {
    w.rcv.Holds() ==>
      forall i :: 0 <= i < |w.reqs| && Live(w.reqs[i]) && w.reqs[i].addr == w.rcv.e.addr ==> i == w.rcv.e.owner
  }

  /** A request in progress is alone at its address, and whoever points there means this request. */
  ghost predicate NoAlias(w: World) {
    LiveApart(w) && StoreMeans(w) && HeldMeans(w)
  }

  /** The bytes a receipt stands for. */
  ghost function BytesOf(w: World, r: Receipt): seq<byte>
    requires r.at + Taken(r.got) <= |w.inbound|
  {
    w.inbound[r.at..r.at + Taken(r.got)]
  }

  ghost predicate LengthSet(w: World, i: nat)
    requires i in w.receipts
  {
    Full(w.receipts[i].h.length, w.receipts[i].got) && !(w.rcv.Filled? && w.rcv.e.owner == i)
  }

  /** The cell of a request in progress holds what its receipt says, and nothing before there is one. */
  ghost predicate CellIs(w: World, i: nat)
    requires i < |w.reqs| && w.reqs[i].addr in w.cells
    requires i in w.receipts ==> w.receipts[i].at + Taken(w.receipts[i].got) <= |w.inbound|
  {
    var c := w.cells[w.reqs[i].addr];
    && c.buf == (if i in w.receipts then Some(BytesOf(w, w.receipts[i])) else None)
    && c.dataLen == (if i in w.receipts && LengthSet(w, i) then ToInt(w.receipts[i].h.length) else 0)
    && (c.posted <==> i in w.posted && w.reqs[i].phase != Woken(0))
    && (w.reqs[i].phase == Woken(0) ==> i in w.posted)
  }

  /** What a requester that has returned found, by the exit it took. */
  ghost predicate GoneIs(w: World, i: nat)
    requires i < |w.reqs| && w.reqs[i].phase.Gone?
    requires i in w.receipts ==> w.receipts[i].at + Taken(w.receipts[i].got) <= |w.inbound|
  {
    var p := w.reqs[i].phase;
    match p.exit
    case Completed =>
      && p.ret == 0 && i in w.receipts
      && if p.dataLen != 0
         then Full(w.receipts[i].h.length, w.receipts[i].got) && p.dataLen == ToInt(w.receipts[i].h.length)
              && p.buf == Some(BytesOf(w, w.receipts[i]))
         else !Full(w.receipts[i].h.length, w.receipts[i].got) || w.receipts[i].h.length == 0
    case _ => p.ret != 0 && p.dataLen == 0
  }

  ghost predicate RequestIs(w: World, i: nat) {
    && i < |w.reqs| && w.reqs[i].addr in w.cells
    && (i in w.receipts ==> ReceiptOk(w, i, w.receipts[i]))
    && if Live(w.reqs[i]) then CellIs(w, i) else GoneIs(w, i)
  }

  ghost predicate Correlated(w: World) {
    && NoAlias(w)
    && forall i :: 0 <= i < |w.reqs| ==> RequestIs(w, i)
  }

  /** The receiver has filled this request's buffer and not yet set its length. */
  predicate BetweenFillAndLength(w: World, i: nat) {
    w.rcv.Filled? && w.rcv.e.owner == i
  }

  /** A step that leaves alone all that is said of a request. */
  lemma RequestFrame(w: World, w': World, i: nat)
    requires RequestIs(w, i)
    requires i < |w'.reqs| && w'.reqs[i] == w.reqs[i] && w'.inbound == w.inbound && w.pieces <= w'.pieces
    requires w.reqs[i].addr in w'.cells && (Live(w.reqs[i]) ==> w'.cells[w.reqs[i].addr] == w.cells[w.reqs[i].addr])
    requires (i in w'.receipts <==> i in w.receipts) && (i in w.receipts ==> w'.receipts[i] == w.receipts[i])
    requires i in w.posted <==> i in w'.posted
    requires BetweenFillAndLength(w, i) <==> BetweenFillAndLength(w', i)
    ensures RequestIs(w', i)
  {
  }

  // ---------------------------------------------------------------- requesters' steps

  lemma BeginApart(w: World, key: uint32, addr: nat)
    requires LiveApart(w) && Enabled(w, Begin(key, addr))
    ensures LiveApart(DoBegin(w, key, addr))
  {
    var w', n := DoBegin(w, key, addr), |w.reqs|;
    assert forall i :: 0 <= i < n ==> w'.reqs[i] == w.reqs[i];
    assert w'.reqs[n].addr == addr;
  }

  lemma BeginStoreMeans(w: World, key: uint32, addr: nat)
    requires StoreOk(w) && StoreMeans(w) && Enabled(w, Begin(key, addr)) && !PointedAt(w, addr)
    ensures StoreMeans(DoBegin(w, key, addr))
  {
    var w', n := DoBegin(w, key, addr), |w.reqs|;
    forall k, i | k in w'.store && 0 <= i < |w'.reqs| && Live(w'.reqs[i]) && w'.reqs[i].addr == w'.store[k].addr
      ensures i == w'.store[k].owner
    {
      assert i < n ==> w'.reqs[i] == w.reqs[i];
      assert i == n ==> w'.reqs[i].addr == addr;
    }
  }

  lemma BeginHeldMeans(w: World, key: uint32, addr: nat)
    requires HeldMeans(w) && !PointedAt(w, addr)
    ensures HeldMeans(DoBegin(w, key, addr))
  {
    var w', n := DoBegin(w, key, addr), |w.reqs|;
    assert forall i :: 0 <= i < n ==> w'.reqs[i] == w.reqs[i];
    assert w'.reqs[n].addr == addr;
  }

  lemma ReceiptsInRange(w: World)
    requires ReceiptsOk(w)
    ensures |w.reqs| !in w.receipts
  {
    assert forall i :: i in w.receipts ==> i < |w.reqs|;
  }

  lemma BeginCorrelated(w: World, key: uint32, addr: nat)
    requires Base(w) && Correlated(w) && Enabled(w, Begin(key, addr)) && !PointedAt(w, addr)
    ensures Correlated(DoBegin(w, key, addr))
  {
    var w', n := DoBegin(w, key, addr), |w.reqs|;
    BeginApart(w, key, addr);
    BeginStoreMeans(w, key, addr);
    BeginHeldMeans(w, key, addr);
    ReceiptsInRange(w);
    forall i | 0 <= i < |w'.reqs|
      ensures RequestIs(w', i)
    {
      if i < n {
        assert w'.reqs[i] == w.reqs[i];
        assert RequestIs(w, i);
        RequestFrame(w, w', i);
      }
    }
  }

  /** A requester's step changes its own phase and, perhaps, its own cell. */
  lemma OwnStep(w: World, w': World, id: nat)
    requires Correlated(w) && id < |w.reqs| && Live(w.reqs[id])
    requires w' == w.(reqs := w'.reqs, cells := w'.cells, peer := w'.peer)
    requires |w'.reqs| == |w.reqs| && forall i :: 0 <= i < |w.reqs| && i != id ==> w'.reqs[i] == w.reqs[i]
    requires w'.reqs[id].addr == w.reqs[id].addr && w'.reqs[id].key == w.reqs[id].key
    requires forall addr :: addr in w.cells ==> addr in w'.cells && (addr != w.reqs[id].addr ==> w'.cells[addr] == w.cells[addr])
    requires RequestIs(w', id)
    ensures Correlated(w')
  {
    OwnAlias(w, w', id);
    forall i | 0 <= i < |w'.reqs|
      ensures RequestIs(w', i)
    {
      if i != id {
        assert RequestIs(w, i);
        assert Live(w.reqs[i]) ==> w.reqs[i].addr != w.reqs[id].addr;
        RequestFrame(w, w', i);
      }
    }
  }

  lemma OwnAlias(w: World, w': World, id: nat)
    requires NoAlias(w) && id < |w.reqs| && Live(w.reqs[id])
    requires w'.store == w.store && w'.rcv == w.rcv && |w'.reqs| == |w.reqs|
    requires forall i :: 0 <= i < |w.reqs| && i != id ==> w'.reqs[i] == w.reqs[i]
    requires w'.reqs[id].addr == w.reqs[id].addr
    ensures NoAlias(w')
  {
    assert forall i :: 0 <= i < |w.reqs| ==> w'.reqs[i].addr == w.reqs[i].addr && (Live(w'.reqs[i]) ==> Live(w.reqs[i]));
  }

  lemma SendCorrelated(w: World, id: nat, s: Sending)
    requires Correlated(w) && Enabled(w, Send(id, s))
    ensures Correlated(DoSend(w, id, s))
  {
    assert RequestIs(w, id);
    OwnStep(w, DoSend(w, id, s), id);
  }

  lemma TimedLockCorrelated(w: World, id: nat, lock: int)
    requires Correlated(w) && Enabled(w, TimedLock(id, lock))
    ensures Correlated(DoTimedLock(w, id, lock))
  {
    assert RequestIs(w, id);
    OwnStep(w, DoTimedLock(w, id, lock), id);
  }

  /** Whoever has been posted has been handed and filled, and is no longer in the receiver's hands. */
  lemma PostedIsDone(w: World, i: nat)
    requires StagesOk(w) && HandedOk(w) && ReceiptsOk(w) && i in w.posted
    ensures i in w.receipts && i in w.filled && i in w.handed && (w.rcv.Holds() ==> w.rcv.e.owner != i)
  {
    if w.rcv.Holds() {
      var last := w.rcv.e.owner;
      assert w.handed == w.posted + [last];
      LastIsNew(w.posted, last);
    }
  }

  lemma CheckCorrelated(w: World, id: nat)
    requires Base(w) && Correlated(w) && Enabled(w, Check(id))
    ensures Correlated(DoCheck(w, id))
  {
    assert RequestIs(w, id);
    if id in w.posted {
      PostedIsDone(w, id);
    }
    OwnStep(w, DoCheck(w, id), id);
  }

  // ---------------------------------------------------------------- the receiver's steps

  /** Steps of the receiver that touch no cell and no receipt. */
  lemma ReceiverStep(w: World, w': World)
    requires Correlated(w)
    requires w'.reqs == w.reqs && w'.cells == w.cells && w'.receipts == w.receipts && w'.inbound == w.inbound
    requires w'.posted == w.posted && w.pieces <= w'.pieces && !w.rcv.Filled? && !w'.rcv.Filled?
    requires NoAlias(w')
    ensures Correlated(w')
  {
    forall i | 0 <= i < |w'.reqs|
      ensures RequestIs(w', i)
    {
      assert RequestIs(w, i);
      RequestFrame(w, w', i);
    }
  }

  lemma TakeCorrelated(w: World)
    requires Correlated(w) && Enabled(w, Take)
    ensures Correlated(DoTake(w))
  {
    ReceiverStep(w, DoTake(w));
  }

  lemma PeekCorrelated(w: World)
    requires Correlated(w) && Enabled(w, Peek)
    ensures Correlated(DoPeek(w))
  {
    ReceiverStep(w, DoPeek(w));
  }

  lemma RecvRequestCorrelated(w: World, got: int)
    requires Correlated(w) && Enabled(w, RecvRequest(got))
    ensures Correlated(DoRecvRequest(w, got))
  {
    ReceiverStep(w, DoRecvRequest(w, got));
  }

  lemma OperateCorrelated(w: World, o: Outside)
    requires Correlated(w) && Enabled(w, Operate(o))
    ensures Correlated(DoOperate(w, o))
  {
    ReceiverStep(w, DoOperate(w, o));
  }

  /** Steps of the receiver on the cell of the request in its hands. */
  lemma HeldStep(w: World, w': World, owner: nat)
    requires Correlated(w) && w.rcv.Holds() && owner == w.rcv.e.owner && owner < |w.reqs|
    requires w'.reqs == w.reqs && w'.store == w.store && w'.inbound == w.inbound && w.pieces <= w'.pieces
    requires (w'.rcv.Holds() ==> w'.rcv.e == w.rcv.e)
    requires forall addr :: addr in w.cells ==> addr in w'.cells && (addr != w.rcv.e.addr ==> w'.cells[addr] == w.cells[addr])
    requires forall i :: i != owner ==> (i in w.receipts <==> i in w'.receipts)
    requires forall i :: i in w.receipts && i in w'.receipts ==> w'.receipts[i] == w.receipts[i]
    requires forall i :: i != owner ==> (i in w.posted <==> i in w'.posted)
    requires RequestIs(w', owner)
    ensures Correlated(w')
  {
    forall i | 0 <= i < |w'.reqs|
      ensures RequestIs(w', i)
    {
      if i != owner {
        assert RequestIs(w, i);
        assert Live(w.reqs[i]) ==> w.reqs[i].addr != w.rcv.e.addr;
        RequestFrame(w, w', i);
      }
    }
  }

  /** The request in the receiver's hands, once its buffer is filled. */
  lemma FilledRequest(w: World, got: int)
    requires Enabled(w, RecvResponse(got)) && ReceiverOk(w) && RequestIs(w, w.rcv.e.owner) && w.rcv.e.owner !in w.receipts
    ensures RequestIs(DoRecvResponse(w, got), w.rcv.e.owner)
  {
    var w' := DoRecvResponse(w, got);
    assert w'.pieces[|w.pieces|] == w.inbound[w.pos..w.pos + Taken(got)];
  }

  lemma RecvResponseCorrelated(w: World, got: int)
    requires Base(w) && Correlated(w) && Enabled(w, RecvResponse(got))
    ensures Correlated(DoRecvResponse(w, got))
  {
    var owner := w.rcv.e.owner;
    LastIsNew(w.filled, owner);
    assert owner !in w.receipts;
    FilledRequest(w, got);
    HeldStep(w, DoRecvResponse(w, got), owner);
  }

  lemma SetLengthCorrelated(w: World)
    requires Base(w) && Correlated(w) && Enabled(w, SetLength)
    ensures Correlated(DoSetLength(w))
  {
    var w', owner := DoSetLength(w), w.rcv.e.owner;
    assert RequestIs(w, owner);
    HeldStep(w, w', owner);
  }

  lemma PostedRequest(w: World)
    requires Enabled(w, Post) && ReceiverOk(w) && RequestIs(w, w.rcv.e.owner) && w.rcv.e.owner !in w.posted
    ensures RequestIs(DoPost(w), w.rcv.e.owner)
  {
    assert DoPost(w).posted[|w.posted|] == w.rcv.e.owner;
  }

  lemma PostCorrelated(w: World)
    requires Base(w) && Correlated(w) && Enabled(w, Post)
    ensures Correlated(DoPost(w))
  {
    LastIsNew(w.posted, w.rcv.e.owner);
    PostedRequest(w);
    HeldStep(w, DoPost(w), w.rcv.e.owner);
  }

  lemma StepKeepsCorrelated(w: World, a: Action)
    requires Base(w) && Correlated(w) && Enabled(w, a) && NoReuse(w, a)
    ensures Correlated(Step(w, a))
  {
    match a
    case Begin(key, addr) => BeginCorrelated(w, key, addr);
    case Send(id, s) => SendCorrelated(w, id, s);
    case TimedLock(id, lock) => TimedLockCorrelated(w, id, lock);
    case Check(id) => CheckCorrelated(w, id);
    case Peek => PeekCorrelated(w);
    case Take => TakeCorrelated(w);
    case RecvResponse(got) => RecvResponseCorrelated(w, got);
    case SetLength => SetLengthCorrelated(w);
    case Post => PostCorrelated(w);
    case RecvRequest(got) => RecvRequestCorrelated(w, got);
    case Operate(o) => OperateCorrelated(w, o);
  }
}
