/**
 The correlation theorem over whole runs, the exact extent of its hypothesis, and who is left behind in the store.
 */
module Matching {
  import opened Accounting
  import opened Correlation
  import opened Engine
  import opened Framing
  import opened Pdu
  import opened Text

  ghost predicate NoReuseRun(ws: seq<World>, acts: seq<Action>) {
    forall i :: 0 <= i < |acts| && i < |ws| ==> NoReuse(ws[i], acts[i])
  }

  lemma {:induction false} RunCorrelated(ws: seq<World>, acts: seq<Action>, n: nat)
    requires Run(ws, acts) && NoReuseRun(ws, acts) && n < |ws|
    ensures Base(ws[n]) && Correlated(ws[n])
  {
    RunBase(ws, acts, n);
    if n > 0 {
      RunCorrelated(ws, acts, n - 1);
      StepKeepsCorrelated(ws[n - 1], acts[n - 1]);
    }
  }

  /** A requester that sms112_smpp_send told of success, with data. */
  predicate Succeeded(w: World, i: nat) {
    i < |w.reqs| && w.reqs[i].phase.Gone? && w.reqs[i].phase.ret == 0 && w.reqs[i].phase.dataLen != 0
  }

  /** A buffer that holds all the bytes a header in the stream announces, from that header on. */
  ghost predicate Whole(w: World, at: nat, h: Header, buf: Option<seq<byte>>) {
    at + h.length <= |w.inbound| && buf == Some(w.inbound[at..at + h.length])
  }

  /**
   Whatever the framing: a successful requester's data length is what a header in the stream announces, and that header is
   a response with the requester's own sequence number. The buffer is the stretch of the stream of that length, except that
   it is empty when recv failed on the largest length there is.
   */
  lemma ResponseIsOwn(ws: seq<World>, acts: seq<Action>, n: nat, i: nat) returns (at: nat)
    requires Run(ws, acts) && NoReuseRun(ws, acts) && n < |ws| && Succeeded(ws[n], i)
    ensures i in ws[n].receipts && at + HEADER_SIZE <= |ws[n].inbound|
    ensures var w, p, h := ws[n], ws[n].reqs[i].phase, HeaderAt(ws[n].inbound, at);
            && IsResponse(h) && h.seqNum == w.reqs[i].key && p.dataLen == ToInt(h.length)
            && (Whole(w, at, h, p.buf) <==> w.receipts[i].got != -1)
            && (!Whole(w, at, h, p.buf) ==> h.length == LARGEST && p.buf == Some([]))
  {
    RunCorrelated(ws, acts, n);
    at := OwnStretch(ws[n], i);
  }

  lemma OwnStretch(w: World, i: nat) returns (at: nat)
    requires Correlated(w) && Succeeded(w, i)
    ensures i in w.receipts && at + HEADER_SIZE <= |w.inbound|
    ensures var p, h := w.reqs[i].phase, HeaderAt(w.inbound, at);
            && IsResponse(h) && h.seqNum == w.reqs[i].key && p.dataLen == ToInt(h.length)
            && (Whole(w, at, h, p.buf) <==> w.receipts[i].got != -1)
            && (!Whole(w, at, h, p.buf) ==> h.length == LARGEST && p.buf == Some([]))
  {
    assert RequestIs(w, i);
    at := w.receipts[i].at;
    if w.receipts[i].got == -1 {
      assert w.inbound[at..at + 0] == [];
    }
  }

  /** On the wire: a PDU of its announced length, a response, with this sequence_number; and its length as an int. */
  predicate ResponseTo(pdu: seq<byte>, key: uint32, dataLen: int) {
    && HEADER_SIZE <= |pdu| < 0x1_0000_0000 && pdu[0..4] == PutWord(|pdu|)
    && pdu[4] >= 0x80 && pdu[12..16] == PutWord(key)
    && dataLen == if |pdu| < 0x8000_0000 then |pdu| else |pdu| - 0x1_0000_0000
  }

  lemma OnTheWire(pdu: seq<byte>, key: uint32)
    requires Truthful(pdu) && IsResponse(HeaderAt(pdu, 0)) && HeaderAt(pdu, 0).seqNum == key
    ensures ResponseTo(pdu, key, ToInt(HeaderAt(pdu, 0).length))
  {
    TruthfulIsPut(pdu);
    ResponseBit(pdu, 0);
    WordIsPut(pdu, 12, key);
    IntOfLength(|pdu|);
  }

  /** Over truthful PDUs and full recvs, the buffer is exactly one of the PDUs sent. */
  lemma ResponsePdu(ws: seq<World>, acts: seq<Action>, pdus: seq<seq<byte>>, n: nat, i: nat) returns (k: nat)
    requires Run(ws, acts) && NoReuseRun(ws, acts) && n < |ws| && Succeeded(ws[n], i)
    requires FullRecvs(ws, acts) && Stream(ws[0], pdus)
    ensures k < |pdus| && ws[n].reqs[i].phase.buf == Some(pdus[k]) && Truthful(pdus[k])
    ensures ResponseTo(pdus[k], ws[n].reqs[i].key, ws[n].reqs[i].phase.dataLen)
    ensures i in ws[n].receipts && k == ws[n].receipts[i].index
  {
    RunCorrelated(ws, acts, n);
    RunFramed(ws, acts, pdus, n);
    k := PduOf(ws[n], pdus, i);
    OnTheWire(pdus[k], ws[n].reqs[i].key);
  }

  /** In a framed state a receipt's piece is a PDU, behind the header that named the request. */
  lemma ReceiptPdu(w: World, pdus: seq<seq<byte>>, i: nat)
    requires Framed(w, pdus) && i in w.receipts && ReceiptOk(w, i, w.receipts[i])
    ensures var r := w.receipts[i];
            && r.index < |pdus| && pdus[r.index] == BytesOf(w, r) && Truthful(pdus[r.index])
            && HeaderAt(pdus[r.index], 0) == r.h
  {
    var r := w.receipts[i];
    assert pdus[r.index] == w.pieces[r.index];
    assert Truthful(pdus[r.index]);
    HeaderOfPiece(w.inbound, r.at, r.got);
  }

  lemma PduOf(w: World, pdus: seq<seq<byte>>, i: nat) returns (k: nat)
    requires Correlated(w) && Framed(w, pdus) && Succeeded(w, i)
    ensures k < |pdus| && w.reqs[i].phase.buf == Some(pdus[k]) && Truthful(pdus[k])
    ensures IsResponse(HeaderAt(pdus[k], 0)) && HeaderAt(pdus[k], 0).seqNum == w.reqs[i].key
    ensures i in w.receipts && k == w.receipts[i].index && w.reqs[i].phase.dataLen == ToInt(|pdus[k]|)
  {
    assert RequestIs(w, i);
    ReceiptPdu(w, pdus, i);
    k := w.receipts[i].index;
  }

  /** Two successful requesters never share a PDU. */
  lemma ResponsesApart(ws: seq<World>, acts: seq<Action>, pdus: seq<seq<byte>>, n: nat, i: nat, j: nat) returns (k: nat, l: nat)
    requires Run(ws, acts) && NoReuseRun(ws, acts) && n < |ws| && i != j
    requires Succeeded(ws[n], i) && Succeeded(ws[n], j)
    requires FullRecvs(ws, acts) && Stream(ws[0], pdus)
    ensures k < |pdus| && l < |pdus| && k != l
    ensures ws[n].reqs[i].phase.buf == Some(pdus[k]) && ws[n].reqs[j].phase.buf == Some(pdus[l])
  {
    RunBase(ws, acts, n);
    k := ResponsePdu(ws, acts, pdus, n, i);
    l := ResponsePdu(ws, acts, pdus, n, j);
  }

  /** Success comes without data exactly when recv came short or the header announced nothing. */
  lemma EmptySuccess(ws: seq<World>, acts: seq<Action>, n: nat, i: nat)
    requires Run(ws, acts) && NoReuseRun(ws, acts) && n < |ws| && i < |ws[n].reqs|
    requires ws[n].reqs[i].phase.Gone? && ws[n].reqs[i].phase.ret == 0
    ensures i in ws[n].receipts
    ensures var r := ws[n].receipts[i]; ws[n].reqs[i].phase.dataLen == 0 <==> !Full(r.h.length, r.got) || r.h.length == 0
  {
    RunCorrelated(ws, acts, n);
    assert RequestIs(ws[n], i);
  }

  /**
   The store keys whose requester has gone: its exit was a failed send or a failed wait, and every such requester that was
   not handed to the receiver has left its key behind.
   */
  lemma DepartedKeys(ws: seq<World>, acts: seq<Action>, n: nat, i: nat)
    requires Run(ws, acts) && NoReuseRun(ws, acts) && n < |ws|
    requires i < |ws[n].reqs| && ws[n].reqs[i].phase.Gone?
    ensures var w := ws[n];
            (w.reqs[i].key in w.store && w.store[w.reqs[i].key].owner == i)
            <==> (w.reqs[i].phase.exit == SendFailure || w.reqs[i].phase.exit == WaitFailure) && i !in w.handed
  {
    RunCorrelated(ws, acts, n);
    assert RequestIs(ws[n], i);
  }

  // ---------------------------------------------------------------- runs without failures

  /** No send fails and no wait times out. */
  predicate CleanStep(a: Action) {
    match a
    case Send(_, s) => s.Code() == 0
    case TimedLock(_, lock) => lock == 0
    case _ => true
  }

  /** Whoever the store or the receiver means is still there, and whoever woke was posted. */
  ghost predicate Clean(w: World) {
    && (forall key :: key in w.store ==> w.store[key].owner < |w.reqs| && Live(w.reqs[w.store[key].owner]))
    && (w.rcv.Holds() ==> w.rcv.e.owner < |w.reqs| && Live(w.reqs[w.rcv.e.owner]))
    && forall i :: 0 <= i < |w.reqs| && w.reqs[i].phase.Woken? ==> w.reqs[i].phase.lock == 0
  }

  lemma CleanNoReuse(w: World, a: Action)
    requires Base(w) && Clean(w) && Enabled(w, a)
    ensures NoReuse(w, a)
  {
    if a.Begin? {
      forall key | key in w.store
        ensures w.store[key].addr != a.addr
      {
        assert w.reqs[w.store[key].owner].addr == w.store[key].addr;
      }
    }
  }

  lemma CheckClean(w: World, id: nat)
    requires Base(w) && Correlated(w) && Clean(w) && Enabled(w, Check(id))
    ensures Clean(DoCheck(w, id))
  {
    var w' := DoCheck(w, id);
    assert RequestIs(w, id);
    PostedIsDone(w, id);
    assert forall i :: 0 <= i < |w.reqs| && i != id ==> w'.reqs[i] == w.reqs[i];
    assert forall key :: key in w.store ==> w.store[key].owner != id;
  }

  /** Steps after which the store and the receiver mean no one they did not mean before, and all of them are still there. */
  lemma CleanFrame(w: World, w': World)
    requires Clean(w) && |w.reqs| <= |w'.reqs|
    requires forall i :: 0 <= i < |w.reqs| ==> (Live(w.reqs[i]) ==> Live(w'.reqs[i]))
    requires forall i :: 0 <= i < |w'.reqs| && w'.reqs[i].phase.Woken? ==> w'.reqs[i].phase.lock == 0
    requires forall key :: key in w'.store ==>
                             (key in w.store && w'.store[key] == w.store[key]) ||
                             (w'.store[key].owner < |w'.reqs| && Live(w'.reqs[w'.store[key].owner]))
    requires w'.rcv.Holds() ==> (w.rcv.Holds() && w'.rcv.e == w.rcv.e) || (exists key :: key in w.store && w'.rcv.e == w.store[key])
    ensures Clean(w')
  {
  }

  lemma BeginClean(w: World, key: uint32, addr: nat)
    requires Clean(w)
    ensures Clean(DoBegin(w, key, addr))
  {
    var w' := DoBegin(w, key, addr);
    assert forall i :: 0 <= i < |w.reqs| ==> w'.reqs[i] == w.reqs[i];
    CleanFrame(w, w');
  }

  lemma RequesterClean(w: World, a: Action)
    requires Clean(w) && Enabled(w, a) && CleanStep(a) && (a.Send? || a.TimedLock?)
    ensures Clean(Step(w, a))
  {
    var w' := Step(w, a);
    assert forall i :: 0 <= i < |w.reqs| && i != a.id ==> w'.reqs[i] == w.reqs[i];
    CleanFrame(w, w');
  }

  lemma TakeClean(w: World)
    requires Clean(w) && Enabled(w, Take)
    ensures Clean(DoTake(w))
  {
    CleanFrame(w, DoTake(w));
  }

  /** Steps that leave requests and store alone, and hold nobody new. */
  lemma HoldingClean(w: World, w': World)
    requires Clean(w) && w'.reqs == w.reqs && w'.store == w.store
    requires w'.rcv.Holds() ==> w.rcv.Holds() && w'.rcv.e == w.rcv.e
    ensures Clean(w')
  {
    CleanFrame(w, w');
  }

  lemma ReceiverClean(w: World, a: Action)
    requires Clean(w) && Enabled(w, a)
    requires !a.Begin? && !a.Send? && !a.TimedLock? && !a.Check?
    ensures Clean(Step(w, a))
  {
    match a
    case Take => TakeClean(w);
    case Peek => HoldingClean(w, DoPeek(w));
    case RecvResponse(got) => HoldingClean(w, DoRecvResponse(w, got));
    case SetLength => HoldingClean(w, DoSetLength(w));
    case Post => HoldingClean(w, DoPost(w));
    case RecvRequest(got) => HoldingClean(w, DoRecvRequest(w, got));
    case Operate(o) => HoldingClean(w, DoOperate(w, o));
  }

  lemma StepClean(w: World, a: Action)
    requires Base(w) && Correlated(w) && Clean(w) && Enabled(w, a) && CleanStep(a)
    ensures Clean(Step(w, a))
  {
    match a
    case Begin(key, addr) => BeginClean(w, key, addr);
    case Send(_, _) => RequesterClean(w, a);
    case TimedLock(_, _) => RequesterClean(w, a);
    case Check(id) => CheckClean(w, id);
    case _ => ReceiverClean(w, a);
  }

  lemma {:induction false} RunClean(ws: seq<World>, acts: seq<Action>, n: nat)
    requires Run(ws, acts) && n < |ws| && forall i :: 0 <= i < |acts| ==> CleanStep(acts[i])
    ensures Base(ws[n]) && Correlated(ws[n]) && Clean(ws[n])
  {
    RunBase(ws, acts, n);
    if n > 0 {
      RunClean(ws, acts, n - 1);
      NextClean(ws[n - 1], acts[n - 1]);
    }
  }

  lemma NextClean(w: World, a: Action)
    requires Base(w) && Correlated(w) && Clean(w) && Enabled(w, a) && CleanStep(a)
    ensures Correlated(Step(w, a)) && Clean(Step(w, a))
  {
    CleanNoReuse(w, a);
    StepKeepsCorrelated(w, a);
    StepClean(w, a);
  }

  /**
   The correlation theorem: in a run over truthful PDUs with full recvs where no send fails and no wait times out, whenever
   sms112_smpp_send returns 0 its buffer holds exactly one inbound response PDU, whose sequence number is the request's own.
   */
  lemma CleanRunsCorrelate(ws: seq<World>, acts: seq<Action>, pdus: seq<seq<byte>>, n: nat, i: nat) returns (k: nat)
    requires Run(ws, acts) && n < |ws| && forall j :: 0 <= j < |acts| ==> CleanStep(acts[j])
    requires FullRecvs(ws, acts) && Stream(ws[0], pdus)
    requires i < |ws[n].reqs| && ws[n].reqs[i].phase.Gone? && ws[n].reqs[i].phase.ret == 0
    ensures k < |pdus| && ws[n].reqs[i].phase.buf == Some(pdus[k])
    ensures ResponseTo(pdus[k], ws[n].reqs[i].key, ws[n].reqs[i].phase.dataLen)
  {
    forall j | 0 <= j < |acts|
      ensures NoReuse(ws[j], acts[j])
    {
      RunClean(ws, acts, j);
      CleanNoReuse(ws[j], acts[j]);
    }
    RunCorrelated(ws, acts, n);
    RunFramed(ws, acts, pdus, n);
    SuccessHasReceipt(ws[n], i);
    RunFullReceipts(ws, acts, n);
    ReceiptPdu(ws[n], pdus, i);
    FullSuccess(ws[n], i);
    k := PduOf(ws[n], pdus, i);
    OnTheWire(pdus[k], ws[n].reqs[i].key);
  }

  lemma SuccessHasReceipt(w: World, i: nat)
    requires Base(w) && Correlated(w) && i < |w.reqs| && w.reqs[i].phase.Gone? && w.reqs[i].phase.ret == 0
    ensures i in w.receipts && ReceiptOk(w, i, w.receipts[i])
  {
    assert RequestIs(w, i);
  }

  /** Success over a full recv of something comes with data. */
  lemma FullSuccess(w: World, i: nat)
    requires Correlated(w) && i < |w.reqs| && w.reqs[i].phase.Gone? && w.reqs[i].phase.ret == 0
    requires i in w.receipts && w.receipts[i].got == w.receipts[i].h.length != 0
    ensures Succeeded(w, i)
  {
    assert RequestIs(w, i);
  }

  ghost predicate AllReceiptsFull(w: World) {
    forall i :: i in w.receipts ==> w.receipts[i].got == w.receipts[i].h.length
  }

  lemma StepFullReceipts(w: World, a: Action)
    requires AllReceiptsFull(w) && Enabled(w, a) && FullRecv(w, a)
    ensures AllReceiptsFull(Step(w, a))
  {
  }

  /** With full recvs every receipt is full. */
  lemma {:induction false} RunFullReceipts(ws: seq<World>, acts: seq<Action>, n: nat)
    requires Run(ws, acts) && FullRecvs(ws, acts) && n < |ws|
    ensures AllReceiptsFull(ws[n])
  {
    if n > 0 {
      RunFullReceipts(ws, acts, n - 1);
      StepFullReceipts(ws[n - 1], acts[n - 1]);
    }
  }
}
