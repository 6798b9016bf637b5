/**
 Framing: when the stream is made of truthful PDUs (section 3.2 of SMPP 3.4) and every recv is full, the receiver works on
 PDU boundaries, and dispatches every PDU once.
 */
module Framing {
  import opened Accounting
  import opened Deliver
  import opened Engine
  import opened Pdu
  import opened Text

  /** A recv that takes as many bytes as the header announced; a request too long to be received has none. */
  ghost predicate FullRecv(w: World, a: Action) {
    match a
    case RecvResponse(got) => w.rcv.Holding? ==> got == w.rcv.h.length
    case RecvRequest(got) => w.rcv.Peeked? && w.rcv.h.length <= LOCAL_BUFFER ==> got == w.rcv.h.length
    case _ => true
  }

  ghost predicate FullRecvs(ws: seq<World>, acts: seq<Action>) {
    forall i :: 0 <= i < |acts| && i < |ws| ==> FullRecv(ws[i], acts[i])
  }

  ghost predicate Stream(w: World, pdus: seq<seq<byte>>) {
    w.inbound == Concat(pdus) && forall i :: 0 <= i < |pdus| ==> Truthful(pdus[i])
  }

  ghost predicate Framed(w: World, pdus: seq<seq<byte>>) {
    Stream(w, pdus) && StreamOk(w) && w.pieces <= pdus
  }

  /** From a boundary the next header is that of the next PDU, which lies there whole. */
  lemma NextPdu(w: World, pdus: seq<seq<byte>>)
    requires Framed(w, pdus) && w.pos + HEADER_SIZE <= |w.inbound|
    ensures |w.pieces| < |pdus|
    ensures var pdu := pdus[|w.pieces|];
            && w.pos + |pdu| <= |w.inbound| && w.inbound[w.pos..w.pos + |pdu|] == pdu
            && HeaderAt(w.inbound, w.pos) == HeaderAt(pdu, 0) && HeaderAt(pdu, 0).length == |pdu|
  {
    var k := |w.pieces|;
    assert pdus[..k] == w.pieces;
    assert w.pos == |Concat(w.pieces)|;
    assert pdus[..|pdus|] == pdus;
    PieceAt(pdus, k);
    assert Truthful(pdus[k]);
    HeaderOfPiece(w.inbound, w.pos, |pdus[k]|);
  }

  /** A full recv from a boundary takes the next PDU. */
  lemma FullRecvFramed(w: World, pdus: seq<seq<byte>>, got: nat)
    requires Framed(w, pdus) && w.pos + HEADER_SIZE <= |w.inbound| && got == HeaderAt(w.inbound, w.pos).length
    ensures w.pos + got <= |w.inbound| && Framed(Consume(w, got), pdus)
    ensures Consume(w, got).pieces == w.pieces + [pdus[|w.pieces|]]
  {
    NextPdu(w, pdus);
    ConsumeKeeps(w, got);
  }

  lemma FramedFrame(w: World, w': World, pdus: seq<seq<byte>>)
    requires Framed(w, pdus) && w'.inbound == w.inbound && w'.pos == w.pos && w'.pieces == w.pieces
    ensures Framed(w', pdus)
  {
  }

  /** Steps other than a recv leave the stream alone, and steps other than operating a request leave the peer's mail. */
  lemma QuietStep(w: World, a: Action)
    requires Enabled(w, a)
    ensures Step(w, a).inbound == w.inbound
    ensures !a.RecvResponse? && !a.RecvRequest? ==> Step(w, a).pos == w.pos && Step(w, a).pieces == w.pieces
    ensures !a.Operate? ==> Step(w, a).ops == w.ops && Step(w, a).peer.outbox == w.peer.outbox
    ensures !a.Operate? ==> Step(w, a).peer.reports == w.peer.reports
  {
  }

  lemma FullRecvTo(w: World, w': World, pdus: seq<seq<byte>>, got: nat)
    requires Framed(w, pdus) && w.pos + HEADER_SIZE <= |w.inbound| && got == HeaderAt(w.inbound, w.pos).length
    requires w.pos + got <= |w.inbound| && w'.inbound == w.inbound
    requires w'.pos == w.pos + got && w'.pieces == w.pieces + [w.inbound[w.pos..w.pos + got]]
    ensures Framed(w', pdus)
  {
    FullRecvFramed(w, pdus, got);
    FramedFrame(Consume(w, got), w', pdus);
  }

  lemma RecvResponseFramed(w: World, pdus: seq<seq<byte>>, got: int)
    requires Framed(w, pdus) && ReceiverOk(w) && Enabled(w, RecvResponse(got)) && FullRecv(w, RecvResponse(got))
    ensures Framed(DoRecvResponse(w, got), pdus)
  {
    assert Taken(got) == got;
    FullRecvTo(w, DoRecvResponse(w, got), pdus, got);
  }

  lemma RecvRequestFramed(w: World, pdus: seq<seq<byte>>, got: int)
    requires Framed(w, pdus) && ReceiverOk(w) && Enabled(w, RecvRequest(got)) && FullRecv(w, RecvRequest(got))
    ensures Framed(DoRecvRequest(w, got), pdus)
  {
    if w.rcv.h.length <= LOCAL_BUFFER {
      FullRecvTo(w, DoRecvRequest(w, got), pdus, got);
    } else {
      FramedFrame(w, DoRecvRequest(w, got), pdus);
    }
  }

  lemma StepKeepsFramed(w: World, a: Action, pdus: seq<seq<byte>>)
    requires Framed(w, pdus) && ReceiverOk(w) && Enabled(w, a) && FullRecv(w, a)
    ensures Framed(Step(w, a), pdus)
  {
    match a
    case RecvResponse(got) => RecvResponseFramed(w, pdus, got);
    case RecvRequest(got) => RecvRequestFramed(w, pdus, got);
    case _ =>
      QuietStep(w, a);
      FramedFrame(w, Step(w, a), pdus);
  }

  /**
   Framing, for every run over truthful PDUs whose recvs are full: after any number of steps the pieces read are exactly
   the first PDUs sent, in order, none skipped or repeated, and the read position is the boundary behind them.
   */
  lemma {:induction false} RunFramed(ws: seq<World>, acts: seq<Action>, pdus: seq<seq<byte>>, n: nat)
    requires Run(ws, acts) && FullRecvs(ws, acts) && Stream(ws[0], pdus) && n < |ws|
    ensures Framed(ws[n], pdus)
    ensures ws[n].pieces == pdus[..|ws[n].pieces|] && ws[n].pos == |Concat(pdus[..|ws[n].pieces|])|
  {
    if n > 0 {
      RunFramed(ws, acts, pdus, n - 1);
      RunBase(ws, acts, n - 1);
      StepKeepsFramed(ws[n - 1], acts[n - 1], pdus);
    } else {
      assert Concat([]) == [];
    }
    assert pdus[..|ws[n].pieces|] == ws[n].pieces;
  }

  // ---------------------------------------------------------------- what a short recv does

  /** Positions between two PDUs, or at either end of the stream. */
  ghost predicate Boundary(pdus: seq<seq<byte>>, pos: nat) {
    exists k :: 0 <= k <= |pdus| && pos == |Concat(pdus[..k])|
  }

  lemma BoundariesApart(pdus: seq<seq<byte>>, j: nat, k: nat)
    requires j < k <= |pdus| && forall i :: 0 <= i < |pdus| ==> Truthful(pdus[i])
    ensures |Concat(pdus[..j])| + |pdus[j]| <= |Concat(pdus[..k])|
  {
    PieceAt(pdus[..k], j);
    assert pdus[..k][..j] == pdus[..j];
  }

  /** A recv from a boundary leaves the position on a boundary exactly when it was full or took nothing. */
  lemma ShortRecvLosesFrame(w: World, pdus: seq<seq<byte>>, got: int)
    requires Framed(w, pdus) && w.pos + HEADER_SIZE <= |w.inbound|
    requires Recv(w, HeaderAt(w.inbound, w.pos).length, got)
    ensures Boundary(pdus, w.pos + Taken(got)) <==> Taken(got) == 0 || got == HeaderAt(w.inbound, w.pos).length
  {
    NextPdu(w, pdus);
    var k := |w.pieces|;
    assert pdus[..k] == w.pieces;
    if Taken(got) == 0 {
      assert w.pos == |Concat(pdus[..k])|;
    }
    if got == |pdus[k]| {
      assert pdus[..k + 1] == pdus[..k] + [pdus[k]];
      ConcatSnoc(pdus[..k], pdus[k]);
      assert w.pos + got == |Concat(pdus[..k + 1])|;
    }
    if Boundary(pdus, w.pos + Taken(got)) && 0 < got < |pdus[k]| {
      var j :| 0 <= j <= |pdus| && w.pos + got == |Concat(pdus[..j])|;
      if j < k {
        BoundariesApart(pdus, j, k);
      } else if k < j {
        BoundariesApart(pdus, k, j);
      }
      assert false;
    }
  }

  // ---------------------------------------------------------------- dispatch

  /** The request PDUs of a sequence, and the sequence numbers of the responses. */
  function Requests(pdus: seq<seq<byte>>): seq<seq<byte>>
    requires forall i :: 0 <= i < |pdus| ==> Truthful(pdus[i])
  {
    if pdus == [] then []
    else
      var last := pdus[|pdus| - 1];
      assert Truthful(last);
      Requests(pdus[..|pdus| - 1]) + if IsResponse(HeaderAt(last, 0)) then [] else [last]
  }

  function ResponseKeys(pdus: seq<seq<byte>>): seq<int>
    requires forall i :: 0 <= i < |pdus| ==> Truthful(pdus[i])
  {
    if pdus == [] then []
    else
      assert Truthful(pdus[|pdus| - 1]);
      var h := HeaderAt(pdus[|pdus| - 1], 0);
      ResponseKeys(pdus[..|pdus| - 1]) + if IsResponse(h) then [h.seqNum] else []
  }

  function Bytes(ops: seq<Operated>): seq<seq<byte>> {
    seq(|ops|, i requires 0 <= i < |ops| => ops[i].bytes)
  }

  ghost function Keys(w: World): seq<int>
    requires forall i :: 0 <= i < |w.filled| ==> w.filled[i] < |w.reqs|
  {
    seq(|w.filled|, i requires 0 <= i < |w.filled| => w.reqs[w.filled[i]].key)
  }

  ghost predicate Dispatched(w: World) {
    && (forall i :: 0 <= i < |w.pieces| ==> Truthful(w.pieces[i]))
    && (forall i :: 0 <= i < |w.filled| ==> w.filled[i] < |w.reqs|)
    && Bytes(w.ops) + (if w.rcv.Operating? then [w.rcv.bytes] else []) == Requests(w.pieces)
    && Keys(w) == ResponseKeys(w.pieces)
  }

  lemma DispatchedAppend(pieces: seq<seq<byte>>, last: seq<byte>)
    requires Truthful(last) && forall i :: 0 <= i < |pieces| ==> Truthful(pieces[i])
    ensures Requests(pieces + [last]) == Requests(pieces) + if IsResponse(HeaderAt(last, 0)) then [] else [last]
    ensures ResponseKeys(pieces + [last]) ==
            ResponseKeys(pieces) + if IsResponse(HeaderAt(last, 0)) then [HeaderAt(last, 0).seqNum] else []
  {
    assert (pieces + [last])[..|pieces|] == pieces;
  }

  /** Steps that read nothing dispatch nothing. */
  lemma DispatchedFrame(w: World, w': World)
    requires Dispatched(w) && SameRequests(w, w')
    requires w'.pieces == w.pieces && w'.filled == w.filled && w'.ops == w.ops
    requires (!w.rcv.Operating? && !w'.rcv.Operating?) || w.rcv == w'.rcv
    ensures Dispatched(w')
  {
    assert Keys(w') == Keys(w);
  }

  /** Filling a cell dispatches one more response. */
  lemma RecvResponseDispatches(w: World, pdus: seq<seq<byte>>, got: int)
    requires Framed(w, pdus) && ReceiverOk(w) && Enabled(w, RecvResponse(got)) && FullRecv(w, RecvResponse(got))
    requires Dispatched(w)
    ensures Dispatched(DoRecvResponse(w, got))
  {
    NextPdu(w, pdus);
    ResponseRead(w, pdus[|w.pieces|]);
  }

  lemma ResponseRead(w: World, pdu: seq<byte>)
    requires Truthful(pdu) && Dispatched(w) && w.rcv.Holding? && w.rcv.e.addr in w.cells
    requires w.rcv.h == HeaderAt(pdu, 0) && IsResponse(w.rcv.h)
    requires w.rcv.e.owner < |w.reqs| && w.reqs[w.rcv.e.owner].key == w.rcv.h.seqNum
    requires w.pos + |pdu| <= |w.inbound| && w.inbound[w.pos..w.pos + |pdu|] == pdu
    ensures Dispatched(DoRecvResponse(w, |pdu|))
  {
    var w' := DoRecvResponse(w, |pdu|);
    assert w'.pieces == w.pieces + [pdu] && w'.ops == w.ops && !w'.rcv.Operating?;
    assert Requests(w'.pieces) == Requests(w.pieces) && ResponseKeys(w'.pieces) == ResponseKeys(w.pieces) + [w.rcv.h.seqNum] by {
      DispatchedAppend(w.pieces, pdu);
      assert Requests(w.pieces) + [] == Requests(w.pieces);
    }
    KeysSnoc(w, w', w.rcv.e.owner);
  }

  lemma KeysSnoc(w: World, w': World, owner: nat)
    requires forall i :: 0 <= i < |w.filled| ==> w.filled[i] < |w.reqs|
    requires w'.reqs == w.reqs && w'.filled == w.filled + [owner] && owner < |w.reqs|
    ensures forall i :: 0 <= i < |w'.filled| ==> w'.filled[i] < |w'.reqs|
    ensures Keys(w') == Keys(w) + [w.reqs[owner].key]
  {
  }

  /** Reading a request dispatches one more request. */
  lemma RecvRequestDispatches(w: World, pdus: seq<seq<byte>>, got: int)
    requires Framed(w, pdus) && ReceiverOk(w) && Enabled(w, RecvRequest(got)) && FullRecv(w, RecvRequest(got))
    requires Dispatched(w) && w.rcv.h.length <= LOCAL_BUFFER
    ensures Dispatched(DoRecvRequest(w, got))
  {
    NextPdu(w, pdus);
    RequestRead(w, pdus[|w.pieces|]);
  }

  lemma RequestRead(w: World, pdu: seq<byte>)
    requires Truthful(pdu) && |pdu| <= LOCAL_BUFFER
    requires Dispatched(w) && w.rcv.Peeked? && w.rcv.h == HeaderAt(pdu, 0) && !IsResponse(w.rcv.h)
    requires w.pos + |pdu| <= |w.inbound| && w.inbound[w.pos..w.pos + |pdu|] == pdu
    ensures Dispatched(DoRecvRequest(w, |pdu|))
  {
    var w' := DoRecvRequest(w, |pdu|);
    assert w'.pieces == w.pieces + [pdu] && w'.rcv == Operating(w.rcv.h, pdu);
    DispatchedAppend(w.pieces, pdu);
    assert Bytes(w.ops) + [] == Bytes(w.ops);
    assert Keys(w') == Keys(w);
  }

  lemma OperateDispatched(w: World, o: Outside)
    requires Enabled(w, Operate(o)) && Dispatched(w)
    ensures Dispatched(DoOperate(w, o))
  {
    var w' := DoOperate(w, o);
    assert Bytes(w'.ops) == Bytes(w.ops) + [w.rcv.bytes];
    assert Keys(w') == Keys(w);
  }

  /** A step that reads and operates nothing, a request too long to be read included. */
  predicate Quiet(w: World, a: Action) {
    match a
    case RecvResponse(_) => false
    case RecvRequest(_) => w.rcv.Peeked? && w.rcv.h.length > LOCAL_BUFFER
    case Operate(_) => false
    case _ => true
  }

  lemma QuietHistories(w: World, a: Action)
    requires Enabled(w, a) && Quiet(w, a)
    ensures Step(w, a).pieces == w.pieces && Step(w, a).filled == w.filled && Step(w, a).ops == w.ops
    ensures (!w.rcv.Operating? && !Step(w, a).rcv.Operating?) || w.rcv == Step(w, a).rcv
  {
  }

  lemma StepSameRequests(w: World, a: Action)
    requires Enabled(w, a)
    ensures SameRequests(w, Step(w, a))
  {
    var w' := Step(w, a);
    forall i | 0 <= i < |w.reqs|
      ensures w'.reqs[i].key == w.reqs[i].key && w'.reqs[i].addr == w.reqs[i].addr
      ensures Accepted(w'.reqs[i]) <==> Accepted(w.reqs[i])
    {
    }
  }

  lemma QuietDispatched(w: World, a: Action)
    requires Enabled(w, a) && Dispatched(w) && Quiet(w, a)
    ensures Dispatched(Step(w, a))
  {
    QuietHistories(w, a);
    StepSameRequests(w, a);
    DispatchedFrame(w, Step(w, a));
  }

  lemma StepDispatched(w: World, a: Action, pdus: seq<seq<byte>>)
    requires Framed(w, pdus) && ReceiverOk(w) && Enabled(w, a) && FullRecv(w, a) && Dispatched(w)
    ensures Dispatched(Step(w, a))
  {
    if Quiet(w, a) {
      QuietDispatched(w, a);
    } else {
      match a
      case RecvResponse(got) => RecvResponseDispatches(w, pdus, got);
      case RecvRequest(got) => RecvRequestDispatches(w, pdus, got);
      case Operate(o) => OperateDispatched(w, o);
    }
  }

  lemma InitiallyDispatched(inbound: seq<byte>, peer: Peer)
    ensures Dispatched(Initial(inbound, peer))
  {
    var w := Initial(inbound, peer);
    assert Bytes([]) == [] && Requests([]) == [] && ResponseKeys([]) == [];
    assert Keys(w) == [];
  }

  /**
   Dispatch, for the same runs: the requests operated so far, and the one in hand, are exactly the request PDUs among
   those read; and the cells filled so far belong, one by one, to the requests named by the response PDUs among them.
   */
  lemma {:induction false} RunDispatched(ws: seq<World>, acts: seq<Action>, pdus: seq<seq<byte>>, n: nat)
    requires Run(ws, acts) && FullRecvs(ws, acts) && Stream(ws[0], pdus) && n < |ws|
    ensures Dispatched(ws[n])
  {
    if n == 0 {
      InitiallyDispatched(ws[0].inbound, ws[0].peer);
    } else {
      RunDispatched(ws, acts, pdus, n - 1);
      RunBase(ws, acts, n - 1);
      RunFramed(ws, acts, pdus, n - 1);
      NextDispatched(ws, acts, pdus, n - 1);
    }
  }

  lemma NextDispatched(ws: seq<World>, acts: seq<Action>, pdus: seq<seq<byte>>, n: nat)
    requires Along(ws, acts) && n < |acts| && Framed(ws[n], pdus) && ReceiverOk(ws[n]) && FullRecv(ws[n], acts[n])
    requires Dispatched(ws[n])
    ensures Dispatched(ws[n + 1])
  {
    StepDispatched(ws[n], acts[n], pdus);
  }
}
