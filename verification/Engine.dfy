/**
 The SMPP request/response engine as a step system: any number of requesters (sms112_smpp_send) and one receiver
 (sms112_smpp_handler) over a byte stream, the request store and the request cells. A step is one operation on shared
 state; steps of different threads interleave freely.
 */
module Engine {
  import opened Deliver
  import opened Errno
  import opened Pdu
  import opened Text

  /** The stack buffer of sms112_smpp_oper_req. */
  const LOCAL_BUFFER := 1024

  /** SReqData: m_pBuf, m_iDataLen and m_mutexWaitResp as the binary semaphore it serves as. */
  datatype Cell = Cell(buf: Option<seq<byte>>, dataLen: int, posted: bool)

  /** A store entry: the pointer it holds, and (as history) the request that registered it. */
  datatype Entry = Entry(addr: nat, owner: nat)

  datatype Exit = Exists | SendFailure | WaitFailure | Completed

  /** Where a requester stands in sms112_smpp_send; when done, what it returns and what its cell held then. */
  datatype Phase =
    | Added
    | Waiting
    | Woken(lock: int)
    | Gone(ret: int, exit: Exit, buf: Option<seq<byte>>, dataLen: int)

  datatype Request = Request(key: uint32, addr: nat, phase: Phase)

  /** Where the receiver stands in sms112_smpp_handler. */
  datatype Receiver =
    | Idle
    | Peeked(h: Header)
    | Holding(h: Header, e: Entry)
    | Filled(h: Header, e: Entry)
    | Ready(h: Header, e: Entry)
    | Operating(h: Header, bytes: seq<byte>)
  {
    predicate Holds() {
      Holding? || Filled? || Ready?
    }
  }

  /** The history of one recv made for a request: what it returned, its place in the stream and among all that were read. */
  datatype Receipt = Receipt(h: Header, at: nat, got: int, index: nat)

  /** The history of one operated request of the server. */
  datatype Operated = Operated(h: Header, bytes: seq<byte>, o: Outside)

  /**
   `inbound` is all the server ever sends on this connection and `pos` how much of it was consumed. The fields after `peer`
   are history: requests handed to the receiver, filled and posted, receipts, every piece read, every request operated.
   */
  datatype World = World(
    inbound: seq<byte>,
    pos: nat,
    store: map<uint32, Entry>,
    cells: map<nat, Cell>,
    reqs: seq<Request>,
    rcv: Receiver,
    peer: Peer,
    handed: seq<nat>,
    filled: seq<nat>,
    posted: seq<nat>,
    receipts: map<nat, Receipt>,
    pieces: seq<seq<byte>>,
    ops: seq<Operated>)

  datatype Action =
    | Begin(key: uint32, addr: nat)
    | Send(id: nat, sending: Sending)
    | TimedLock(id: nat, lock: int)
    | Check(id: nat)
    | Peek
    | Take
    | RecvResponse(got: int)
    | SetLength
    | Post
    | RecvRequest(got: int)
    | Operate(o: Outside)

  function Initial(inbound: seq<byte>, peer: Peer): World {
    World(inbound, 0, map[], map[], [], Idle, peer, [], [], [], map[], [], [])
  }

  // ---------------------------------------------------------------- steps

  const LARGEST := 0xFFFF_FFFF

  /** How much leaves the stream when recv returns `got`; it returns -1 when it fails. */
  function Taken(got: int): nat {
    if got < 0 then 0 else got
  }

  predicate Recv(w: World, n: nat, got: int) {
    -1 <= got <= n && w.pos + Taken(got) <= |w.inbound|
  }

  /** The test of sms112_tcp_recv. It compares an int with a uint32_t, so that -1 equals the largest length. */
  predicate Full(n: uint32, got: int) {
    got == n || (got == -1 && n == LARGEST)
  }

  ghost predicate InPhase(w: World, id: nat) {
    id < |w.reqs| && w.reqs[id].addr in w.cells
  }

  /** The data of a new request lies where no request in progress has its own. */
  ghost predicate Enabled(w: World, a: Action) {
    match a
    case Begin(key, addr) => forall i :: 0 <= i < |w.reqs| && w.reqs[i].addr == addr ==> w.reqs[i].phase.Gone?
    case Send(id, _) => InPhase(w, id) && w.reqs[id].phase == Added
    case TimedLock(id, lock) =>
      InPhase(w, id) && w.reqs[id].phase == Waiting && (lock == 0 ==> w.cells[w.reqs[id].addr].posted)
    case Check(id) => InPhase(w, id) && w.reqs[id].phase.Woken?
    case Peek => w.rcv == Idle && w.pos + HEADER_SIZE <= |w.inbound|
    case Take => w.rcv.Peeked? && IsResponse(w.rcv.h)
    case RecvResponse(got) => w.rcv.Holding? && w.rcv.e.addr in w.cells && Recv(w, w.rcv.h.length, got)
    case SetLength => w.rcv.Filled? && w.rcv.e.addr in w.cells
    case Post => w.rcv.Ready? && w.rcv.e.addr in w.cells
    case RecvRequest(got) => w.rcv.Peeked? && !IsResponse(w.rcv.h) && Recv(w, w.rcv.h.length, got)
    case Operate(o) => w.rcv.Operating? && (o.Unpacked() ==> |w.rcv.bytes| >= HEADER_SIZE)
  }

  function SetPhase(w: World, id: nat, p: Phase): World
    requires id < |w.reqs|
  {
    w.(reqs := w.reqs[id := w.reqs[id].(phase := p)])
  }

  function SetCell(w: World, addr: nat, c: Cell): World {
    w.(cells := w.cells[addr := c])
  }

  /** `got` bytes leave the stream. */
  function Consume(w: World, got: nat): World
    requires w.pos + got <= |w.inbound|
  {
    w.(pos := w.pos + got, pieces := w.pieces + [w.inbound[w.pos..w.pos + got]])
  }

  /** The constructor of SReqData and sms112_req_stor_add. */
  function DoBegin(w: World, key: uint32, addr: nat): World {
    var made := SetCell(w, addr, Cell(None, 0, false));
    if key in w.store then made.(reqs := w.reqs + [Request(key, addr, Gone(EEXIST, Exists, None, 0))])
    else made.(store := w.store[key := Entry(addr, |w.reqs|)], reqs := w.reqs + [Request(key, addr, Added)])
  }

  function DoSend(w: World, id: nat, s: Sending): World
    requires id < |w.reqs|
  {
    var sent := if s.full then w else w.(peer := w.peer.(tcpUp := false));
    SetPhase(sent, id, if s.Code() == 0 then Waiting else Gone(s.Code(), SendFailure, None, 0))
  }

  function DoTimedLock(w: World, id: nat, lock: int): World
    requires id < |w.reqs| && w.reqs[id].addr in w.cells
  {
    var addr := w.reqs[id].addr;
    SetPhase(if lock == 0 then SetCell(w, addr, w.cells[addr].(posted := false)) else w, id, Woken(lock))
  }

  /** Lines 44-53 of the source: a filled cell is success however the wait ended. */
  function DoCheck(w: World, id: nat): World
    requires id < |w.reqs| && w.reqs[id].addr in w.cells && w.reqs[id].phase.Woken?
  {
    var c := w.cells[w.reqs[id].addr];
    var ret := if c.dataLen != 0 then 0 else w.reqs[id].phase.lock;
    SetPhase(w, id, Gone(ret, if ret == 0 then Completed else WaitFailure, c.buf, c.dataLen))
  }

  function DoPeek(w: World): World
    requires w.pos + HEADER_SIZE <= |w.inbound|
  {
    w.(rcv := Peeked(HeaderAt(w.inbound, w.pos)))
  }

  /** sms112_req_stor_get_and_rem; an unknown key ends the handler. */
  function DoTake(w: World): World
    requires w.rcv.Peeked?
  {
    var key := w.rcv.h.seqNum;
    if key !in w.store then w.(rcv := Idle)
    else w.(store := w.store - {key}, handed := w.handed + [w.store[key].owner], rcv := Holding(w.rcv.h, w.store[key]))
  }

  /** malloc and recv into the cell. */
  function DoRecvResponse(w: World, got: int): World
    requires w.rcv.Holding? && w.rcv.e.addr in w.cells && w.pos + Taken(got) <= |w.inbound|
  {
    var e := w.rcv.e;
    var data := w.inbound[w.pos..w.pos + Taken(got)];
    Consume(SetCell(w, e.addr, w.cells[e.addr].(buf := Some(data))), Taken(got))
    .(filled := w.filled + [e.owner],
      receipts := w.receipts[e.owner := Receipt(w.rcv.h, w.pos, got, |w.pieces|)],
      rcv := if Full(w.rcv.h.length, got) then Filled(w.rcv.h, e) else Ready(w.rcv.h, e))
  }

  function DoSetLength(w: World): World
    requires w.rcv.Filled? && w.rcv.e.addr in w.cells
  {
    var e := w.rcv.e;
    SetCell(w, e.addr, w.cells[e.addr].(dataLen := ToInt(w.rcv.h.length))).(rcv := Ready(w.rcv.h, e))
  }

  function DoPost(w: World): World
    requires w.rcv.Ready? && w.rcv.e.addr in w.cells
  {
    var e := w.rcv.e;
    SetCell(w, e.addr, w.cells[e.addr].(posted := true)).(posted := w.posted + [e.owner], rcv := Idle)
  }

  /** The first half of sms112_smpp_oper_req: a request too long for the buffer is left in the stream. */
  function DoRecvRequest(w: World, got: int): World
    requires w.rcv.Peeked? && w.pos + Taken(got) <= |w.inbound|
  {
    if w.rcv.h.length > LOCAL_BUFFER then w.(rcv := Idle)
    else Consume(w, Taken(got))
      .(rcv := if Full(w.rcv.h.length, got) then Operating(w.rcv.h, w.inbound[w.pos..w.pos + Taken(got)]) else Idle)
  }

  function DoOperate(w: World, o: Outside): World
    requires w.rcv.Operating? && (o.Unpacked() ==> |w.rcv.bytes| >= HEADER_SIZE)
  {
    w.(peer := OperateRequest(w.peer, w.rcv.h.id, w.rcv.bytes, o),
       ops := w.ops + [Operated(w.rcv.h, w.rcv.bytes, o)],
       rcv := Idle)
  }

  ghost function Step(w: World, a: Action): World
    requires Enabled(w, a)
  {
    match a
    case Begin(key, addr) => DoBegin(w, key, addr)
    case Send(id, s) => DoSend(w, id, s)
    case TimedLock(id, lock) => DoTimedLock(w, id, lock)
    case Check(id) => DoCheck(w, id)
    case Peek => DoPeek(w)
    case Take => DoTake(w)
    case RecvResponse(got) => DoRecvResponse(w, got)
    case SetLength => DoSetLength(w)
    case Post => DoPost(w)
    case RecvRequest(got) => DoRecvRequest(w, got)
    case Operate(o) => DoOperate(w, o)
  }

  /** Worlds one after the other: any steps of any threads, each enabled where it is taken. */
  ghost predicate Along(ws: seq<World>, acts: seq<Action>) {
    && |ws| == |acts| + 1
    && forall i :: 0 <= i < |acts| ==> Enabled(ws[i], acts[i]) && ws[i + 1] == Step(ws[i], acts[i])
  }

  /** A run: from an initial world. */
  ghost predicate Run(ws: seq<World>, acts: seq<Action>) {
    Along(ws, acts) && ws[0] == Initial(ws[0].inbound, ws[0].peer)
  }
}
