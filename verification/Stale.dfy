/**
 What a reused address does, what recv can make of a response, and where the stream stops: the ways the engine can go wrong,
 stated exactly.
 */
module Stale {
  import opened Accounting
  import opened Deliver
  import opened Engine
  import opened Errno
  import opened Matching
  import opened Paths
  import opened Pdu
  import opened Text

  // ---------------------------------------------------------------- one request, one response

  /**
   One request and its response, for every response header and every outcome of recv: the request succeeds with whatever
   recv left in the buffer, and with the announced length if that counted as full.
   */
  lemma AnsweredAnyhow(stream: seq<byte>, got: int, addr: nat, peer: Peer) returns (ws: seq<World>, acts: seq<Action>)
    requires |stream| >= HEADER_SIZE && IsResponse(HeaderAt(stream, 0))
    requires Recv(Initial(stream, peer), HeaderAt(stream, 0).length, got)
    ensures Run(ws, acts) && ws[0].inbound == stream
    ensures forall i :: 0 <= i < |acts| ==> CleanStep(acts[i])
    ensures var h := HeaderAt(stream, 0);
            ws[|acts|].reqs == [Request(h.seqNum, addr, Gone(0, Completed, Some(stream[..Taken(got)]),
                                                             if Full(h.length, got) then ToInt(h.length) else 0))]
  {
    var w0, h := Initial(stream, peer), HeaderAt(stream, 0);
    var w1 := Register(w0, h.seqNum, addr);
    var work, w2 := Serve(w1, got);
    assert w2.reqs == [] + [Request(h.seqNum, addr, Waiting)];
    assert w2.cells[addr].buf == Some(stream[..Taken(got)]) by {
      assert stream[0..0 + Taken(got)] == stream[..Taken(got)];
    }
    var w3;
    acts, w3 := Collect(w0, h.seqNum, addr, w1, work, w2);
    CleanAround(h.seqNum, addr, work);
    ws := RunOfPath(stream, peer, acts, w3);
  }

  lemma CleanAround(key: uint32, addr: nat, work: seq<Action>)
    requires OfReceiver(work)
    ensures var acts := [Begin(key, addr), Send(0, Sending(true, 0))] + (work + [TimedLock(0, 0), Check(0)]);
            forall i :: 0 <= i < |acts| ==> CleanStep(acts[i])
  {
  }

  /** A whole response of which recv takes only a part, or nothing, makes its request succeed without data. */
  lemma ShortRecvSucceeds(pdu: seq<byte>, got: int, addr: nat, peer: Peer) returns (ws: seq<World>, acts: seq<Action>)
    requires Truthful(pdu) && IsResponse(HeaderAt(pdu, 0)) && 0 <= got < |pdu|
    ensures Run(ws, acts) && ws[0].inbound == pdu && |ws[|acts|].reqs| == 1
    ensures ws[|acts|].reqs[0].phase == Gone(0, Completed, Some(pdu[..got]), 0)
  {
    ws, acts := AnsweredAnyhow(pdu, got, addr, peer);
  }

  /** A response that announces the largest length, on which recv fails, makes its request succeed with length -1. */
  lemma FailedRecvSucceeds(header: seq<byte>, addr: nat, peer: Peer) returns (ws: seq<World>, acts: seq<Action>)
    requires |header| >= HEADER_SIZE && IsResponse(HeaderAt(header, 0)) && HeaderAt(header, 0).length == LARGEST
    ensures Run(ws, acts) && ws[0].inbound == header && |ws[|acts|].reqs| == 1
    ensures ws[|acts|].reqs[0].phase == Gone(0, Completed, Some([]), -1) && Succeeded(ws[|acts|], 0)
  {
    ws, acts := AnsweredAnyhow(header, -1, addr, peer);
  }

  // ---------------------------------------------------------------- a departed request answered late

  /** Whoever is told of success at an address the receiver holds is told of what the receiver still does there. */
  function Misled(w: World): Phase
    requires w.rcv.Holds() && w.pos <= |w.inbound|
    requires w.rcv.Holding? ==> w.pos + w.rcv.h.length <= |w.inbound|
  {
    var n := w.rcv.h.length;
    match w.rcv
    case Holding(_, _) => Gone(0, Completed, Some(w.inbound[w.pos..w.pos + n]), ToInt(n))
    case Filled(_, _) => Gone(0, Completed, None, ToInt(n))
    case _ => Gone(0, Completed, None, 0)
  }

  /**
   The hypothesis on addresses is what correlation hangs on. Wherever the store points at an address that a new request may
   take, and the response to that key comes next, the new request is completed with that response.
   */
  lemma ReuseMisleads(w: World, key: uint32) returns (acts: seq<Action>, w': World)
    requires CanTake(w) && Recv(w, HeaderAt(w.inbound, w.pos).length, HeaderAt(w.inbound, w.pos).length)
    requires HeaderAt(w.inbound, w.pos).length != 0
    requires Enabled(w, Begin(key, w.store[HeaderAt(w.inbound, w.pos).seqNum].addr)) && key !in w.store
    ensures Reaches(w, acts, w') && |w'.reqs| == |w.reqs| + 1 && w'.inbound == w.inbound
    ensures var h, r := HeaderAt(w.inbound, w.pos), w'.reqs[|w.reqs|];
            && r.key == key != h.seqNum
            && r.phase == Gone(0, Completed, Some(w.inbound[w.pos..w.pos + h.length]), ToInt(h.length))
  {
    var h := HeaderAt(w.inbound, w.pos);
    var addr := w.store[h.seqNum].addr;
    var w1 := Register(w, key, addr);
    var work, w2 := Serve(w1, h.length);
    acts, w' := Collect(w, key, addr, w1, work, w2);
  }

  /**
   The same wherever the receiver holds such an address: with the response if it is still to be read, with its length and
   no buffer if it has been read, with neither if only the post is left. The store plays no part.
   */
  lemma HeldMisleads(w: World, key: uint32) returns (acts: seq<Action>, w': World)
    requires w.rcv.Holds() && w.pos <= |w.inbound|
    requires w.rcv.Holding? ==> w.pos + w.rcv.h.length <= |w.inbound|
    requires Enabled(w, Begin(key, w.rcv.e.addr)) && key !in w.store
    ensures Reaches(w, acts, w') && |w'.reqs| == |w.reqs| + 1 && w'.inbound == w.inbound
    ensures acts != [] && acts[0] == Begin(key, w.rcv.e.addr)
    ensures w'.reqs[|w.reqs|].key == key && w'.reqs[|w.reqs|].phase == Misled(w)
  {
    var addr := w.rcv.e.addr;
    var w1 := Register(w, key, addr);
    var work, w2 := Carried(w1);
    acts, w' := Collect(w, key, addr, w1, work, w2);
  }

  /** The receiver carries on with what it holds, to the post. */
  lemma Carried(w: World) returns (acts: seq<Action>, w': World)
    requires w.rcv.Holds() && w.rcv.e.addr in w.cells && w.pos <= |w.inbound|
    requires w.rcv.Holding? ==> w.pos + w.rcv.h.length <= |w.inbound|
    ensures Reaches(w, acts, w') && w'.reqs == w.reqs && w'.inbound == w.inbound
    ensures var c, n := w.cells[w.rcv.e.addr], w.rcv.h.length;
            w'.cells == w.cells[w.rcv.e.addr :=
              Cell(if w.rcv.Holding? then Some(w.inbound[w.pos..w.pos + n]) else c.buf,
                   if w.rcv.Ready? then c.dataLen else ToInt(n), true)]
  {
    if w.rcv.Holding? {
      acts, w' := Fill(w, w.rcv.h.length);
    } else if w.rcv.Filled? {
      acts, w' := Complete(w);
    } else {
      acts, w' := Finish(w);
    }
  }

  /** A request is sent and its wait times out: it is gone, and the store still points at its cell. */
  lemma Depart(w: World, key: uint32, addr: nat) returns (acts: seq<Action>, w': World)
    requires w.reqs == [] && w.store == map[] && w.cells == map[]
    ensures Reaches(w, acts, w')
    ensures |w'.reqs| == 1 && w'.reqs[0].addr == addr && w'.reqs[0].phase.Gone?
    ensures w'.store == map[key := Entry(addr, 0)] && addr in w'.cells
    ensures w'.rcv == w.rcv && w'.inbound == w.inbound && w'.pos == w.pos
  {
    var w1 := Register(w, key, addr);
    w' := Leave(w1, 0, ETIMEDOUT);
    acts := [Begin(key, addr), Send(0, Sending(true, 0))] + [TimedLock(0, ETIMEDOUT), Check(0)];
    ReachesAppend(w, [Begin(key, addr), Send(0, Sending(true, 0))], w1, [TimedLock(0, ETIMEDOUT), Check(0)], w');
  }

  /**
   And such runs exist for every response and every other key: one request times out, the next one takes its address and
   returns success with the response to the first.
   */
  lemma TimeoutBreaksCorrelation(pdu: seq<byte>, key: uint32, addr: nat, peer: Peer) returns (ws: seq<World>, acts: seq<Action>)
    requires Truthful(pdu) && IsResponse(HeaderAt(pdu, 0)) && key != HeaderAt(pdu, 0).seqNum
    ensures Run(ws, acts) && !NoReuseRun(ws, acts) && ws[0].inbound == pdu
    ensures var r := ws[|acts|].reqs; |r| == 2 && r[1].key == key && r[1].phase == Gone(0, Completed, Some(pdu), ToInt(|pdu|))
  {
    var w0 := Initial(pdu, peer);
    var first, w1 := Depart(w0, HeaderAt(pdu, 0).seqNum, addr);
    assert pdu[0..0 + |pdu|] == pdu;
    assert w1.store[HeaderAt(pdu, 0).seqNum].addr == addr;
    var more, w2 := ReuseMisleads(w1, key);
    acts := first + more;
    ws := RunOfPaths(pdu, peer, first, w1, more, w2);
    NotOwn(ws, acts, pdu);
  }

  /**
   The store need not point there any more: the request times out after the receiver has taken it out, and when the next
   one takes its address the store is empty.
   */
  lemma TimeoutWhileHeld(pdu: seq<byte>, key: uint32, addr: nat, peer: Peer)
    returns (ws: seq<World>, acts: seq<Action>, k: nat)
    requires Truthful(pdu) && IsResponse(HeaderAt(pdu, 0)) && key != HeaderAt(pdu, 0).seqNum
    ensures Run(ws, acts) && !NoReuseRun(ws, acts) && ws[0].inbound == pdu
    ensures k < |acts| && acts[k] == Begin(key, addr) && ws[k].store == map[]
    ensures var r := ws[|acts|].reqs; |r| == 2 && r[1].key == key && r[1].phase == Gone(0, Completed, Some(pdu), ToInt(|pdu|))
  {
    var w0 := Initial(pdu, peer);
    var first, w1 := DepartHeld(w0, addr);
    assert pdu[0..0 + |pdu|] == pdu;
    var more, w2 := HeldMisleads(w1, key);
    acts, k := first + more, |first|;
    ws := RunOfPaths(pdu, peer, first, w1, more, w2);
    NotOwn(ws, acts, pdu);
  }

  /** The request is taken out of the store, and leaves before the receiver reads anything. */
  lemma DepartHeld(w: World, addr: nat) returns (acts: seq<Action>, w': World)
    requires w.reqs == [] && w.store == map[] && w.cells == map[] && w.rcv == Idle
    requires w.pos + HEADER_SIZE <= |w.inbound| && IsResponse(HeaderAt(w.inbound, w.pos))
    ensures Reaches(w, acts, w')
    ensures |w'.reqs| == 1 && w'.reqs[0].addr == addr && w'.reqs[0].phase.Gone?
    ensures w'.store == map[] && addr in w'.cells && w'.inbound == w.inbound && w'.pos == w.pos
    ensures w'.rcv == Holding(HeaderAt(w.inbound, w.pos), Entry(addr, 0))
  {
    var key := HeaderAt(w.inbound, w.pos).seqNum;
    var first, last := [Begin(key, addr), Send(0, Sending(true, 0))], [TimedLock(0, ETIMEDOUT), Check(0)];
    var w1 := Register(w, key, addr);
    var work, w2 := SeeAndTake(w1);
    w' := Leave(w2, 0, ETIMEDOUT);
    ReachesThrough(w, first, w1, work, w2, last, w');
    acts := first + (work + last);
  }

  /** A run over one response in which the second request got it under another key reuses an address. */
  lemma NotOwn(ws: seq<World>, acts: seq<Action>, pdu: seq<byte>)
    requires Run(ws, acts) && ws[|acts|].inbound == pdu && Truthful(pdu) && Succeeded(ws[|acts|], 1)
    requires ws[|acts|].reqs[1].phase.buf == Some(pdu) && ws[|acts|].reqs[1].key != HeaderAt(pdu, 0).seqNum
    ensures !NoReuseRun(ws, acts)
  {
    if NoReuseRun(ws, acts) {
      var at := ResponseIsOwn(ws, acts, |acts|, 1);
    }
  }

  // ---------------------------------------------------------------- head of line

  /** The receiver is at rest before this header, or has just seen it. */
  ghost predicate Before(w: World, h: Header) {
    w.pos + HEADER_SIZE <= |w.inbound| && HeaderAt(w.inbound, w.pos) == h && (w.rcv == Idle || w.rcv == Peeked(h))
  }

  predicate TooLong(h: Header) {
    !IsResponse(h) && h.length > LOCAL_BUFFER
  }

  /** The receiver's part of the world is as it was, and no key has left the store. */
  ghost predicate NothingServed(w: World, w': World) {
    && w'.pos == w.pos && w'.pieces == w.pieces && w'.ops == w.ops
    && w'.handed == w.handed && w'.filled == w.filled && w'.posted == w.posted
    && forall key :: key in w.store ==> key in w'.store && w'.store[key] == w.store[key]
  }

  /** What the receiver cannot serve: a request too long for it, or a response whose key is not registered. */
  ghost predicate Unserved(w: World, h: Header) {
    Before(w, h) && (TooLong(h) || (IsResponse(h) && h.seqNum !in w.store))
  }

  lemma BlockedStep(w: World, a: Action, h: Header)
    requires Unserved(w, h) && Enabled(w, a) && (TooLong(h) || !(a.Begin? && a.key == h.seqNum))
    ensures Unserved(Step(w, a), h) && NothingServed(w, Step(w, a))
  {
  }

  /** What the receiver cannot serve stays ahead of it. */
  lemma {:induction false} Stays(ws: seq<World>, acts: seq<Action>, m: nat, n: nat, h: Header)
    requires Along(ws, acts) && m <= n < |ws| && Unserved(ws[m], h)
    requires TooLong(h) || forall i :: m <= i < n ==> !(acts[i].Begin? && acts[i].key == h.seqNum)
    ensures Unserved(ws[n], h)
  {
    if m < n {
      Stays(ws, acts, m, n - 1, h);
      BlockedStep(ws[n - 1], acts[n - 1], h);
    }
  }

  /**
   Head of line: before a request longer than the local buffer nothing is ever served again, whoever does what; before a
   response with an unregistered key nothing is served until some requester registers that key.
   */
  lemma Blocked(ws: seq<World>, acts: seq<Action>, m: nat, n: nat, h: Header)
    requires Along(ws, acts) && m <= n < |ws| && Unserved(ws[m], h)
    requires TooLong(h) || forall i :: m <= i < n ==> !(acts[i].Begin? && acts[i].key == h.seqNum)
    ensures Unserved(ws[n], h) && NothingServed(ws[m], ws[n])
  {
    forall i | m <= i < n
      ensures NothingServed(ws[i], ws[i + 1])
    {
      Stays(ws, acts, m, i, h);
      BlockedStep(ws[i], acts[i], h);
    }
    Stays(ws, acts, m, n, h);
    StillNothing(ws, m, n);
  }

  lemma {:induction false} StillNothing(ws: seq<World>, m: nat, n: nat)
    requires m <= n < |ws| && forall i :: m <= i < n ==> NothingServed(ws[i], ws[i + 1])
    ensures NothingServed(ws[m], ws[n])
  {
    if m < n {
      StillNothing(ws, m, n - 1);
      assert NothingServed(ws[n - 1], ws[n - 1 + 1]);
    }
  }

  /** The header ahead, which is also what the receiver has seen if it has not yet received what follows. */
  ghost predicate Ahead(w: World, h: Header) {
    && w.pos + HEADER_SIZE <= |w.inbound| && HeaderAt(w.inbound, w.pos) == h
    && (w.rcv.Peeked? || w.rcv.Holding? ==> w.rcv.h == h)
  }

  lemma EmptyStep(w: World, a: Action, h: Header)
    requires Ahead(w, h) && h.length == 0 && Enabled(w, a)
    ensures Ahead(Step(w, a), h) && Step(w, a).pos == w.pos
  {
  }

  /** Before a header that announces nothing the position never changes again, whoever does what. */
  lemma {:induction false} EmptyBlocks(ws: seq<World>, acts: seq<Action>, m: nat, n: nat, h: Header)
    requires Along(ws, acts) && m <= n < |ws| && Ahead(ws[m], h) && h.length == 0
    ensures Ahead(ws[n], h) && ws[n].pos == ws[m].pos
  {
    if m < n {
      EmptyBlocks(ws, acts, m, n - 1, h);
      EmptyNext(ws, acts, n - 1, h);
    }
  }

  lemma EmptyNext(ws: seq<World>, acts: seq<Action>, n: nat, h: Header)
    requires Along(ws, acts) && n < |acts| && Ahead(ws[n], h) && h.length == 0
    ensures Ahead(ws[n + 1], h) && ws[n + 1].pos == ws[n].pos
  {
    EmptyStep(ws[n], acts[n], h);
  }

  /** Some steps of some threads take something from the stream. */
  ghost predicate Movable(w: World) {
    exists acts, w' :: Reaches(w, acts, w') && w'.pos != w.pos
  }

  lemma NotMovable(w: World, acts: seq<Action>, w': World, h: Header)
    requires Before(w, h) && (h.length == 0 || TooLong(h)) && Reaches(w, acts, w')
    ensures w'.pos == w.pos
  {
    var ws :| Along(ws, acts) && ws[0] == w && ws[|acts|] == w';
    if h.length == 0 {
      EmptyBlocks(ws, acts, 0, |acts|, h);
    } else {
      Stays(ws, acts, 0, |acts|, h);
      Blocked(ws, acts, 0, |acts|, h);
    }
  }

  /** An address no request has had. */
  lemma {:induction false} FreshAddress(reqs: seq<Request>) returns (addr: nat)
    ensures forall i :: 0 <= i < |reqs| ==> reqs[i].addr < addr
  {
    if reqs == [] {
      addr := 0;
    } else {
      var last := reqs[|reqs| - 1].addr;
      addr := FreshAddress(reqs[..|reqs| - 1]);
      addr := if last < addr then addr else last + 1;
    }
  }

  /** A response can be served, once its key is registered if it is not yet. */
  lemma ResponseMoves(w: World) returns (acts: seq<Action>, w': World)
    requires Base(w) && w.rcv == Idle && w.pos + HEADER_SIZE <= |w.inbound|
    requires var h := HeaderAt(w.inbound, w.pos); IsResponse(h) && h.length > 0
    ensures Reaches(w, acts, w') && w'.pos == w.pos + 1
  {
    var key := HeaderAt(w.inbound, w.pos).seqNum;
    if key in w.store {
      assert w.store[key].addr in w.cells;
      acts, w' := Serve(w, 1);
    } else {
      var addr := FreshAddress(w.reqs);
      var w1 := Register(w, key, addr);
      var work;
      work, w' := Serve(w1, 1);
      acts := [Begin(key, addr), Send(|w.reqs|, Sending(true, 0))] + work;
      ReachesAppend(w, [Begin(key, addr), Send(|w.reqs|, Sending(true, 0))], w1, work, w');
    }
  }

  /**
   Head of line, exactly: in any reachable state in which the receiver is at rest before a header, the position can still
   change if and only if the header announces something and is not that of a request longer than the local buffer.
   */
  lemma HeadMoves(ws: seq<World>, acts: seq<Action>, n: nat)
    requires Run(ws, acts) && n < |ws| && ws[n].rcv == Idle && ws[n].pos + HEADER_SIZE <= |ws[n].inbound|
    ensures var h := HeaderAt(ws[n].inbound, ws[n].pos);
            Movable(ws[n]) <==> h.length > 0 && (ws[n].inbound[ws[n].pos + 4] >= 0x80 || h.length <= 1024)
  {
    var w, h := ws[n], HeaderAt(ws[n].inbound, ws[n].pos);
    ResponseBit(w.inbound, w.pos);
    if h.length == 0 || TooLong(h) {
      forall more, w' | Reaches(w, more, w')
        ensures w'.pos == w.pos
      {
        NotMovable(w, more, w', h);
      }
    } else if IsResponse(h) {
      RunBase(ws, acts, n);
      var more, w' := ResponseMoves(w);
    } else {
      ReachesTwo(w, Peek, RecvRequest(1));
    }
  }

  /** Once the key is registered, the receiver can serve the response that lies ahead, whatever recv makes of it. */
  lemma Unblocked(w: World, h: Header, addr: nat, got: int) returns (acts: seq<Action>, w': World)
    requires Before(w, h) && w.rcv == Idle && IsResponse(h) && h.seqNum !in w.store && Recv(w, h.length, got)
    requires Enabled(w, Begin(h.seqNum, addr))
    ensures Reaches(w, [Begin(h.seqNum, addr), Send(|w.reqs|, Sending(true, 0))] + acts, w') && OfReceiver(acts)
    ensures w'.pos == w.pos + Taken(got) && h.seqNum !in w'.store
    ensures addr in w'.cells && w'.cells[addr] ==
            FilledCell(w.inbound[w.pos..w.pos + Taken(got)], h.length, got, Cell(None, 0, false))
  {
    var w1 := Register(w, h.seqNum, addr);
    acts, w' := Serve(w1, got);
    ReachesAppend(w, [Begin(h.seqNum, addr), Send(|w.reqs|, Sending(true, 0))], w1, acts, w');
  }
}
