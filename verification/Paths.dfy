/** Sequences of steps of the engine from one world to another. */
module Paths {
  import opened Deliver
  import opened Engine
  import opened Pdu
  import opened Text

  /** The steps lead from one world to another. */
  ghost predicate Reaches(w: World, acts: seq<Action>, w': World) {
    exists ws :: Along(ws, acts) && ws[0] == w && ws[|acts|] == w'
  }

  lemma ReachesSelf(w: World)
    ensures Reaches(w, [], w)
  {
    assert Along([w], []);
  }

  lemma ReachesOne(w: World, a: Action)
    requires Enabled(w, a)
    ensures Reaches(w, [a], Step(w, a))
  {
    assert Along([w, Step(w, a)], [a]);
  }

  lemma ReachesTwo(w: World, a: Action, b: Action)
    requires Enabled(w, a) && Enabled(Step(w, a), b)
    ensures Reaches(w, [a, b], Step(Step(w, a), b))
  {
    ReachesOne(w, a);
    ReachesOne(Step(w, a), b);
    ReachesAppend(w, [a], Step(w, a), [b], Step(Step(w, a), b));
    assert [a] + [b] == [a, b];
  }

  lemma ReachesCons(w: World, a: Action, acts: seq<Action>, w': World)
    requires Enabled(w, a) && Reaches(Step(w, a), acts, w')
    ensures Reaches(w, [a] + acts, w')
  {
    var rest :| Along(rest, acts) && rest[0] == Step(w, a) && rest[|acts|] == w';
    assert Along([w, Step(w, a)], [a]);
    AlongAppend([w, Step(w, a)], [a], rest, acts);
  }

  lemma AlongAppend(ws: seq<World>, acts: seq<Action>, vs: seq<World>, more: seq<Action>)
    requires Along(ws, acts) && Along(vs, more) && ws[|acts|] == vs[0]
    ensures Along(ws + vs[1..], acts + more)
    ensures (ws + vs[1..])[0] == ws[0] && (ws + vs[1..])[|acts|] == vs[0] && (ws + vs[1..])[|acts + more|] == vs[|more|]
  {
    var all, steps := ws + vs[1..], acts + more;
    forall i | 0 <= i < |steps|
      ensures Enabled(all[i], steps[i]) && all[i + 1] == Step(all[i], steps[i])
    {
      if i < |acts| {
        assert steps[i] == acts[i] && all[i] == ws[i] && all[i + 1] == ws[i + 1];
      } else {
        var j := i - |acts|;
        assert steps[i] == more[j] && all[i] == vs[j] && all[i + 1] == vs[j + 1];
      }
    }
  }

  lemma ReachesAppend(w: World, acts: seq<Action>, mid: World, more: seq<Action>, w': World)
    requires Reaches(w, acts, mid) && Reaches(mid, more, w')
    ensures Reaches(w, acts + more, w')
  {
    var ws :| Along(ws, acts) && ws[0] == w && ws[|acts|] == mid;
    var vs :| Along(vs, more) && vs[0] == mid && vs[|more|] == w';
    AlongAppend(ws, acts, vs, more);
  }

  lemma ReachesThrough(w: World, a: seq<Action>, w1: World, b: seq<Action>, w2: World, c: seq<Action>, w': World)
    requires Reaches(w, a, w1) && Reaches(w1, b, w2) && Reaches(w2, c, w')
    ensures Reaches(w, a + (b + c), w')
  {
    ReachesAppend(w1, b, w2, c, w');
    ReachesAppend(w, a, w1, b + c, w');
  }

  /** Two paths, the first from an initial world, are a run that visits the world between them. */
  lemma RunOfPaths(inbound: seq<byte>, peer: Peer, acts: seq<Action>, mid: World, more: seq<Action>, w': World)
    returns (ws: seq<World>)
    requires Reaches(Initial(inbound, peer), acts, mid) && Reaches(mid, more, w')
    ensures Run(ws, acts + more) && ws[0] == Initial(inbound, peer) && ws[|acts|] == mid && ws[|acts + more|] == w'
  {
    var first :| Along(first, acts) && first[0] == Initial(inbound, peer) && first[|acts|] == mid;
    var last :| Along(last, more) && last[0] == mid && last[|more|] == w';
    AlongAppend(first, acts, last, more);
    ws := first + last[1..];
  }

  /** A path from an initial world is a run. */
  lemma RunOfPath(inbound: seq<byte>, peer: Peer, acts: seq<Action>, w': World) returns (ws: seq<World>)
    requires Reaches(Initial(inbound, peer), acts, w')
    ensures Run(ws, acts) && ws[0] == Initial(inbound, peer) && ws[|acts|] == w'
  {
    ws :| Along(ws, acts) && ws[0] == Initial(inbound, peer) && ws[|acts|] == w';
  }

  // ---------------------------------------------------------------- what a requester does

  /** A requester that registers and sends. */
  lemma Register(w: World, key: uint32, addr: nat) returns (w': World)
    requires Enabled(w, Begin(key, addr)) && key !in w.store
    ensures Reaches(w, [Begin(key, addr), Send(|w.reqs|, Sending(true, 0))], w')
    ensures w'.reqs == w.reqs + [Request(key, addr, Waiting)] && w'.store == w.store[key := Entry(addr, |w.reqs|)]
    ensures w'.cells == w.cells[addr := Cell(None, 0, false)]
    ensures w'.rcv == w.rcv && w'.inbound == w.inbound && w'.pos == w.pos
  {
    var n, s := |w.reqs|, Sending(true, 0);
    var w1 := DoBegin(w, key, addr);
    w' := DoSend(w1, n, s);
    ReachesTwo(w, Begin(key, addr), Send(n, s));
  }

  /** A requester that wakes, with or without the semaphore, and leaves with what its cell holds. */
  lemma Leave(w: World, id: nat, lock: int) returns (w': World)
    requires Enabled(w, TimedLock(id, lock))
    ensures Reaches(w, [TimedLock(id, lock), Check(id)], w')
    ensures var c := w.cells[w.reqs[id].addr];
            var ret := if c.dataLen != 0 then 0 else lock;
            w'.reqs == w.reqs[id := w.reqs[id].(phase :=
                         Gone(ret, if ret == 0 then Completed else WaitFailure, c.buf, c.dataLen))]
    ensures w'.store == w.store && w'.rcv == w.rcv && w'.inbound == w.inbound && w'.pos == w.pos
    ensures w'.cells.Keys == w.cells.Keys
  {
    var w1 := DoTimedLock(w, id, lock);
    w' := DoCheck(w1, id);
    ReachesTwo(w, TimedLock(id, lock), Check(id));
  }

  /** The last requester, when the receiver has posted it: it succeeds with what its cell holds. */
  lemma LeaveServed(w: World, reqs: seq<Request>, key: uint32, addr: nat) returns (w': World)
    requires w.reqs == reqs + [Request(key, addr, Waiting)] && addr in w.cells && w.cells[addr].posted
    ensures Reaches(w, [TimedLock(|reqs|, 0), Check(|reqs|)], w') && w'.inbound == w.inbound
    ensures w'.reqs == reqs + [Request(key, addr, Gone(0, Completed, w.cells[addr].buf, w.cells[addr].dataLen))]
  {
    w' := Leave(w, |reqs|, 0);
  }

  // ---------------------------------------------------------------- what the receiver does with a response

  /** A response lies ahead whose key is in the store. */
  ghost predicate CanTake(w: World) {
    && w.rcv == Idle && w.pos + HEADER_SIZE <= |w.inbound|
    && var h := HeaderAt(w.inbound, w.pos);
       IsResponse(h) && h.seqNum in w.store && w.store[h.seqNum].addr in w.cells
  }

  /** Steps of the receiver alone. */
  predicate OfReceiver(acts: seq<Action>) {
    forall i :: 0 <= i < |acts| ==> !acts[i].Begin? && !acts[i].Send? && !acts[i].TimedLock? && !acts[i].Check?
  }

  /** What a cell is when the receiver has posted it; `data` is what recv took. */
  function FilledCell(data: seq<byte>, n: uint32, got: int, before: Cell): Cell {
    Cell(Some(data), if Full(n, got) then ToInt(n) else before.dataLen, true)
  }

  lemma SeeAndTake(w: World) returns (acts: seq<Action>, w': World)
    requires CanTake(w)
    ensures Reaches(w, acts, w') && OfReceiver(acts)
    ensures var h := HeaderAt(w.inbound, w.pos);
            && w'.rcv == Holding(h, w.store[h.seqNum]) && w'.store == w.store - {h.seqNum}
            && w'.reqs == w.reqs && w'.cells == w.cells && w'.inbound == w.inbound && w'.pos == w.pos
  {
    var seen := DoPeek(w);
    w' := DoTake(seen);
    ReachesTwo(w, Peek, Take);
    acts := [Peek, Take];
  }

  /** From the length to the post. */
  lemma Complete(w: World) returns (acts: seq<Action>, w': World)
    requires w.rcv.Filled? && w.rcv.e.addr in w.cells
    ensures Reaches(w, acts, w') && OfReceiver(acts)
    ensures w'.reqs == w.reqs && w'.rcv == Idle && w'.store == w.store && w'.inbound == w.inbound && w'.pos == w.pos
    ensures w'.cells == w.cells[w.rcv.e.addr := Cell(w.cells[w.rcv.e.addr].buf, ToInt(w.rcv.h.length), true)]
  {
    var sized := DoSetLength(w);
    w' := DoPost(sized);
    ReachesTwo(w, SetLength, Post);
    acts := [SetLength, Post];
  }

  /** The post alone. */
  lemma Finish(w: World) returns (acts: seq<Action>, w': World)
    requires w.rcv.Ready? && w.rcv.e.addr in w.cells
    ensures Reaches(w, acts, w') && OfReceiver(acts)
    ensures w'.reqs == w.reqs && w'.rcv == Idle && w'.store == w.store && w'.inbound == w.inbound && w'.pos == w.pos
    ensures w'.cells == w.cells[w.rcv.e.addr := w.cells[w.rcv.e.addr].(posted := true)]
  {
    w' := DoPost(w);
    ReachesOne(w, Post);
    acts := [Post];
  }

  /** From the recv to the post. */
  lemma Fill(w: World, got: int) returns (acts: seq<Action>, w': World)
    requires Enabled(w, RecvResponse(got))
    ensures Reaches(w, acts, w') && OfReceiver(acts)
    ensures w'.reqs == w.reqs && w'.rcv == Idle && w'.store == w.store
    ensures w'.inbound == w.inbound && w'.pos == w.pos + Taken(got)
    ensures var data := w.inbound[w.pos..w.pos + Taken(got)];
            w'.cells == w.cells[w.rcv.e.addr := FilledCell(data, w.rcv.h.length, got, w.cells[w.rcv.e.addr])]
  {
    var filled, rest := DoRecvResponse(w, got), [];
    rest, w' := FillRest(filled, w.rcv.h, w.rcv.e, got);
    acts := [RecvResponse(got)] + rest;
    assert Reaches(w, acts, w') by { ReachesCons(w, RecvResponse(got), rest, w'); }
  }

  /** From what follows the recv. */
  lemma FillRest(w: World, h: Header, e: Entry, got: int) returns (acts: seq<Action>, w': World)
    requires w.rcv == (if Full(h.length, got) then Filled(h, e) else Ready(h, e)) && e.addr in w.cells
    ensures Reaches(w, acts, w') && OfReceiver(acts)
    ensures w'.reqs == w.reqs && w'.rcv == Idle && w'.store == w.store && w'.inbound == w.inbound && w'.pos == w.pos
    ensures var c := w.cells[e.addr];
            w'.cells == w.cells[e.addr := Cell(c.buf, if Full(h.length, got) then ToInt(h.length) else c.dataLen, true)]
  {
    if Full(h.length, got) {
      acts, w' := Complete(w);
    } else {
      acts, w' := Finish(w);
    }
  }

  /**
   The receiver's work on a registered response, whatever recv returns: what it does to the cell the entry points at, and
   what it leaves alone.
   */
  lemma Serve(w: World, got: int) returns (acts: seq<Action>, w': World)
    requires CanTake(w) && Recv(w, HeaderAt(w.inbound, w.pos).length, got)
    ensures Reaches(w, acts, w') && OfReceiver(acts)
    ensures var h := HeaderAt(w.inbound, w.pos);
            && w'.reqs == w.reqs && w'.rcv == Idle && w'.store == w.store - {h.seqNum}
            && w'.inbound == w.inbound && w'.pos == w.pos + Taken(got)
            && var addr, data := w.store[h.seqNum].addr, w.inbound[w.pos..w.pos + Taken(got)];
               w'.cells == w.cells[addr := FilledCell(data, h.length, got, w.cells[addr])]
  {
    var h := HeaderAt(w.inbound, w.pos);
    var e := w.store[h.seqNum];
    var first, taken := SeeAndTake(w);
    assert taken.rcv == Holding(h, e);
    var rest;
    rest, w' := Fill(taken, got);
    acts := first + rest;
    assert Reaches(w, acts, w') by { ReachesAppend(w, first, taken, rest, w'); }
  }

  /** A requester registers and sends, the receiver posts it, and it collects what its cell holds. */
  lemma Collect(w: World, key: uint32, addr: nat, w1: World, work: seq<Action>, w2: World) returns (acts: seq<Action>, w': World)
    requires Reaches(w, [Begin(key, addr), Send(|w.reqs|, Sending(true, 0))], w1) && Reaches(w1, work, w2)
    requires w2.reqs == w.reqs + [Request(key, addr, Waiting)] && addr in w2.cells && w2.cells[addr].posted
    ensures Reaches(w, acts, w') && w'.inbound == w2.inbound
    ensures acts == [Begin(key, addr), Send(|w.reqs|, Sending(true, 0))] + (work + [TimedLock(|w.reqs|, 0), Check(|w.reqs|)])
    ensures w'.reqs == w.reqs + [Request(key, addr, Gone(0, Completed, w2.cells[addr].buf, w2.cells[addr].dataLen))]
  {
    var first, last := [Begin(key, addr), Send(|w.reqs|, Sending(true, 0))], [TimedLock(|w.reqs|, 0), Check(|w.reqs|)];
    w' := LeaveServed(w2, w.reqs, key, addr);
    acts := first + (work + last);
    ReachesThrough(w, first, w1, work, w2, last, w');
  }
}
