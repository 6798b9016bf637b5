/**
 A call of the SMPP handler, undisturbed by requesters, as a function of the world it finds; calls in a row; and how both
 relate to the step system.
 */
module Handler {
  import opened Deliver
  import opened Engine
  import opened Framing
  import opened Paths
  import opened Pdu
  import opened Text

  /** What the world contributes to one call of the handler. */
  datatype Input = Input(arrived: bool, got: int, o: Outside)

  // ---------------------------------------------------------------- the handler as a function

  /** The bytes the recv of this call may take, and an unpacking only of what holds a header. */
  ghost predicate Possible(w: World, i: Input) {
    && w.rcv == Idle && (forall key :: key in w.store ==> w.store[key].addr in w.cells)
    && (i.arrived ==> w.pos + HEADER_SIZE <= |w.inbound| && Recv(w, HeaderAt(w.inbound, w.pos).length, i.got))
    && (i.arrived && i.o.Unpacked() ==> HeaderAt(w.inbound, w.pos).length >= HEADER_SIZE)
  }

  /** From the recv to the post. */
  function FillAndPost(w: World, got: int): World
    requires w.rcv.Holding? && w.rcv.e.addr in w.cells && Recv(w, w.rcv.h.length, got)
  {
    var filled := DoRecvResponse(w, got);
    DoPost(if filled.rcv.Filled? then DoSetLength(filled) else filled)
  }

  function ServeResponse(w: World, got: int): World
    requires w.rcv.Peeked? && w.rcv.h.seqNum in w.store && w.store[w.rcv.h.seqNum].addr in w.cells
    requires Recv(w, w.rcv.h.length, got)
  {
    FillAndPost(DoTake(w), got)
  }

  function ServeRequest(w: World, got: int, o: Outside): World
    requires w.rcv.Peeked? && Recv(w, w.rcv.h.length, got) && (o.Unpacked() ==> w.rcv.h.length >= HEADER_SIZE)
  {
    var read := DoRecvRequest(w, got);
    if read.rcv.Operating? then DoOperate(read, o) else read
  }

  /** The receiver has seen a header, all of which may be acted upon. */
  ghost predicate Seen(w: World, got: int, o: Outside) {
    && w.rcv.Peeked? && (forall key :: key in w.store ==> w.store[key].addr in w.cells)
    && Recv(w, w.rcv.h.length, got) && (o.Unpacked() ==> w.rcv.h.length >= HEADER_SIZE)
  }

  ghost function HandleSeen(w: World, got: int, o: Outside): World
    requires Seen(w, got, o)
  {
    if !IsResponse(w.rcv.h) then ServeRequest(w, got, o)
    else if w.rcv.h.seqNum in w.store then ServeResponse(w, got)
    else DoTake(w)
  }

  /** One undisturbed call of sms112_smpp_handler. */
  ghost function Handle(w: World, i: Input): World
    requires Possible(w, i)
  {
    if !i.arrived then w else HandleSeen(DoPeek(w), i.got, i.o)
  }

  /** The header is a response with a registered key, or a request that fits the local buffer. */
  predicate Servable(w: World, h: Header) {
    if IsResponse(h) then h.seqNum in w.store else h.length <= LOCAL_BUFFER
  }

  /** So is the header ahead. */
  predicate Served(w: World)
    requires w.pos + HEADER_SIZE <= |w.inbound|
  {
    Servable(w, HeaderAt(w.inbound, w.pos))
  }

  // ---------------------------------------------------------------- calls in a row

  /** Calls in a row, with no requester in between, and the worlds they lead through. */
  ghost predicate InARow(vs: seq<World>, ins: seq<Input>) {
    && |vs| == |ins| + 1
    && forall i :: 0 <= i < |ins| ==> Possible(vs[i], ins[i]) && vs[i + 1] == Handle(vs[i], ins[i])
  }

  lemma CallNext(vs: seq<World>, ins: seq<Input>, k: nat)
    requires InARow(vs, ins) && k < |ins|
    ensures Possible(vs[k], ins[k]) && vs[k + 1] == Handle(vs[k], ins[k])
  {
  }

  /** One turn of the poll loop: g_iStop at the loop test, whether poll reports POLLIN alone, and the call that makes. */
  datatype Turn = Turn(stop: bool, readable: bool, i: Input)

  /** The calls of the handler before the loop is left. */
  function Called(script: seq<Turn>): seq<Input> {
    if script == [] || script[0].stop then []
    else (if script[0].readable then [script[0].i] else []) + Called(script[1..])
  }

  lemma CalledStep(script: seq<Turn>, n: nat, all: seq<Input>, k: nat)
    requires n < |script| && !script[n].stop && k <= |all| && all[k..] == Called(script[n..])
    ensures if script[n].readable then k < |all| && all[k] == script[n].i && all[k + 1..] == Called(script[n + 1..])
            else all[k..] == Called(script[n + 1..])
  {
    assert script[n..][1..] == script[n + 1..];
    if script[n].readable {
      assert all[k] == all[k..][0] && all[k + 1..] == all[k..][1..];
    }
  }

  /** The first turn that is stopped, or the end of the script. */
  predicate StopsAt(script: seq<Turn>, n: nat) {
    n <= |script| && (forall k :: 0 <= k < n ==> !script[k].stop) && (n < |script| ==> script[n].stop)
  }

  /** How many of the first `k` turns are readable. */
  function Readable(script: seq<Turn>, k: nat): nat
    requires k <= |script|
  {
    if k == 0 then 0 else (if script[0].readable then 1 else 0) + Readable(script[1..], k - 1)
  }

  /** These are the calls of the first `n` turns: as many as are readable, each in its place. */
  ghost predicate CallsOf(script: seq<Turn>, n: nat, ins: seq<Input>)
    requires n <= |script|
  {
    && |ins| == Readable(script, n)
    && forall k :: 0 <= k < n && script[k].readable ==> Readable(script, k) < |ins| && ins[Readable(script, k)] == script[k].i
  }

  lemma CallsOfMore(script: seq<Turn>, n: nat, ins: seq<Input>)
    requires n < |script| && CallsOf(script[1..], n, ins)
    ensures CallsOf(script, n + 1, (if script[0].readable then [script[0].i] else []) + ins)
  {
    var all, first := (if script[0].readable then [script[0].i] else []) + ins, if script[0].readable then 1 else 0;
    forall k | 0 <= k < n + 1 && script[k].readable
      ensures Readable(script, k) < |all| && all[Readable(script, k)] == script[k].i
    {
      if k > 0 {
        assert script[1..][k - 1] == script[k];
        assert Readable(script, k) == first + Readable(script[1..], k - 1);
        assert all[first + Readable(script[1..], k - 1)] == ins[Readable(script[1..], k - 1)];
      }
    }
  }

  lemma StopsLater(script: seq<Turn>, n: nat)
    requires script != [] && !script[0].stop && StopsAt(script[1..], n)
    ensures StopsAt(script, n + 1)
  {
    forall k | 0 <= k < n + 1
      ensures !script[k].stop
    {
      if k > 0 {
        assert script[k] == script[1..][k - 1];
      }
    }
  }

  /** Which calls are made: one for each readable turn before the first that is stopped, in order. */
  lemma {:induction false} CalledAre(script: seq<Turn>) returns (n: nat)
    ensures StopsAt(script, n) && CallsOf(script, n, Called(script))
    decreases |script|
  {
    if script == [] || script[0].stop {
      n := 0;
    } else {
      var m := CalledAre(script[1..]);
      n := m + 1;
      StopsLater(script, m);
      CallsOfMore(script, m, Called(script[1..]));
    }
  }

  lemma CalledEnd(script: seq<Turn>, n: nat, all: seq<Input>, k: nat)
    requires n <= |script| && (n < |script| ==> script[n].stop) && k <= |all| && all[k..] == Called(script[n..])
    ensures k == |all|
  {
    assert Called(script[n..]) == [];
  }

  // ---------------------------------------------------------------- calls and the step system

  /** The steps of a recv into a cell and what follows it. */
  function FillSteps(h: Header, got: int): seq<Action> {
    [RecvResponse(got)] + if Full(h.length, got) then [SetLength, Post] else [Post]
  }

  /** Those of a recv of a request. */
  function RequestSteps(h: Header, got: int, o: Outside): seq<Action> {
    [RecvRequest(got)] + if h.length <= LOCAL_BUFFER && Full(h.length, got) then [Operate(o)] else []
  }

  /** Those of a call that has seen a header. */
  function SeenSteps(h: Header, known: bool, got: int, o: Outside): seq<Action> {
    if !IsResponse(h) then RequestSteps(h, got, o) else [Take] + if known then FillSteps(h, got) else []
  }

  /** The steps one undisturbed call takes. */
  ghost function Steps(w: World, i: Input): seq<Action>
    requires Possible(w, i)
  {
    if !i.arrived then []
    else
      var h := HeaderAt(w.inbound, w.pos);
      [Peek] + SeenSteps(h, h.seqNum in w.store, i.got, i.o)
  }

  /** A call of the handler is a path of the step system. */
  lemma HandleIsPath(w: World, i: Input)
    requires Possible(w, i)
    ensures Reaches(w, Steps(w, i), Handle(w, i))
  {
    if i.arrived {
      var seen := DoPeek(w);
      SeenIsPath(seen, i.got, i.o);
      ReachesCons(w, Peek, SeenSteps(seen.rcv.h, seen.rcv.h.seqNum in seen.store, i.got, i.o), Handle(w, i));
    } else {
      ReachesSelf(w);
    }
  }

  lemma SeenIsPath(w: World, got: int, o: Outside)
    requires Seen(w, got, o)
    ensures Reaches(w, SeenSteps(w.rcv.h, w.rcv.h.seqNum in w.store, got, o), HandleSeen(w, got, o))
  {
    if !IsResponse(w.rcv.h) {
      RequestIsPath(w, got, o);
    } else {
      var taken := DoTake(w);
      if w.rcv.h.seqNum in w.store {
        FillIsPath(taken, got);
        ReachesCons(w, Take, FillSteps(w.rcv.h, got), FillAndPost(taken, got));
      } else {
        ReachesSelf(taken);
        ReachesCons(w, Take, [], taken);
      }
    }
  }

  lemma RequestIsPath(w: World, got: int, o: Outside)
    requires Enabled(w, RecvRequest(got)) && (o.Unpacked() ==> w.rcv.h.length >= HEADER_SIZE)
    ensures Reaches(w, RequestSteps(w.rcv.h, got, o), ServeRequest(w, got, o))
  {
    var read := DoRecvRequest(w, got);
    if read.rcv.Operating? {
      ReachesOne(read, Operate(o));
      ReachesCons(w, RecvRequest(got), [Operate(o)], DoOperate(read, o));
    } else {
      ReachesSelf(read);
      ReachesCons(w, RecvRequest(got), [], read);
    }
  }

  lemma FillIsPath(w: World, got: int)
    requires Enabled(w, RecvResponse(got))
    ensures Reaches(w, FillSteps(w.rcv.h, got), FillAndPost(w, got))
  {
    var filled := DoRecvResponse(w, got);
    if filled.rcv.Filled? {
      ReachesTwo(filled, SetLength, Post);
      ReachesCons(w, RecvResponse(got), [SetLength, Post], DoPost(DoSetLength(filled)));
    } else {
      ReachesOne(filled, Post);
      ReachesCons(w, RecvResponse(got), [Post], DoPost(filled));
    }
  }

  /** Calls in a row are a path too, and from the start a run: what holds of all runs holds of them. */
  lemma {:induction false} CallsArePath(vs: seq<World>, ins: seq<Input>, n: nat) returns (acts: seq<Action>)
    requires InARow(vs, ins) && n <= |ins|
    ensures Reaches(vs[0], acts, vs[n])
  {
    if n == 0 {
      acts := [];
      ReachesSelf(vs[0]);
    } else {
      acts := CallsArePath(vs, ins, n - 1);
      CallNext(vs, ins, n - 1);
      HandleIsPath(vs[n - 1], ins[n - 1]);
      ReachesAppend(vs[0], acts, vs[n - 1], Steps(vs[n - 1], ins[n - 1]), vs[n]);
      acts := acts + Steps(vs[n - 1], ins[n - 1]);
    }
  }

  lemma CallsAreRun(inbound: seq<byte>, peer: Peer, vs: seq<World>, ins: seq<Input>) returns (ws: seq<World>, acts: seq<Action>)
    requires InARow(vs, ins) && vs[0] == Initial(inbound, peer)
    ensures Run(ws, acts) && ws[0] == vs[0] && ws[|acts|] == vs[|ins|]
  {
    acts := CallsArePath(vs, ins, |ins|);
    ws := RunOfPath(inbound, peer, acts, vs[|ins|]);
  }

  // ---------------------------------------------------------------- what a call reads

  /** The call sees a header it can serve. */
  predicate Serves(w: World, i: Input) {
    i.arrived && w.pos + HEADER_SIZE <= |w.inbound| && Served(w)
  }

  /** One piece more has been read, perhaps an empty one. */
  ghost predicate HasRead(w: World, got: nat, w': World)
    requires w.pos + got <= |w.inbound|
  {
    w'.inbound == w.inbound && w'.pos == w.pos + got && w'.pieces == w.pieces + [w.inbound[w.pos..w.pos + got]]
  }

  lemma ServeResponseReads(w: World, got: int)
    requires w.rcv.Peeked? && w.rcv.h.seqNum in w.store && w.store[w.rcv.h.seqNum].addr in w.cells
    requires Recv(w, w.rcv.h.length, got)
    ensures HasRead(w, Taken(got), ServeResponse(w, got))
  {
  }

  lemma ServeRequestReads(w: World, got: int, o: Outside)
    requires w.rcv.Peeked? && Recv(w, w.rcv.h.length, got) && (o.Unpacked() ==> w.rcv.h.length >= HEADER_SIZE)
    ensures if w.rcv.h.length > LOCAL_BUFFER then ServeRequest(w, got, o) == w.(rcv := Idle)
            else HasRead(w, Taken(got), ServeRequest(w, got, o))
  {
  }

  lemma SeenReads(w: World, h: Header, got: int, o: Outside)
    requires w.rcv == Idle && Seen(w.(rcv := Peeked(h)), got, o)
    ensures var w' := HandleSeen(w.(rcv := Peeked(h)), got, o);
            if Servable(w, h) then HasRead(w, Taken(got), w') else w' == w
  {
    var seen := w.(rcv := Peeked(h));
    if !IsResponse(h) {
      ServeRequestReads(seen, got, o);
    } else if h.seqNum in w.store {
      ServeResponseReads(seen, got);
    }
  }

  /**
   Which calls read: exactly those that see a response with a registered key or a request that fits the local buffer. All
   the others change nothing at all.
   */
  lemma HandlerReads(w: World, i: Input)
    requires Possible(w, i)
    ensures if Serves(w, i) then HasRead(w, Taken(i.got), Handle(w, i)) else Handle(w, i) == w
  {
    if i.arrived {
      SeenReads(w, HeaderAt(w.inbound, w.pos), i.got, i.o);
    }
  }

  /** And which of them move: those that take something. A header that announces nothing is read without moving. */
  lemma HandlerMoves(w: World, i: Input)
    requires Possible(w, i)
    ensures Handle(w, i).pos != w.pos <==> Serves(w, i) && Taken(i.got) > 0
    ensures i.arrived && HeaderAt(w.inbound, w.pos).length == 0 ==> Handle(w, i).pos == w.pos
  {
    HandlerReads(w, i);
  }

  // ---------------------------------------------------------------- framing and head of line for calls

  /** How many of the first `n` calls serve something. */
  ghost function ServedCalls(vs: seq<World>, ins: seq<Input>, n: nat): nat
    requires n <= |ins| <= |vs|
  {
    if n == 0 then 0 else ServedCalls(vs, ins, n - 1) + if Serves(vs[n - 1], ins[n - 1]) then 1 else 0
  }

  /** A call that serves something receives all the header announced. */
  ghost predicate FullCall(w: World, i: Input) {
    Serves(w, i) ==> i.got == HeaderAt(w.inbound, w.pos).length
  }

  /**
   Framing for calls in a row, from any boundary, whatever is registered: over truthful PDUs and full recvs, they have read
   exactly as many of the next PDUs as there were calls that could serve what they saw, and end on the boundary behind them.
   */
  lemma {:induction false} CallsFramed(vs: seq<World>, ins: seq<Input>, pdus: seq<seq<byte>>, n: nat)
    requires InARow(vs, ins) && n <= |ins| && Framed(vs[0], pdus)
    requires forall i :: 0 <= i < |ins| ==> FullCall(vs[i], ins[i])
    ensures var k := |vs[0].pieces| + ServedCalls(vs, ins, n);
            && Framed(vs[n], pdus) && k <= |pdus| && vs[n].pieces == pdus[..k] && vs[n].pos == |Concat(pdus[..k])|
  {
    if n > 0 {
      CallsFramed(vs, ins, pdus, n - 1);
      NextFramed(vs, ins, pdus, n - 1);
    }
    OnBoundary(vs[n], pdus);
  }

  lemma NextFramed(vs: seq<World>, ins: seq<Input>, pdus: seq<seq<byte>>, n: nat)
    requires InARow(vs, ins) && n < |ins| && Framed(vs[n], pdus) && FullCall(vs[n], ins[n])
    ensures Framed(vs[n + 1], pdus) && |vs[n + 1].pieces| == |vs[n].pieces| + if Serves(vs[n], ins[n]) then 1 else 0
  {
    CallNext(vs, ins, n);
    CallFramed(vs[n], ins[n], pdus);
  }

  lemma CallFramed(w: World, i: Input, pdus: seq<seq<byte>>)
    requires Possible(w, i) && Framed(w, pdus) && FullCall(w, i)
    ensures Framed(Handle(w, i), pdus) && |Handle(w, i).pieces| == |w.pieces| + if Serves(w, i) then 1 else 0
  {
    HandlerReads(w, i);
    if Serves(w, i) {
      PieceFramed(w, Handle(w, i), pdus, i.got);
    }
  }

  lemma PieceFramed(w: World, w': World, pdus: seq<seq<byte>>, got: nat)
    requires Framed(w, pdus) && w.pos + HEADER_SIZE <= |w.inbound| && got == HeaderAt(w.inbound, w.pos).length
    requires w.pos + got <= |w.inbound| && HasRead(w, got, w')
    ensures Framed(w', pdus) && |w'.pieces| == |w.pieces| + 1
  {
    FullRecvTo(w, w', pdus, got);
  }

  lemma OnBoundary(w: World, pdus: seq<seq<byte>>)
    requires Framed(w, pdus)
    ensures w.pieces == pdus[..|w.pieces|] && w.pos == |Concat(pdus[..|w.pieces|])|
  {
    assert pdus[..|w.pieces|] == w.pieces;
  }

  /** Before a header that cannot be served no number of calls changes anything. */
  lemma {:induction false} CallsBlocked(vs: seq<World>, ins: seq<Input>, n: nat)
    requires InARow(vs, ins) && n <= |ins| && vs[0].pos + HEADER_SIZE <= |vs[0].inbound| && !Served(vs[0])
    ensures vs[n] == vs[0]
  {
    if n > 0 {
      CallsBlocked(vs, ins, n - 1);
      CallNext(vs, ins, n - 1);
      HandlerReads(vs[n - 1], ins[n - 1]);
    }
  }

  /** A request that announces nothing lies ahead. */
  ghost predicate EmptyRequest(w: World) {
    && w.pos + HEADER_SIZE <= |w.inbound|
    && HeaderAt(w.inbound, w.pos).length == 0 && !IsResponse(HeaderAt(w.inbound, w.pos))
  }

  lemma EmptyRequestOperated(w: World, h: Header, o: Outside)
    requires Seen(w.(rcv := Peeked(h)), 0, o) && h.length == 0 && !IsResponse(h)
    ensures var w' := HandleSeen(w.(rcv := Peeked(h)), 0, o);
            && w'.inbound == w.inbound && w'.pos == w.pos && w'.ops == w.ops + [Operated(h, [], o)]
            && (h.id == UNBIND ==> !w'.peer.smppUp)
  {
    assert w.inbound[w.pos..w.pos + 0] == [];
  }

  /**
   Before a request that announces nothing, every call whose recv does not fail dispatches it once more: with UNBIND, each
   of them lowers the SMPP flag, whatever was done about it in between.
   */
  lemma EmptyRequestRepeats(w: World, i: Input)
    requires Possible(w, i) && EmptyRequest(w) && i.arrived && i.got == 0
    ensures EmptyRequest(Handle(w, i)) && Handle(w, i).pos == w.pos
    ensures Handle(w, i).ops == w.ops + [Operated(HeaderAt(w.inbound, w.pos), [], i.o)]
    ensures HeaderAt(w.inbound, w.pos).id == UNBIND ==> !Handle(w, i).peer.smppUp
  {
    EmptyRequestOperated(w, HeaderAt(w.inbound, w.pos), i.o);
  }

  lemma {:induction false} CallsRepeat(vs: seq<World>, ins: seq<Input>, n: nat)
    requires InARow(vs, ins) && n <= |ins| && EmptyRequest(vs[0])
    requires forall i :: 0 <= i < |ins| ==> ins[i].arrived && ins[i].got == 0
    ensures EmptyRequest(vs[n]) && vs[n].pos == vs[0].pos && |vs[n].ops| == |vs[0].ops| + n
  {
    if n > 0 {
      CallsRepeat(vs, ins, n - 1);
      CallNext(vs, ins, n - 1);
      EmptyRequestRepeats(vs[n - 1], ins[n - 1]);
    }
  }
}
