/**
 What the environment did to whom: the code every requester leaves with, traced back to the send or the wait that gave it,
 and the two connection flags, traced back to everything that lowers them.
 */
module Exits {
  import opened Correlation
  import opened Deliver
  import opened Engine
  import opened Matching
  import opened Pdu
  import opened Text

  // ---------------------------------------------------------------- exits

  /** One of the first `n` steps is a send of this request that counted as done. */
  ghost predicate SentBefore(acts: seq<Action>, n: nat, i: nat)
    requires n <= |acts|
  {
    exists j :: 0 <= j < n && acts[j].Send? && acts[j].id == i && (acts[j].sending.full || acts[j].sending.errno == 0)
  }

  /** One of them is a send that left this errno. */
  ghost predicate FailedBefore(acts: seq<Action>, n: nat, i: nat, errno: int)
    requires n <= |acts|
  {
    exists j :: 0 <= j < n && acts[j].Send? && acts[j].id == i && !acts[j].sending.full && acts[j].sending.errno == errno
  }

  /** One of them is the end of this request's wait with this code. */
  ghost predicate WokenBefore(acts: seq<Action>, n: nat, i: nat, lock: int)
    requires n <= |acts|
  {
    exists j :: 0 <= j < n && acts[j] == TimedLock(i, lock)
  }

  /** How a request came to stand where it stands. */
  ghost predicate Came(acts: seq<Action>, n: nat, i: nat, p: Phase)
    requires n <= |acts|
  {
    match p
    case Added => true
    case Waiting => SentBefore(acts, n, i)
    case Woken(lock) => SentBefore(acts, n, i) && WokenBefore(acts, n, i, lock)
    case Gone(ret, exit, _, dataLen) =>
      match exit
      case Exists => ret == 17
      case SendFailure => ret != 0 && FailedBefore(acts, n, i, ret)
      case WaitFailure => ret != 0 && dataLen == 0 && SentBefore(acts, n, i) && WokenBefore(acts, n, i, ret)
      case Completed => ret == 0 && SentBefore(acts, n, i) && (dataLen == 0 ==> WokenBefore(acts, n, i, 0))
  }

  lemma CameLater(acts: seq<Action>, n: nat, i: nat, p: Phase)
    requires n < |acts| && Came(acts, n, i, p)
    ensures Came(acts, n + 1, i, p)
  {
  }

  ghost predicate AllCame(acts: seq<Action>, n: nat, w: World)
    requires n <= |acts|
  {
    forall i :: 0 <= i < |w.reqs| ==> Came(acts, n, i, w.reqs[i].phase)
  }

  /** Which requests a step moves: the one that takes it, and a new one is added or turned away. */
  lemma StepPhases(w: World, a: Action)
    requires Enabled(w, a)
    ensures |w.reqs| <= |Step(w, a).reqs| <= |w.reqs| + 1
    ensures forall i :: 0 <= i < |w.reqs| && !((a.Send? || a.TimedLock? || a.Check?) && a.id == i) ==>
                          Step(w, a).reqs[i].phase == w.reqs[i].phase
    ensures |Step(w, a).reqs| > |w.reqs| ==>
              Step(w, a).reqs[|w.reqs|].phase in {Added, Gone(17, Exists, None, 0)}
  {
  }

  lemma SendCame(acts: seq<Action>, n: nat, w: World)
    requires n < |acts| && acts[n].Send? && Enabled(w, acts[n])
    ensures Came(acts, n + 1, acts[n].id, DoSend(w, acts[n].id, acts[n].sending).reqs[acts[n].id].phase)
  {
  }

  lemma WaitCame(acts: seq<Action>, n: nat, w: World)
    requires n < |acts| && acts[n].TimedLock? && Enabled(w, acts[n]) && SentBefore(acts, n, acts[n].id)
    ensures Came(acts, n + 1, acts[n].id, Woken(acts[n].lock))
  {
    assert acts[n] == TimedLock(acts[n].id, acts[n].lock);
  }

  lemma CheckCame(acts: seq<Action>, n: nat, w: World, id: nat)
    requires n <= |acts| && Enabled(w, Check(id)) && Came(acts, n, id, w.reqs[id].phase)
    ensures Came(acts, n, id, DoCheck(w, id).reqs[id].phase)
  {
  }

  lemma StepCame(acts: seq<Action>, n: nat, w: World)
    requires n < |acts| && AllCame(acts, n, w) && Enabled(w, acts[n])
    ensures AllCame(acts, n + 1, Step(w, acts[n]))
  {
    var a, w' := acts[n], Step(w, acts[n]);
    StepPhases(w, a);
    forall i | 0 <= i < |w'.reqs|
      ensures Came(acts, n + 1, i, w'.reqs[i].phase)
    {
      if i < |w.reqs| {
        CameLater(acts, n, i, w.reqs[i].phase);
        match a
        case Send(id, s) => if i == id { SendCame(acts, n, w); }
        case TimedLock(id, lock) => if i == id { WaitCame(acts, n, w); }
        case Check(id) => if i == id { CheckCame(acts, n + 1, w, id); }
        case _ =>
      }
    }
  }

  /**
   The exits of sms112_smpp_send, for every run: a request that left by a failed send left with the errno of its own send,
   one that left by a failed wait with the code of its own wait and without data, one that was turned away with EEXIST; and
   a success without data was woken by its semaphore.
   */
  lemma {:induction false} RunExits(ws: seq<World>, acts: seq<Action>, n: nat)
    requires Run(ws, acts) && n < |ws|
    ensures AllCame(acts, n, ws[n])
  {
    if n > 0 {
      RunExits(ws, acts, n - 1);
      NextExits(ws, acts, n - 1);
    }
  }

  lemma NextExits(ws: seq<World>, acts: seq<Action>, n: nat)
    requires Along(ws, acts) && n < |acts| && AllCame(acts, n, ws[n])
    ensures AllCame(acts, n + 1, ws[n + 1])
  {
    StepCame(acts, n, ws[n]);
  }

  /** A waiting requester can be woken by its semaphore exactly when it has been posted. */
  lemma WakesWhenPosted(ws: seq<World>, acts: seq<Action>, n: nat, i: nat)
    requires Run(ws, acts) && NoReuseRun(ws, acts) && n < |ws|
    requires i < |ws[n].reqs| && ws[n].reqs[i].phase == Waiting
    ensures Enabled(ws[n], TimedLock(i, 0)) <==> i in ws[n].posted
  {
    RunCorrelated(ws, acts, n);
    assert RequestIs(ws[n], i);
  }

  // ---------------------------------------------------------------- flags

  /** A request of the server that is answered. */
  predicate Answers(id: uint32, o: Outside) {
    o.unpackError == 0 && ((id == DELIVER_SM && o.message.coding in {0, 8}) || id == UNBIND)
  }

  /** Its answer could be packed and was not sent in full. */
  predicate AnswerLost(id: uint32, o: Outside) {
    Answers(id, o) && o.packError == 0 && !o.sending.full
  }

  lemma SmppFlagStep(w: World, a: Action)
    requires Enabled(w, a)
    ensures Step(w, a).peer.smppUp <==> w.peer.smppUp && !(a.Operate? && w.rcv.h.id == UNBIND)
  {
  }

  lemma TcpFlagStep(w: World, a: Action)
    requires Enabled(w, a)
    ensures Step(w, a).peer.tcpUp <==>
            w.peer.tcpUp && !(a.Send? && !a.sending.full) && !(a.Operate? && AnswerLost(w.rcv.h.id, a.o))
  {
  }

  lemma OpsStep(w: World, a: Action)
    requires Enabled(w, a)
    ensures Step(w, a).ops == w.ops + if a.Operate? then [Operated(w.rcv.h, w.rcv.bytes, a.o)] else []
  {
  }

  /** No UNBIND was operated, whether it unpacked or not. */
  predicate NoUnbind(ops: seq<Operated>) {
    forall i :: 0 <= i < |ops| ==> ops[i].h.id != UNBIND
  }

  /** No answer was lost. */
  predicate NoneLost(ops: seq<Operated>) {
    forall i :: 0 <= i < |ops| ==> !AnswerLost(ops[i].h.id, ops[i].o)
  }

  /** None of the first `n` steps is a send that was not full. */
  predicate NoneShort(acts: seq<Action>, n: nat)
    requires n <= |acts|
  {
    forall j :: 0 <= j < n ==> !(acts[j].Send? && !acts[j].sending.full)
  }

  lemma OneMoreOp(ops: seq<Operated>, op: Operated)
    ensures NoUnbind(ops + [op]) <==> NoUnbind(ops) && op.h.id != UNBIND
    ensures NoneLost(ops + [op]) <==> NoneLost(ops) && !AnswerLost(op.h.id, op.o)
  {
    assert (ops + [op])[|ops|] == op;
    assert forall i :: 0 <= i < |ops| ==> (ops + [op])[i] == ops[i];
  }

  ghost predicate FlagsAre(w0: World, acts: seq<Action>, n: nat, w: World)
    requires n <= |acts|
  {
    && (w.peer.smppUp <==> w0.peer.smppUp && NoUnbind(w.ops))
    && (w.peer.tcpUp <==> w0.peer.tcpUp && NoneShort(acts, n) && NoneLost(w.ops))
  }

  lemma NextFlags(w0: World, acts: seq<Action>, n: nat, w: World)
    requires n < |acts| && FlagsAre(w0, acts, n, w) && Enabled(w, acts[n])
    ensures FlagsAre(w0, acts, n + 1, Step(w, acts[n]))
  {
    var a := acts[n];
    SmppFlagStep(w, a);
    TcpFlagStep(w, a);
    OpsStep(w, a);
    if a.Operate? {
      OneMoreOp(w.ops, Operated(w.rcv.h, w.rcv.bytes, a.o));
    } else {
      assert w.ops + [] == w.ops;
    }
  }

  /**
   The flags over every run: the SMPP flag is up if and only if it was and no UNBIND was operated; the TCP flag if and only
   if it was, no requester's send came short and no answer was lost. Nothing else the engine does touches them.
   */
  lemma {:induction false} RunFlags(ws: seq<World>, acts: seq<Action>, n: nat)
    requires Run(ws, acts) && n < |ws|
    ensures FlagsAre(ws[0], acts, n, ws[n])
  {
    if n > 0 {
      RunFlags(ws, acts, n - 1);
      StepFlags(ws, acts, n - 1);
    }
  }

  lemma StepFlags(ws: seq<World>, acts: seq<Action>, n: nat)
    requires Along(ws, acts) && n < |acts| && FlagsAre(ws[0], acts, n, ws[n])
    ensures FlagsAre(ws[0], acts, n + 1, ws[n + 1])
  {
    NextFlags(ws[0], acts, n, ws[n]);
  }
}
