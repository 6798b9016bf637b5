/**
 The connection supervisor: do_smpp_ping with the connection operations it drives. Two flags, a socket handle and a
 deadline against the session the server really holds.
 */
module Supervisor {

  /** The session of the current socket as the server sees it; Dead when nothing sent on it can arrive. */
  datatype Session = Dead | Open | Bound

  datatype Event = Connect(ok: bool) | Close | Bind | Unbind | EnquireLink

  type ErrorCode = x: int | x != 0 witness 1

  /**
   What the world does with one request: whether send took all of it, the errno left behind otherwise (which a partial
   send may leave at zero), whether an accepting response arrived in time, and the session afterwards. A request that fails
   before anything is sent is one with `full` that is not accepted and leaves the session as it was.
   */
  datatype Exchange = Exchange(full: bool, errno: int, accepted: bool, failure: ErrorCode, after: Session)

  /** What the world does during one pass of the loop. */
  datatype Env = Env(socketOk: bool, connected: bool, fcntlOk: bool, errno: ErrorCode, closeOk: bool,
                     enquire: Exchange, unbind: Exchange, bind: Exchange)

  datatype State = State(tcp: bool, smpp: bool, socket: bool, session: Session, deadline: int, log: seq<Event>)

  /** An exchange that its request reports as a success: the request was sent, or its errno was lost, and was accepted. */
  predicate Answered(x: Exchange) {
    (x.full || x.errno == 0) && x.accepted
  }

  // ---------------------------------------------------------------- the operations as functions

  /** A request of the given kind: the new state and the code sms112_smpp_send and the checks after it return. */
  function Request(s: State, kind: Event, x: Exchange): (State, int) {
    var sent := s.(log := s.log + [kind], session := x.after, tcp := s.tcp && x.full);
    (sent, if !x.full && x.errno != 0 then x.errno else if x.accepted then 0 else x.failure)
  }

  function DoBind(s: State, x: Exchange): State {
    var (sent, code) := Request(s, Bind, x);
    if code == 0 then sent.(smpp := true) else sent
  }

  function DoUnbind(s: State, x: Exchange): State {
    Request(s.(smpp := false), Unbind, x).0
  }

  function DoClose(s: State, env: Env): State {
    if !s.socket then s
    else if env.closeOk then s.(tcp := false, socket := false, session := Dead, log := s.log + [Close])
    else s.(session := Dead, log := s.log + [Close])
  }

  predicate ConnectReported(env: Env) {
    env.socketOk && env.fcntlOk
  }

  function DoConnect(s: State, env: Env): State {
    var t := s.(socket := env.socketOk,
                session := if env.socketOk && env.connected then Open else Dead,
                log := s.log + [Connect(ConnectReported(env))]);
    if ConnectReported(env) then t.(tcp := true) else t
  }

  /** One pass of the loop, case by case: TCP down, SMPP down, link check ok, link check failed. */
  function Tick(s: State, env: Env, span: nat): State {
    if !s.tcp then Reconnect(s, env, span)
    else if !s.smpp then Advance(DoBind(s, env.bind), span)
    else
      var (checked, code) := Request(s, EnquireLink, env.enquire);
      if code == 0 then Advance(checked, span)
      else Reconnect(DoClose(DoUnbind(checked, env.unbind), env), env, span)
  }

  function Reconnect(s: State, env: Env, span: nat): State {
    if ConnectReported(env) then Advance(DoBind(DoConnect(s, env), env.bind), span) else DoConnect(s, env)
  }

  function Advance(s: State, span: nat): State {
    s.(deadline := s.deadline + span)
  }

  function Ticks(s: State, envs: seq<Env>, span: nat): State {
    if envs == [] then s else Tick(Ticks(s, envs[..|envs| - 1], span), envs[|envs| - 1], span)
  }

  // ---------------------------------------------------------------- the loop with its labels

  /** Where control stands inside the loop body. */
  datatype Label = CheckTcp | CheckSmpp | CheckLink | TcpConnection | SmppConnection | AddSpan | EndOfPass

  /** What is still to be done from a label. */
  function From(l: Label, s: State, env: Env, span: nat): State
    decreases Rank(l)
  {
    match l
    case CheckTcp => Tick(s, env, span)
    case CheckSmpp =>
      if !s.smpp then Advance(DoBind(s, env.bind), span) else From(CheckLink, s, env, span)
    case CheckLink =>
      var (checked, code) := Request(s, EnquireLink, env.enquire);
      if code == 0 then Advance(checked, span)
      else Reconnect(DoClose(DoUnbind(checked, env.unbind), env), env, span)
    case TcpConnection => Reconnect(s, env, span)
    case SmppConnection => Advance(DoBind(s, env.bind), span)
    case AddSpan => Advance(s, span)
    case EndOfPass => s
  }

  function Rank(l: Label): nat {
    match l
    case CheckTcp => 6
    case CheckSmpp => 5
    case CheckLink => 4
    case TcpConnection => 3
    case SmppConnection => 2
    case AddSpan => 1
    case EndOfPass => 0
  }

  /** One turn of the loop: g_iStop at the loop test, how the timed lock ended, and the world of the pass. */
  datatype Wake = Wake(stop: bool, timedOut: bool, env: Env)

  /** The passes made before the loop is left. */
  function Passes(script: seq<Wake>): seq<Env> {
    if script == [] || script[0].stop || !script[0].timedOut then [] else [script[0].env] + Passes(script[1..])
  }

  class Connection {
    var tcpConnected: bool
    var smppConnected: bool
    var sock: bool
    var deadline: int
    const span: nat
    ghost var session: Session
    ghost var log: seq<Event>

    constructor (span: nat, now: int)
      ensures this.span == span && View() == State(false, false, false, Dead, now + span, [])
    {
      this.span := span;
      tcpConnected, smppConnected, sock, deadline := false, false, false, now + span;
      session, log := Dead, [];
    }

    ghost function View(): State
      reads this
    {
      State(tcpConnected, smppConnected, sock, session, deadline, log)
    }

    method TcpConnect(env: Env) returns (ret: int)
      modifies this
      ensures View() == DoConnect(old(View()), env)
      ensures ret == 0 <==> env.socketOk && env.fcntlOk
      ensures tcpConnected == (old(tcpConnected) || ret == 0) && smppConnected == old(smppConnected) && sock == env.socketOk
      ensures session == if env.socketOk && env.connected then Open else Dead
    {
      log := log + [Connect(ConnectReported(env))];
      sock := env.socketOk;
      session := Dead;
      if !env.socketOk {
        return env.errno;
      }
      ret := if env.connected then 0 else -1;
      if ret == 0 {
        session := Open;
      } else {
        ret := env.errno;
      }
      ret := if env.fcntlOk then 0 else -1;
      if ret != 0 {
        return env.errno;
      }
      tcpConnected := true;
    }

    method TcpDisconn(env: Env)
      modifies this
      ensures View() == DoClose(old(View()), env)
      ensures tcpConnected == (old(tcpConnected) && !(old(sock) && env.closeOk)) && sock == (old(sock) && !env.closeOk)
      ensures smppConnected == old(smppConnected) && session == if old(sock) then Dead else old(session)
    {
      if sock {
        session, log := Dead, log + [Close];
        if env.closeOk {
          tcpConnected := false;
          sock := false;
        }
      }
    }

    method TcpSend(x: Exchange) returns (ret: int)
      modifies this`tcpConnected
      ensures tcpConnected == (old(tcpConnected) && x.full)
      ensures ret == if x.full then 0 else x.errno
    {
      ret := 0;
      if !x.full {
        ret := x.errno;
        tcpConnected := false;
      }
    }

    /** sms112_smpp_send and the checks of its response; `kind` says which request was packed. */
    method SmppRequest(ghost kind: Event, x: Exchange) returns (ret: int)
      modifies this
      ensures (View(), ret) == Request(old(View()), kind, x)
      ensures ret == 0 <==> Answered(x)
      ensures tcpConnected == (old(tcpConnected) && x.full) && smppConnected == old(smppConnected)
    {
      log, session := log + [kind], x.after;
      ret := TcpSend(x);
      if ret == 0 {
        ret := if x.accepted then 0 else x.failure;
      }
    }

    method SmppConnect(x: Exchange) returns (ret: int)
      modifies this
      ensures View() == DoBind(old(View()), x)
      ensures ret == 0 <==> Answered(x)
      ensures smppConnected == (old(smppConnected) || ret == 0) && tcpConnected == (old(tcpConnected) && x.full)
    {
      ret := SmppRequest(Bind, x);
      if ret == 0 {
        smppConnected := true;
      }
    }

    method SmppDisconn(x: Exchange) returns (ret: int)
      modifies this
      ensures View() == DoUnbind(old(View()), x)
      ensures !smppConnected && tcpConnected == (old(tcpConnected) && x.full)
    {
      smppConnected := false;
      ret := SmppRequest(Unbind, x);
    }

    method SmppEnqLink(x: Exchange) returns (ret: int)
      modifies this
      ensures (View(), ret) == Request(old(View()), EnquireLink, x)
    {
      ret := SmppRequest(EnquireLink, x);
    }

    /** The loop body, jump by jump: the gotos of the source are assignments to `at`. */
    method Pass(env: Env)
      modifies this
      ensures View() == Tick(old(View()), env, span)
    {
      var at := CheckTcp;
      while at != EndOfPass
        invariant From(at, View(), env, span) == Tick(old(View()), env, span)
        invariant at == CheckSmpp || at == CheckLink ==> tcpConnected
        invariant at == CheckLink ==> smppConnected
        decreases Rank(at)
      {
        match at {
          case CheckTcp =>
            at := if tcpConnected then CheckSmpp else TcpConnection;
          case CheckSmpp =>
            at := if smppConnected then CheckLink else SmppConnection;
          case CheckLink =>
            var code := SmppEnqLink(env.enquire);
            if code == 0 {
              at := AddSpan;
            } else {
              var ignored := SmppDisconn(env.unbind);
              TcpDisconn(env);
              at := TcpConnection;
            }
          case TcpConnection =>
            var code := TcpConnect(env);
            at := if code == 0 then SmppConnection else EndOfPass;
          case SmppConnection =>
            var ignored := SmppConnect(env.bind);
            at := AddSpan;
          case AddSpan =>
            deadline := deadline + span;
            at := EndOfPass;
        }
      }
    }

    /** The thread: passes until the stop flag is seen or the wait ends otherwise than by its deadline. */
    method DoSmppPing(script: seq<Wake>)
      modifies this
      ensures View() == Ticks(old(View()), Passes(script), span)
    {
      var i := 0;
      ghost var done: seq<Env> := [];
      while i < |script| && !script[i].stop
        invariant 0 <= i <= |script|
        invariant View() == Ticks(old(View()), done, span)
        invariant Passes(script) == done + Passes(script[i..])
      {
        if !script[i].timedOut {
          break;
        }
        Pass(script[i].env);
        done := done + [script[i].env];
        assert done[..|done| - 1] + [script[i].env] == done;
        assert script[i..][1..] == script[i + 1..];
        i := i + 1;
      }
      assert Passes(script) == done;
    }
  }

  // ---------------------------------------------------------------- what a pass does

  /** The events of a pass. */
  function Added(s: State, t: State): seq<Event>
    requires s.log <= t.log
  {
    t.log[|s.log|..]
  }

  /** The events of a pass, from what it finds and what comes of it. */
  function PassEvents(tcp: bool, smpp: bool, linkOk: bool, socket: bool, reported: bool): seq<Event> {
    var connect := if reported then [Connect(true), Bind] else [Connect(false)];
    if !tcp then connect
    else if !smpp then [Bind]
    else if linkOk then [EnquireLink]
    else if socket then [EnquireLink, Unbind, Close] + connect
    else [EnquireLink, Unbind] + connect
  }

  lemma TickLog(s: State, env: Env, span: nat) returns (linkOk: bool)
    ensures Tick(s, env, span).log == s.log + PassEvents(s.tcp, s.smpp, linkOk, s.socket, ConnectReported(env))
  {
    linkOk := Request(s, EnquireLink, env.enquire).1 == 0;
  }

  /**
   A bind is the last event of the pass if it occurs at all; and a connect is followed at once by that one bind if it was
   reported successful, or ends the pass if not.
   */
  predicate InOrder(d: seq<Event>) {
    && (forall i :: 0 <= i < |d| && d[i] == Bind ==> i == |d| - 1)
    && (forall i :: 0 <= i < |d| && d[i].Connect? ==> if d[i].ok then i == |d| - 2 && d[|d| - 1] == Bind else i == |d| - 1)
  }

  /** The events of a pass: never none, a link check exactly when both flags read true, and in order. */
  lemma TickEvents(s: State, env: Env, span: nat)
    ensures s.log <= Tick(s, env, span).log
    ensures var d := Added(s, Tick(s, env, span));
            && d != []
            && (EnquireLink in d <==> s.tcp && s.smpp)
            && InOrder(d)
  {
    var linkOk := TickLog(s, env, span);
    PassInOrder(s.tcp, s.smpp, linkOk, s.socket, ConnectReported(env));
    AddedIs(s, Tick(s, env, span), PassEvents(s.tcp, s.smpp, linkOk, s.socket, ConnectReported(env)));
  }

  lemma AddedIs(s: State, t: State, d: seq<Event>)
    requires t.log == s.log + d
    ensures s.log <= t.log && Added(s, t) == d
  {
  }

  lemma PassInOrder(tcp: bool, smpp: bool, linkOk: bool, socket: bool, reported: bool)
    ensures var d := PassEvents(tcp, smpp, linkOk, socket, reported);
            d != [] && InOrder(d) && (EnquireLink in d <==> tcp && smpp)
  {
  }

  /** A pass ends in a failed connect when it tried to connect and the attempt was reported as failed. */
  predicate EndsInFailedConnect(s: State, env: Env, span: nat) {
    var t := Tick(s, env, span);
    t.log != [] && t.log[|t.log| - 1] == Connect(false)
  }

  function FailedPasses(s: State, envs: seq<Env>, span: nat): nat {
    if envs == [] then 0
    else
      var before := envs[..|envs| - 1];
      FailedPasses(s, before, span) +
      if EndsInFailedConnect(Ticks(s, before, span), envs[|envs| - 1], span) then 1 else 0
  }

  /** A clock that at each of n moments either moves by one span or is counted as held. */
  lemma {:induction false} Drift(span: nat, clock: seq<int>, held: seq<int>, n: nat)
    requires n < |clock| == |held| && held[0] == 0
    requires forall k :: 0 <= k < n ==>
                           (clock[k + 1] == clock[k] + span && held[k + 1] == held[k]) ||
                           (clock[k + 1] == clock[k] && held[k + 1] == held[k] + 1)
    ensures held[n] <= n && clock[n] == clock[0] + span * (n - held[n])
  {
    if n > 0 {
      Drift(span, clock, held, n - 1);
      OneMore(span, n - 1 - held[n - 1]);
    }
  }

  lemma OneMore(span: int, n: int)
    ensures span * (n + 1) == span * n + span
  {
  }

  /** The deadlines and the failed passes after each number of passes. */
  lemma Clocks(s: State, envs: seq<Env>, span: nat) returns (clock: seq<int>, held: seq<int>)
    ensures |clock| == |held| == |envs| + 1
    ensures clock[0] == s.deadline && clock[|envs|] == Ticks(s, envs, span).deadline
    ensures held[0] == 0 && held[|envs|] == FailedPasses(s, envs, span)
    ensures forall k :: 0 <= k < |envs| ==>
                          (clock[k + 1] == clock[k] + span && held[k + 1] == held[k]) ||
                          (clock[k + 1] == clock[k] && held[k + 1] == held[k] + 1)
  {
    var n := |envs|;
    clock := seq(n + 1, k requires 0 <= k <= n => Ticks(s, envs[..k], span).deadline);
    held := seq(n + 1, k requires 0 <= k <= n => FailedPasses(s, envs[..k], span));
    forall k | 0 <= k < n
      ensures (clock[k + 1] == clock[k] + span && held[k + 1] == held[k]) ||
              (clock[k + 1] == clock[k] && held[k + 1] == held[k] + 1)
    {
      LastPass(s, envs[..k + 1], span);
      assert envs[..k + 1][..k] == envs[..k];
    }
    assert envs[..n] == envs;
  }

  /** The deadline moves by one span a pass, except over the passes that a failed connect cut short. */
  lemma DeadlineDrift(s: State, envs: seq<Env>, span: nat) returns (failed: nat)
    ensures failed == FailedPasses(s, envs, span) && failed <= |envs|
    ensures Ticks(s, envs, span).deadline == s.deadline + span * (|envs| - failed)
  {
    var clock, held := Clocks(s, envs, span);
    Drift(span, clock, held, |envs|);
    failed := held[|envs|];
  }

  /** The last pass either moves the deadline or counts as failed. */
  lemma LastPass(s: State, envs: seq<Env>, span: nat)
    requires envs != []
    ensures var before := envs[..|envs| - 1];
            var moved, failed := Ticks(s, envs, span).deadline - Ticks(s, before, span).deadline,
                                 FailedPasses(s, envs, span) - FailedPasses(s, before, span);
            (moved == span && failed == 0) || (moved == 0 && failed == 1)
  {
    TickDeadline(Ticks(s, envs[..|envs| - 1], span), envs[|envs| - 1], span);
  }

  lemma TickDeadline(s: State, env: Env, span: nat)
    ensures Tick(s, env, span).deadline == s.deadline + if EndsInFailedConnect(s, env, span) then 0 else span
  {
    var linkOk := TickLog(s, env, span);
    var d, t := PassEvents(s.tcp, s.smpp, linkOk, s.socket, ConnectReported(env)), Tick(s, env, span);
    assert t.log[|t.log| - 1] == d[|d| - 1];
  }

  // ---------------------------------------------------------------- the state a pass leaves

  /** A pass that reconnects: a connect is tried where the TCP flag is down or a link check has failed. */
  predicate Reconnects(s: State, env: Env) {
    !s.tcp || (s.smpp && !Answered(env.enquire))
  }

  /**
   The flags, the socket and the session after a pass, for every state and every world. A pass binds when it finds the SMPP
   flag down over a TCP flag that is up, or reconnects with a reported success; after that the TCP flag says whether the
   BIND was sent, and the SMPP flag whether it was accepted or had been up and never been lowered. A failed link check
   always lowers it; a TCP flag that is up then survives a failed connect only where neither a send nor a close lowered it.
   */
  lemma PassLeaves(s: State, env: Env, span: nat)
    ensures var t, connected := Tick(s, env, span), env.socketOk && env.fcntlOk;
            if Reconnects(s, env) then
              && t.socket == env.socketOk
              && (connected ==> t.tcp == env.bind.full && t.session == env.bind.after)
              && (connected ==> t.smpp == (Answered(env.bind) || (!s.tcp && s.smpp)))
              && (!connected ==> t.smpp == (!s.tcp && s.smpp))
              && (!connected ==> t.tcp == (s.tcp && env.enquire.full && env.unbind.full && !(s.socket && env.closeOk)))
              && (!connected ==> t.session == if env.socketOk && env.connected then Open else Dead)
            else if s.smpp then
              t.socket == s.socket && t.smpp && t.tcp == env.enquire.full && t.session == env.enquire.after
            else
              t.socket == s.socket && t.smpp == Answered(env.bind) && t.tcp == env.bind.full && t.session == env.bind.after
  {
    if !s.tcp {
      ReconnectLeaves(s, env, span);
    } else if s.smpp && !Answered(env.enquire) {
      var cut := DoClose(DoUnbind(Request(s, EnquireLink, env.enquire).0, env.unbind), env);
      assert !cut.smpp && cut.tcp == (env.enquire.full && env.unbind.full && !(s.socket && env.closeOk));
      ReconnectLeaves(cut, env, span);
    }
  }

  lemma ReconnectLeaves(s: State, env: Env, span: nat)
    ensures var t := Reconnect(s, env, span);
            && t.socket == env.socketOk
            && if env.socketOk && env.fcntlOk
               then t.tcp == env.bind.full && t.smpp == (s.smpp || Answered(env.bind)) && t.session == env.bind.after
               else t.tcp == s.tcp && t.smpp == s.smpp
                    && t.session == if env.socketOk && env.connected then Open else Dead
  {
  }

  /** The passes made: one for every timed-out wait, up to the first turn that is stopped or not timed out. */
  lemma {:induction false} PassesAre(script: seq<Wake>) returns (n: nat)
    ensures n <= |script| && |Passes(script)| == n
    ensures forall i :: 0 <= i < n ==> !script[i].stop && script[i].timedOut && Passes(script)[i] == script[i].env
    ensures n < |script| ==> script[n].stop || !script[n].timedOut
  {
    if script == [] || script[0].stop || !script[0].timedOut {
      n := 0;
    } else {
      n := PassesAre(script[1..]);
      n := n + 1;
      forall i | 0 <= i < n
        ensures !script[i].stop && script[i].timedOut && Passes(script)[i] == script[i].env
      {
        if i > 0 {
          assert script[i] == script[1..][i - 1] && Passes(script)[i] == Passes(script[1..])[i - 1];
        }
      }
    }
  }

  // ---------------------------------------------------------------- convergence

  /**
   The world in order: a request on a dead connection is not sent, on a live one it is, and the server answers in time.
   It binds an open session and refuses to bind a bound one, and confirms the link of a bound session; whether it also
   confirms the link of a session that is not bound is its own affair.
   */
  predicate Honest(confirmsOpen: bool, kind: Event, before: Session, x: Exchange) {
    && x.full == (before != Dead)
    && (before == Dead ==> x.errno != 0 && x.after == Dead)
    && (before != Dead ==>
          match kind
          case Bind => x.accepted == (before == Open) && x.after == Bound
          case EnquireLink => x.accepted == (before == Bound || confirmsOpen) && x.after == before
          case _ => x.after == Open)
  }

  predicate Behaves(confirmsOpen: bool, s: State, env: Env) {
    && env.socketOk && env.connected && env.fcntlOk && env.closeOk
    && Honest(confirmsOpen, EnquireLink, s.session, env.enquire)
    && Honest(confirmsOpen, Unbind, env.enquire.after, env.unbind)
    && Honest(confirmsOpen, Bind, if s.tcp && !s.smpp then s.session else Open, env.bind)
  }

  /** A run of passes in a world that behaves. */
  ghost predicate BehavedRun(confirmsOpen: bool, states: seq<State>, envs: seq<Env>, span: nat) {
    && |states| == |envs| + 1
    && forall i :: 0 <= i < |envs| ==>
                     states[i + 1] == Tick(states[i], envs[i], span) && Behaves(confirmsOpen, states[i], envs[i])
  }

  /** Both flags up over a session that really is bound. */
  predicate Up(s: State) {
    s.tcp && s.smpp && s.session == Bound
  }

  /** The states no pass leaves: bound behind a flag that says otherwise, or open behind two flags the server confirms. */
  predicate Stuck(confirmsOpen: bool, s: State) {
    s.tcp && ((!s.smpp && s.session == Bound) || (confirmsOpen && s.smpp && s.session == Open))
  }

  /** Being up and being stuck are both kept by every pass in a world that behaves. */
  lemma TickKeeps(confirmsOpen: bool, s: State, env: Env, span: nat)
    requires Behaves(confirmsOpen, s, env)
    ensures Up(s) ==> Up(Tick(s, env, span))
    ensures Stuck(confirmsOpen, s) ==> Stuck(confirmsOpen, Tick(s, env, span)) && Tick(s, env, span).session == s.session
    ensures !Stuck(confirmsOpen, s) ==> !Stuck(confirmsOpen, Tick(s, env, span))
  {
  }

  /** From a state that is neither up nor stuck one pass suffices, or takes the TCP flag down so that the next suffices. */
  lemma TickProgress(confirmsOpen: bool, s: State, env: Env, span: nat)
    requires Behaves(confirmsOpen, s, env) && !Stuck(confirmsOpen, s)
    ensures var t := Tick(s, env, span);
            if s.tcp && !s.smpp && s.session == Dead then !t.tcp else Up(t)
  {
  }

  /**
   Convergence from any combination of flags, socket and session: from the second pass on the connection is up if and only
   if the first state was not one of the stuck ones.
   */
  lemma {:induction false} Converges(confirmsOpen: bool, states: seq<State>, envs: seq<Env>, span: nat, n: nat)
    requires BehavedRun(confirmsOpen, states, envs, span) && 2 <= n < |states|
    ensures Up(states[n]) <==> !Stuck(confirmsOpen, states[0])
    ensures Stuck(confirmsOpen, states[n]) <==> Stuck(confirmsOpen, states[0])
  {
    if n == 2 {
      TickKeeps(confirmsOpen, states[0], envs[0], span);
      TickKeeps(confirmsOpen, states[1], envs[1], span);
      if !Stuck(confirmsOpen, states[0]) {
        TickProgress(confirmsOpen, states[0], envs[0], span);
        TickProgress(confirmsOpen, states[1], envs[1], span);
      }
    } else {
      Converges(confirmsOpen, states, envs, span, n - 1);
      TickKeeps(confirmsOpen, states[n - 1], envs[n - 1], span);
    }
  }

  /** Two passes can be needed, and exactly from here: the TCP flag alone up, over a dead connection. */
  lemma SecondPassNeeded(confirmsOpen: bool, s: State, env: Env, span: nat)
    requires Behaves(confirmsOpen, s, env) && !Stuck(confirmsOpen, s)
    ensures !Up(Tick(s, env, span)) <==> s.tcp && !s.smpp && s.session == Dead
  {
    TickProgress(confirmsOpen, s, env, span);
  }

  /** How the stuck state comes about: a bind the server accepted, whose response came too late to be seen. */
  lemma LateBindResponse(s: State, env: Env, span: nat)
    requires !s.tcp && !s.smpp
    requires ConnectReported(env) && env.connected && env.bind.full && env.bind.after == Bound
    ensures Stuck(false, Tick(s, env, span)) <==> !env.bind.accepted
    ensures Up(Tick(s, env, span)) <==> env.bind.accepted
  {
  }

  /**
   A refused connect is reported as a success when the socket could be made non-blocking. The bind that follows is what
   finds out: the pass ends with the TCP flag down, yet counts as a whole pass for the deadline.
   */
  lemma RefusedConnect(confirmsOpen: bool, s: State, env: Env, span: nat)
    requires !s.tcp && ConnectReported(env) && !env.connected
    requires Honest(confirmsOpen, Bind, Dead, env.bind)
    ensures var t := Tick(s, env, span); !t.tcp && t.smpp == s.smpp && t.session == Dead && t.deadline == s.deadline + span
  {
  }
}
