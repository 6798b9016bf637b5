/**
 The synchroniser between a call's requester and the SIP worker thread: a table of semaphore and result per Call-ID.
 Every table operation, lock and read is one atomic step; calls interleave freely.
 */
module SipSync {
  import opened Text

  /** SSync: whether the semaphore has been posted, and m_iResult. */
  datatype Entry = Entry(posted: bool, result: int)

  type Table = map<string, Entry>

  datatype Verb = Invite | Bye | OtherMethod

  datatype Response = Response(verb: Verb, status: int)

  datatype Sent = Ack | ByeRequest

  /** What pthread_mutex_timedlock returns besides zero. */
  type LockError = x: int | 0 < x < 300 witness 110

  // ---------------------------------------------------------------- the table operations as functions

  function Init(t: Table, id: string): Table {
    if id == "" || id in t then t else t[id := Entry(false, -1)]
  }

  function Unlock(t: Table, id: string, code: int): Table {
    if id == "" || id !in t then t else t[id := Entry(true, code)]
  }

  function Delete(t: Table, id: string): Table {
    if id == "" then t else t - {id}
  }

  predicate Success(status: int) {
    200 <= status < 300
  }

  /** The code a response hands to the waiting requester, if any. */
  function Code(r: Response): Option<int> {
    match r.verb
    case Invite =>
      if Success(r.status) then Some(0)
      else if r.status == 401 || r.status == 407 || r.status < 300 then None
      else Some(r.status)
    case Bye => Some(0)
    case OtherMethod => None
  }

  /** A call with this Call-ID has an entry. */
  predicate Waits(t: Table, id: string) {
    id != "" && id in t
  }

  /** Provisional responses, challenges, and responses to anything but INVITE and BYE. */
  predicate Ignored(r: Response) {
    match r.verb
    case Invite => r.status < 200 || r.status == 401 || r.status == 407
    case Bye => false
    case OtherMethod => true
  }

  function OnResponse(t: Table, id: string, r: Response): Table {
    match Code(r) case None => t case Some(code) => Unlock(t, id, code)
  }

  function Responded(t: Table, id: string, log: seq<Response>): Table {
    if log == [] then t else OnResponse(Responded(t, id, log[..|log| - 1]), id, log[|log| - 1])
  }

  function Answers(r: Response): seq<Sent> {
    if r.verb == Invite && Success(r.status) then [Ack, ByeRequest] else []
  }

  class SyncTable {
    var table: Table
    var sent: seq<(string, Sent)>

    constructor ()
      ensures table == map[] && sent == []
    {
      table, sent := map[], [];
    }

    method SyncInit(id: string)
      modifies this`table
      ensures table == Init(old(table), id)
      ensures table == if id == "" || id in old(table) then old(table) else old(table)[id := Entry(false, -1)]
    {
      if id == "" {
        return;
      }
      if id !in table {
        table := table[id := Entry(false, -1)];
      }
    }

    method SyncUlck(id: string, result: int)
      modifies this`table
      ensures table == Unlock(old(table), id, result)
      ensures table == if id == "" || id !in old(table) then old(table) else old(table)[id := Entry(true, result)]
    {
      if id == "" {
        return;
      }
      if id in table {
        table := table[id := table[id].(result := result)];
        table := table[id := table[id].(posted := true)];
      }
    }

    method SyncDel(id: string)
      modifies this`table
      ensures table == Delete(old(table), id)
      ensures table == if id == "" then old(table) else old(table) - {id}
    {
      if id == "" {
        return;
      }
      if id in table {
        table := table - {id};
      }
    }

    /** The first half of sync_lock: lookup, deadline and timed lock. `lock` is how the timed lock ends. */
    method SyncLockWait(id: string, deadlineOk: bool, lock: Option<LockError>) returns (ret: int, locked: bool)
      requires lock.None? && deadlineOk && id in table ==> table[id].posted
      modifies this`table
      ensures locked <==> id != "" && id in old(table) && deadlineOk && lock.None?
      ensures table == if locked then old(table)[id := old(table)[id].(posted := false)] else old(table)
      ensures !locked ==> ret == if id == "" || id !in old(table) || !deadlineOk then -1 else lock.value
    {
      if id == "" {
        return -1, false;
      }
      ret, locked := -1, false;
      if id in table {
        if deadlineOk {
          if lock.None? {
            table := table[id := table[id].(posted := false)];
            ret, locked := 0, true;
          } else {
            ret := lock.value;
          }
        } else {
          ret := -1;
        }
      }
    }

    /** The second half of sync_lock: the result as it is by now. */
    method SyncLockRead(id: string) returns (ret: int)
      requires id in table
      ensures ret == table[id].result
    {
      ret := table[id].result;
    }

    /** on_rx_response for a response that belongs to the dialog `id`. */
    method OnRxResponse(id: string, r: Response) returns (handled: bool)
      modifies this
      ensures table == OnResponse(old(table), id, r)
      ensures r.verb == Invite && 200 <= r.status < 300 ==>
                sent == old(sent) + [(id, Ack), (id, ByeRequest)] && (Waits(old(table), id) ==> table[id] == Entry(true, 0))
      ensures r.verb == Invite && r.status >= 300 && r.status != 401 && r.status != 407 ==>
                sent == old(sent) && (Waits(old(table), id) ==> table[id] == Entry(true, r.status))
      ensures r.verb == Bye ==> sent == old(sent) && (Waits(old(table), id) ==> table[id] == Entry(true, 0))
      ensures Ignored(r) ==> sent == old(sent) && table == old(table)
      ensures !Waits(old(table), id) ==> table == old(table)
      ensures Waits(old(table), id) ==> id in table && table - {id} == old(table) - {id}
      ensures handled <==> r.verb == Invite && 200 <= r.status < 300
      ensures |sent| == |old(sent)| + |Answers(r)| && old(sent) <= sent
      ensures forall k :: 0 <= k < |Answers(r)| ==> sent[|old(sent)| + k] == (id, Answers(r)[k])
    {
      handled := false;
      match r.verb {
        case Invite =>
          if r.status / 100 == 2 {
            sent := sent + [(id, Ack)];
            SyncUlck(id, 0);
            sent := sent + [(id, ByeRequest)];
            handled := true;
          } else if 401 == r.status || 407 == r.status {
          } else if 300 <= r.status {
            SyncUlck(id, r.status);
          }
        case Bye =>
          SyncUlck(id, 0);
        case OtherMethod =>
      }
    }

    /** The worker thread, over some responses of one dialog. */
    method Respond(id: string, log: seq<Response>)
      modifies this
      ensures table == Responded(old(table), id, log)
    {
      var i := 0;
      while i < |log|
        invariant 0 <= i <= |log| && table == Responded(old(table), id, log[..i])
      {
        assert log[..i + 1][..i] == log[..i];
        var handled := OnRxResponse(id, log[i]);
        i := i + 1;
      }
      assert log[..i] == log;
    }

    /** sync_lock, with the responses processed between the end of the wait and the read. */
    method SyncLock(id: string, deadlineOk: bool, lock: Option<LockError>, late: seq<Response>) returns (ret: int)
      requires lock.None? && deadlineOk && id in table ==> table[id].posted
      modifies this
      ensures id == "" || id !in old(table) ==> table == old(table) && ret == -1
      ensures id != "" && id in old(table) ==>
                table.Keys == old(table).Keys && table - {id} == old(table) - {id} &&
                ret == if !deadlineOk then -1 else if lock.Some? then lock.value
                       else if Effective(late) then Outcome(late) else old(table)[id].result
    {
      var locked;
      ret, locked := SyncLockWait(id, deadlineOk, lock);
      RespondedIs(table, id, late);
      Respond(id, late);
      if locked {
        ret := SyncLockRead(id);
      }
    }

    /**
     sms112_sip_send_req from sync_init on, with the responses processed before the wait ends and between the wait and the
     read: the result is what all of them amount to, and the table is as it was.
     */
    method SipSendReq(id: string, early: seq<Response>, deadlineOk: bool, lock: Option<LockError>, late: seq<Response>)
      returns (ret: int)
      requires id !in table
      requires lock.None? && deadlineOk && id != "" ==> Decided(early)
      modifies this
      ensures table == old(table)
      ensures ret == if id == "" || !deadlineOk then -1 else if lock.Some? then lock.value else Outcome(early + late)
    {
      SyncInit(id);
      RespondedIs(table, id, early);
      EffectiveIsDecided(early);
      Respond(id, early);
      OutcomeAppend(early, late);
      ret := SyncLock(id, deadlineOk, lock, late);
      SyncDel(id);
    }
  }

  // ---------------------------------------------------------------- calls as a step system

  /** Where a call stands between sync_init and the return of sms112_sip_send_req. */
  datatype Phase =
    | Started
    | Invited
    | Locked
    | Result(ret: int, readAt: Option<nat>)
    | Ended(ret: int, readAt: Option<nat>)

  /** A call with its history: the responses processed for it and the requests sent in answer. */
  datatype Call = Call(phase: Phase, log: seq<Response>, sent: seq<Sent>)

  datatype World = World(table: Table, calls: map<string, Call>)

  datatype Action =
    | Start(id: string)
    | SendInvite(id: string)
    | Receive(id: string, r: Response)
    | LockWait(id: string, deadlineOk: bool, lock: Option<LockError>)
    | LockRead(id: string)
    | Finish(id: string)

  /** Call-IDs are distinct; responses come for calls whose INVITE was sent; a lock is had only when posted. */
  ghost predicate Enabled(w: World, a: Action) {
    match a
    case Start(id) => id !in w.calls
    case SendInvite(id) => id in w.calls && w.calls[id].phase == Started
    case Receive(id, r) => id in w.calls && w.calls[id].phase != Started
    case LockWait(id, deadlineOk, lock) =>
      && id in w.calls && w.calls[id].phase == Invited
      && (lock.None? && deadlineOk && id in w.table ==> w.table[id].posted)
    case LockRead(id) => id in w.calls && w.calls[id].phase == Locked && id in w.table
    case Finish(id) => id in w.calls && w.calls[id].phase.Result?
  }

  function WithPhase(w: World, id: string, p: Phase): World
    requires id in w.calls
  {
    w.(calls := w.calls[id := w.calls[id].(phase := p)])
  }

  ghost function Step(w: World, a: Action): World
    requires Enabled(w, a)
  {
    match a
    case Start(id) => World(Init(w.table, id), w.calls[id := Call(Started, [], [])])
    case SendInvite(id) => WithPhase(w, id, Invited)
    case Receive(id, r) =>
      var c := w.calls[id];
      World(OnResponse(w.table, id, r), w.calls[id := c.(log := c.log + [r], sent := c.sent + Answers(r))])
    case LockWait(id, deadlineOk, lock) =>
      if id == "" || id !in w.table || !deadlineOk then WithPhase(w, id, Result(-1, None))
      else if lock.Some? then WithPhase(w, id, Result(lock.value, None))
      else WithPhase(w.(table := w.table[id := w.table[id].(posted := false)]), id, Locked)
    case LockRead(id) => WithPhase(w, id, Result(w.table[id].result, Some(|w.calls[id].log|)))
    case Finish(id) =>
      var p := w.calls[id].phase;
      WithPhase(w.(table := Delete(w.table, id)), id, Ended(p.ret, p.readAt))
  }

  ghost predicate Run(ws: seq<World>, acts: seq<Action>) {
    && |ws| == |acts| + 1
    && ws[0] == World(map[], map[])
    && forall i :: 0 <= i < |acts| ==> Enabled(ws[i], acts[i]) && ws[i + 1] == Step(ws[i], acts[i])
  }

  // ---------------------------------------------------------------- what a log amounts to

  /** The code of the last response that had one; the initial result before any. */
  function Outcome(log: seq<Response>): int {
    if log == [] then -1
    else match Code(log[|log| - 1]) case None => Outcome(log[..|log| - 1]) case Some(code) => code
  }

  predicate Effective(log: seq<Response>) {
    exists i :: 0 <= i < |log| && Code(log[i]).Some?
  }

  /** An effective log amounts to the code of one of its responses, after which none had a code. */
  lemma {:induction false} OutcomeWitness(log: seq<Response>) returns (k: nat)
    requires Effective(log)
    ensures k < |log| && Code(log[k]) == Some(Outcome(log)) && Outcome(log) != -1
    ensures forall i :: k < i < |log| ==> Code(log[i]).None?
  {
    var last := |log| - 1;
    if Code(log[last]).Some? {
      k := last;
    } else {
      var i :| 0 <= i < |log| && Code(log[i]).Some?;
      assert log[..last][i] == log[i];
      k := OutcomeWitness(log[..last]);
    }
  }

  /** Responses reach the entry of their call alone, and leave there what they amount to. */
  lemma {:induction false} RespondedIs(t: Table, id: string, log: seq<Response>)
    ensures id == "" || id !in t ==> Responded(t, id, log) == t
    ensures id != "" && id in t ==>
              Responded(t, id, log) ==
              if Effective(log) then t[id := Entry(true, Outcome(log))] else t
  {
    if log != [] {
      var before := log[..|log| - 1];
      RespondedIs(t, id, before);
      EffectiveGrows(before, log[|log| - 1]);
      assert log == before + [log[|log| - 1]];
    }
  }

  lemma {:induction false} OutcomeAppend(early: seq<Response>, late: seq<Response>)
    ensures Outcome(early + late) == if Effective(late) then Outcome(late) else Outcome(early)
  {
    if late == [] {
      assert early + late == early;
    } else {
      var before, last := late[..|late| - 1], late[|late| - 1];
      OutcomeAppend(early, before);
      EffectiveGrows(before, last);
      assert late == before + [last];
      assert (early + late)[..|early + late| - 1] == early + before;
    }
  }

  function Replies(log: seq<Response>): seq<Sent> {
    if log == [] then [] else Replies(log[..|log| - 1]) + Answers(log[|log| - 1])
  }

  predicate Answered2xx(log: seq<Response>) {
    exists i :: 0 <= i < |log| && log[i].verb == Invite && Success(log[i].status)
  }

  // ---------------------------------------------------------------- invariant

  predicate Active(p: Phase) {
    !p.Ended?
  }

  function ReadAt(p: Phase): Option<nat> {
    if p.Result? || p.Ended? then p.readAt else None
  }

  function Ret(p: Phase): int {
    if p.Result? || p.Ended? then p.ret else 0
  }

  ghost predicate CallOk(w: World, id: string)
    requires id in w.calls
  {
    var c := w.calls[id];
    && (id in w.table <==> Active(c.phase) && id != "")
    && (id in w.table ==> w.table[id].result == Outcome(c.log) && (w.table[id].posted ==> Effective(c.log)))
    && (id in w.table && c.phase == Invited ==> (Effective(c.log) ==> w.table[id].posted))
    && (c.phase == Started ==> c.log == [])
    && (c.phase == Locked ==> Effective(c.log) && id != "")
    && (ReadAt(c.phase).Some? ==>
          && ReadAt(c.phase).value <= |c.log| && Effective(c.log[..ReadAt(c.phase).value])
          && Ret(c.phase) == Outcome(c.log[..ReadAt(c.phase).value]))
    && ((c.phase.Result? || c.phase.Ended?) && ReadAt(c.phase).None? ==> Ret(c.phase) == -1 || 0 < Ret(c.phase) < 300)
    && c.sent == Replies(c.log)
  }

  ghost predicate Inv(w: World) {
    && (forall id :: id in w.calls ==> CallOk(w, id))
    && forall id :: id in w.table ==> id in w.calls
  }

  lemma EffectiveGrows(log: seq<Response>, r: Response)
    ensures Effective(log + [r]) <==> Effective(log) || Code(r).Some?
  {
    var more := log + [r];
    assert more[|log|] == r;
    if i :| 0 <= i < |log| && Code(log[i]).Some? {
      assert more[i] == log[i];
    }
  }

  lemma AnsweredGrows(log: seq<Response>, r: Response)
    ensures Answered2xx(log + [r]) <==> Answered2xx(log) || (r.verb == Invite && Success(r.status))
  {
    var more := log + [r];
    assert more[|log|] == r;
    if i :| 0 <= i < |log| && log[i].verb == Invite && Success(log[i].status) {
      assert more[i] == log[i];
    }
  }

  lemma LogGrows(log: seq<Response>, r: Response)
    ensures Outcome(log + [r]) == (match Code(r) case None => Outcome(log) case Some(code) => code)
    ensures Replies(log + [r]) == Replies(log) + Answers(r)
    ensures Effective(log + [r]) <==> Effective(log) || Code(r).Some?
    ensures Answered2xx(log + [r]) <==> Answered2xx(log) || (r.verb == Invite && Success(r.status))
    ensures forall n :: 0 <= n <= |log| ==> (log + [r])[..n] == log[..n]
  {
    EffectiveGrows(log, r);
    AnsweredGrows(log, r);
    assert (log + [r])[..|log|] == log;
  }

  /** A step touches one call: the entries, the phases and the histories of the others stay as they are. */
  lemma Isolation(w: World, a: Action, other: string)
    requires Enabled(w, a) && other != a.id
    ensures other in Step(w, a).table <==> other in w.table
    ensures other in w.table ==> Step(w, a).table[other] == w.table[other]
    ensures other in Step(w, a).calls <==> other in w.calls
    ensures other in w.calls ==> Step(w, a).calls[other] == w.calls[other]
  {
  }

  lemma StepOk(w: World, a: Action)
    requires Inv(w) && Enabled(w, a)
    ensures a.id in Step(w, a).calls && CallOk(Step(w, a), a.id)
  {
    if a.Receive? {
      LogGrows(w.calls[a.id].log, a.r);
    } else if a.LockRead? {
      var log := w.calls[a.id].log;
      assert log[..|log|] == log;
    }
  }

  lemma StepKeepsInv(w: World, a: Action)
    requires Inv(w) && Enabled(w, a)
    ensures Inv(Step(w, a))
  {
    var w' := Step(w, a);
    StepOk(w, a);
    forall id | id in w'.calls
      ensures CallOk(w', id)
    {
      if id != a.id {
        Isolation(w, a, id);
        assert CallOk(w, id);
      }
    }
    forall id | id in w'.table
      ensures id in w'.calls
    {
      if id != a.id {
        Isolation(w, a, id);
      }
    }
  }

  lemma {:induction false} RunInv(ws: seq<World>, acts: seq<Action>, n: nat)
    requires Run(ws, acts) && n < |ws|
    ensures Inv(ws[n])
  {
    if n > 0 {
      RunInv(ws, acts, n - 1);
      StepKeepsInv(ws[n - 1], acts[n - 1]);
    }
  }

  // ---------------------------------------------------------------- results

  /** In every reachable state the keys are exactly the calls between sync_init and sync_del. */
  lemma TableExact(ws: seq<World>, acts: seq<Action>, n: nat, id: string)
    requires Run(ws, acts) && n < |ws|
    ensures id in ws[n].table <==> id in ws[n].calls && Active(ws[n].calls[id].phase) && id != ""
  {
    RunInv(ws, acts, n);
    if id in ws[n].calls {
      assert CallOk(ws[n], id);
    }
  }

  /**
   A response between the sending of the INVITE and sync_del finds its entry: what it says is what the entry says next. A
   response after sync_del changes no entry at all.
   */
  lemma ResponseReachesEntry(ws: seq<World>, acts: seq<Action>, n: nat)
    requires Run(ws, acts) && n < |acts| && acts[n].Receive? && acts[n].id != "" && Code(acts[n].r).Some?
    ensures var id := acts[n].id;
            if Active(ws[n].calls[id].phase)
            then id in ws[n + 1].table && ws[n + 1].table[id] == Entry(true, Code(acts[n].r).value)
            else ws[n + 1].table == ws[n].table
  {
    TableExact(ws, acts, n, acts[n].id);
  }

  /**
   What sms112_sip_send_req returns, for every interleaving: after a successful lock the code of the last response with a
   code processed before the read, which is never the initial one; otherwise -1 or the error of the timed lock.
   */
  lemma Returned(ws: seq<World>, acts: seq<Action>, n: nat, id: string) returns (k: Option<nat>)
    requires Run(ws, acts) && n < |ws| && id in ws[n].calls && ws[n].calls[id].phase.Ended?
    ensures k.None? ==> ws[n].calls[id].phase.ret == -1 || 0 < ws[n].calls[id].phase.ret < 300
    ensures k.Some? ==> k.value < |ws[n].calls[id].log| && Code(ws[n].calls[id].log[k.value]) == Some(ws[n].calls[id].phase.ret)
    ensures k.Some? ==> ws[n].calls[id].phase.ret != -1
    ensures k.Some? <==> ws[n].calls[id].phase.readAt.Some?
    ensures k.Some? ==> k.value < ws[n].calls[id].phase.readAt.value <= |ws[n].calls[id].log|
    ensures k.Some? ==> forall i :: k.value < i < ws[n].calls[id].phase.readAt.value ==> Code(ws[n].calls[id].log[i]).None?
  {
    RunInv(ws, acts, n);
    var c := ws[n].calls[id];
    assert CallOk(ws[n], id);
    if c.phase.readAt.Some? {
      var j := OutcomeWitness(c.log[..c.phase.readAt.value]);
      k := Some(j);
    } else {
      k := None;
    }
  }

  /** How a call's wait ended, among the first `n` steps. */
  ghost predicate WaitedBefore(acts: seq<Action>, n: nat, id: string, deadlineOk: bool, lock: Option<LockError>)
    requires n <= |acts|
  {
    exists j :: 0 <= j < n && acts[j] == LockWait(id, deadlineOk, lock)
  }

  /** What a call returns when it never read its result. */
  ghost predicate Unread(acts: seq<Action>, n: nat, id: string, ret: int)
    requires n <= |acts|
  {
    exists d, l :: WaitedBefore(acts, n, id, d, l) && (if id == "" || !d then ret == -1 else l.Some? && ret == l.value)
  }

  ghost predicate EndedBy(acts: seq<Action>, n: nat, id: string, p: Phase)
    requires n <= |acts|
  {
    match p
    case Result(ret, readAt) => if readAt.Some? then WaitedBefore(acts, n, id, true, None) else Unread(acts, n, id, ret)
    case Ended(ret, readAt) => if readAt.Some? then WaitedBefore(acts, n, id, true, None) else Unread(acts, n, id, ret)
    case Locked => id != "" && WaitedBefore(acts, n, id, true, None)
    case _ => true
  }

  lemma EndedByLater(acts: seq<Action>, n: nat, id: string, p: Phase)
    requires n < |acts| && EndedBy(acts, n, id, p)
    ensures EndedBy(acts, n + 1, id, p)
  {
    forall d, l | WaitedBefore(acts, n, id, d, l)
      ensures WaitedBefore(acts, n + 1, id, d, l)
    {
    }
  }

  lemma WaitEndedBy(acts: seq<Action>, n: nat, w: World, id: string)
    requires n < |acts| && acts[n].LockWait? && acts[n].id == id && Enabled(w, acts[n]) && Inv(w)
    ensures EndedBy(acts, n + 1, id, Step(w, acts[n]).calls[id].phase)
  {
    assert CallOk(w, id);
    assert WaitedBefore(acts, n + 1, id, acts[n].deadlineOk, acts[n].lock);
  }

  lemma StepEndedBy(acts: seq<Action>, n: nat, w: World, id: string)
    requires n < |acts| && Enabled(w, acts[n]) && Inv(w) && id in Step(w, acts[n]).calls
    requires id in w.calls ==> EndedBy(acts, n, id, w.calls[id].phase)
    ensures EndedBy(acts, n + 1, id, Step(w, acts[n]).calls[id].phase)
  {
    var a := acts[n];
    if a.id != id {
      Isolation(w, a, id);
    }
    if id in w.calls {
      EndedByLater(acts, n, id, w.calls[id].phase);
      if a.id == id && a.LockWait? {
        WaitEndedBy(acts, n, w, id);
      }
    }
  }

  /**
   What a call returns when it got no lock, for every run: the error its own timed lock ended with, or -1 when it had no
   deadline or no Call-ID; and a call that read its result had got its lock.
   */
  lemma {:induction false} RunEndedBy(ws: seq<World>, acts: seq<Action>, n: nat, id: string)
    requires Run(ws, acts) && n < |ws| && id in ws[n].calls
    ensures EndedBy(acts, n, id, ws[n].calls[id].phase)
  {
    if n > 0 {
      RunInv(ws, acts, n - 1);
      if id in ws[n - 1].calls {
        RunEndedBy(ws, acts, n - 1, id);
      }
      NextEndedBy(ws, acts, n - 1, id);
    }
  }

  lemma NextEndedBy(ws: seq<World>, acts: seq<Action>, n: nat, id: string)
    requires Run(ws, acts) && n < |acts| && Inv(ws[n]) && id in ws[n + 1].calls
    requires id in ws[n].calls ==> EndedBy(acts, n, id, ws[n].calls[id].phase)
    ensures EndedBy(acts, n + 1, id, ws[n + 1].calls[id].phase)
  {
    StepEndedBy(acts, n, ws[n], id);
  }

  /** BYE responses arrive only for BYE requests that were sent (section 17.1.3 of RFC 3261). */
  ghost predicate ByesSolicited(ws: seq<World>, acts: seq<Action>) {
    forall i :: 0 <= i < |acts| && i < |ws| && acts[i].Receive? && acts[i].r.verb == Bye && acts[i].id in ws[i].calls ==>
                  ByeRequest in ws[i].calls[acts[i].id].sent
  }

  lemma {:induction false} ByeMeansSuccess(log: seq<Response>)
    requires ByeRequest in Replies(log)
    ensures Answered2xx(log)
  {
    var last := |log| - 1;
    if ByeRequest in Answers(log[last]) {
      assert log[last].verb == Invite && Success(log[last].status);
    } else {
      ByeMeansSuccess(log[..last]);
      LogGrows(log[..last], log[last]);
      assert log == log[..last] + [log[last]];
    }
  }

  /** Before every BYE response in a log there is a success response to the INVITE. */
  ghost predicate ByesFollow(log: seq<Response>) {
    forall k :: 0 <= k < |log| && log[k].verb == Bye ==> Answered2xx(log[..k])
  }

  lemma ByesFollowMore(log: seq<Response>, r: Response)
    requires ByesFollow(log) && (r.verb == Bye ==> Answered2xx(log))
    ensures ByesFollow(log + [r])
  {
    var more := log + [r];
    forall k | 0 <= k < |more| && more[k].verb == Bye
      ensures Answered2xx(more[..k])
    {
      assert more[..k] == log[..k];
      assert log[..|log|] == log;
    }
  }

  lemma {:induction false} ByesFollowSuccess(ws: seq<World>, acts: seq<Action>, n: nat, id: string)
    requires Run(ws, acts) && ByesSolicited(ws, acts) && n < |ws| && id in ws[n].calls
    ensures ByesFollow(ws[n].calls[id].log)
  {
    if n > 0 && id in ws[n - 1].calls {
      ByesFollowSuccess(ws, acts, n - 1, id);
      var c, a := ws[n - 1].calls[id], acts[n - 1];
      if a.Receive? && a.id == id {
        RunInv(ws, acts, n - 1);
        assert CallOk(ws[n - 1], id);
        LogGrows(c.log, a.r);
        assert ws[n].calls[id].log == c.log + [a.r];
        if a.r.verb == Bye {
          ByeMeansSuccess(c.log);
        }
        ByesFollowMore(c.log, a.r);
      } else if a.id != id {
        Isolation(ws[n - 1], a, id);
      }
    }
  }

  lemma PrefixAnswered(log: seq<Response>, n: nat)
    requires n <= |log| && Answered2xx(log[..n])
    ensures Answered2xx(log)
  {
    var i :| 0 <= i < n && log[..n][i].verb == Invite && Success(log[..n][i].status);
    assert log[i] == log[..n][i];
  }

  /** The responses of a call that were processed before its result was read. */
  ghost function ReadLog(c: Call): seq<Response>
    requires c.phase.Ended? && c.phase.readAt.Some? && c.phase.readAt.value <= |c.log|
  {
    c.log[..c.phase.readAt.value]
  }

  /** The last response with a code is one to a BYE. */
  predicate ByeLast(log: seq<Response>) {
    exists k :: 0 <= k < |log| && log[k].verb == Bye && forall i :: k < i < |log| ==> Code(log[i]).None?
  }

  /** Nobody answered, and a BYE response has the last word. */
  predicate UnansweredBye(log: seq<Response>) {
    !Answered2xx(log) && ByeLast(log)
  }

  /** Zero is what a log amounts to when its last response with a code is a BYE's, or a success that answered the call. */
  lemma OutcomeZero(log: seq<Response>)
    ensures Outcome(log) == 0 ==> ByeLast(log) || Answered2xx(log)
    ensures ByeLast(log) ==> Outcome(log) == 0
  {
    if Effective(log) {
      var k := OutcomeWitness(log);
      if log[k].verb == Bye {
        assert ByeLast(log);
      }
    } else {
      NoOutcome(log);
    }
  }

  lemma {:induction false} NoOutcome(log: seq<Response>)
    requires !Effective(log)
    ensures Outcome(log) == -1
  {
    if log != [] {
      assert Code(log[|log| - 1]).None?;
      NoOutcome(log[..|log| - 1]);
    }
  }

  /** The result a waiting requester gets from a response that is not ignored. */
  function Meaning(r: Response): int {
    if r.verb == Bye || r.status < 300 then 0 else r.status
  }

  /** From the responses to the outcome: the last response that is not ignored decides, and nothing else does. */
  lemma {:induction false} LastDecides(log: seq<Response>, k: nat)
    requires k < |log| && !Ignored(log[k]) && forall i :: k < i < |log| ==> Ignored(log[i])
    ensures Effective(log) && Outcome(log) == Meaning(log[k])
  {
    if k < |log| - 1 {
      assert Ignored(log[|log| - 1]);
      LastDecides(log[..|log| - 1], k);
    }
    assert Code(log[k]).Some?;
  }

  lemma AllIgnored(log: seq<Response>)
    requires forall i :: 0 <= i < |log| ==> Ignored(log[i])
    ensures !Effective(log) && Outcome(log) == -1
  {
    NoOutcome(log);
  }

  /**
   What a call returns, by verb and status alone: when the last response before the read that is not ignored was a success
   to the INVITE or any to a BYE it returns 0, and when it was another final one to the INVITE, that one's status.
   */
  lemma ResponseDecides(ws: seq<World>, acts: seq<Action>, n: nat, id: string, k: nat)
    requires Run(ws, acts) && n < |ws| && id in ws[n].calls
    requires ws[n].calls[id].phase.Ended? && ws[n].calls[id].phase.readAt.Some?
    requires k < ws[n].calls[id].phase.readAt.value <= |ws[n].calls[id].log| && !Ignored(ws[n].calls[id].log[k])
    requires forall i :: k < i < ws[n].calls[id].phase.readAt.value ==> Ignored(ws[n].calls[id].log[i])
    ensures var c := ws[n].calls[id];
            && (c.log[k].verb == Bye || c.log[k].status < 300 ==> c.phase.ret == 0)
            && (c.log[k].verb == Invite && c.log[k].status >= 300 ==> c.phase.ret == c.log[k].status)
  {
    RunInv(ws, acts, n);
    assert CallOk(ws[n], id);
    LastDecides(ReadLog(ws[n].calls[id]), k);
  }

  /** There is such a response in every call whose result was read. */
  lemma SomethingDecided(ws: seq<World>, acts: seq<Action>, n: nat, id: string) returns (k: nat)
    requires Run(ws, acts) && n < |ws| && id in ws[n].calls
    requires ws[n].calls[id].phase.Ended? && ws[n].calls[id].phase.readAt.Some?
    ensures k < ws[n].calls[id].phase.readAt.value <= |ws[n].calls[id].log| && !Ignored(ws[n].calls[id].log[k])
    ensures forall i :: k < i < ws[n].calls[id].phase.readAt.value ==> Ignored(ws[n].calls[id].log[i])
  {
    RunInv(ws, acts, n);
    assert CallOk(ws[n], id);
    var log := ReadLog(ws[n].calls[id]);
    k := OutcomeWitness(log);
    forall i | k < i < |log|
      ensures Ignored(ws[n].calls[id].log[i])
    {
      assert log[i] == ws[n].calls[id].log[i] && Code(log[i]).None?;
    }
  }

  /** A response is there that is not ignored. */
  predicate Decided(log: seq<Response>) {
    exists k :: 0 <= k < |log| && !Ignored(log[k])
  }

  lemma EffectiveIsDecided(log: seq<Response>)
    ensures Effective(log) <==> Decided(log)
  {
    forall k | 0 <= k < |log|
      ensures Code(log[k]).Some? <==> !Ignored(log[k])
    {
    }
  }

  /** A call that has not yet waited can get its lock exactly when a response that is not ignored was processed for it. */
  lemma LockWhenDecided(ws: seq<World>, acts: seq<Action>, n: nat, id: string)
    requires Run(ws, acts) && n < |ws| && id in ws[n].calls && id != "" && ws[n].calls[id].phase == Invited
    ensures Enabled(ws[n], LockWait(id, true, None)) <==> Decided(ws[n].calls[id].log)
  {
    RunInv(ws, acts, n);
    assert CallOk(ws[n], id);
    EffectiveIsDecided(ws[n].calls[id].log);
  }

  /**
   The outcome, exactly and with no hypothesis on who sends what: of the calls whose result was read, precisely those fail
   to mean by zero that the INVITE was answered before the read, of which a BYE response had the last word unanswered.
   */
  lemma OutcomeExact(ws: seq<World>, acts: seq<Action>, n: nat, id: string)
    requires Run(ws, acts) && n < |ws| && id in ws[n].calls
    requires ws[n].calls[id].phase.Ended? && ws[n].calls[id].phase.readAt.Some?
    ensures ws[n].calls[id].phase.readAt.value <= |ws[n].calls[id].log|
    ensures var c := ws[n].calls[id]; (c.phase.ret == 0 ==> Answered2xx(ReadLog(c))) <==> !UnansweredBye(ReadLog(c))
  {
    RunInv(ws, acts, n);
    assert CallOk(ws[n], id);
    OutcomeZero(ReadLog(ws[n].calls[id]));
  }

  /** A call whose entry is posted can go through to its end by itself, and returns what the entry says. */
  lemma PostedEnds(w: World, id: string) returns (w1: World, w2: World, w3: World)
    requires id != "" && id in w.calls && w.calls[id].phase == Invited && id in w.table && w.table[id].posted
    ensures Enabled(w, LockWait(id, true, None)) && w1 == Step(w, LockWait(id, true, None))
    ensures Enabled(w1, LockRead(id)) && w2 == Step(w1, LockRead(id))
    ensures Enabled(w2, Finish(id)) && w3 == Step(w2, Finish(id))
    ensures id in w3.calls && w3.calls[id].log == w.calls[id].log
    ensures w3.calls[id].phase == Ended(w.table[id].result, Some(|w.calls[id].log|))
  {
    w1 := Step(w, LockWait(id, true, None));
    assert w1.table[id].result == w.table[id].result && w1.calls[id] == w.calls[id].(phase := Locked);
    w2 := Step(w1, LockRead(id));
    w3 := Step(w2, Finish(id));
  }

  /** A BYE response posts zero, whatever was there. */
  lemma ByePosts(w: World, id: string, status: int) returns (w': World)
    requires Inv(w) && id != "" && id in w.calls && w.calls[id].phase == Invited
    ensures Enabled(w, Receive(id, Response(Bye, status))) && w' == Step(w, Receive(id, Response(Bye, status)))
    ensures id in w'.calls && w'.calls[id].phase == Invited && w'.calls[id].log == w.calls[id].log + [Response(Bye, status)]
    ensures id in w'.table && w'.table[id] == Entry(true, 0)
  {
    assert CallOk(w, id);
    w' := Step(w, Receive(id, Response(Bye, status)));
  }

  lemma ByeIsLast(log: seq<Response>, status: int)
    requires !Answered2xx(log)
    ensures UnansweredBye(log + [Response(Bye, status)])
  {
    AnsweredGrows(log, Response(Bye, status));
    assert (log + [Response(Bye, status)])[|log|].verb == Bye;
  }

  /**
   And every call that waits unanswered can be misled: from any state of any run, one BYE response and the rest of the
   call's own steps make it return zero.
   */
  lemma ByeMisleads(w: World, id: string, status: int) returns (ws: seq<World>, acts: seq<Action>)
    requires Inv(w) && id != "" && id in w.calls && w.calls[id].phase == Invited && !Answered2xx(w.calls[id].log)
    ensures |ws| == 5 && acts == [Receive(id, Response(Bye, status)), LockWait(id, true, None), LockRead(id), Finish(id)]
    ensures ws[0] == w && forall i :: 0 <= i < 4 ==> Enabled(ws[i], acts[i]) && ws[i + 1] == Step(ws[i], acts[i])
    ensures var log := w.calls[id].log + [Response(Bye, status)];
            && id in ws[4].calls && ws[4].calls[id].log == log && UnansweredBye(log)
            && ws[4].calls[id].phase == Ended(0, Some(|log|))
  {
    acts := [Receive(id, Response(Bye, status)), LockWait(id, true, None), LockRead(id), Finish(id)];
    var w1 := ByePosts(w, id, status);
    var w2, w3, w4 := PostedEnds(w1, id);
    ws := [w, w1, w2, w3, w4];
    ByeIsLast(w.calls[id].log, status);
  }

  /**
   The outcome over whole runs: zero is returned only if a success response to this call's INVITE was processed before the
   result was read, and a value of 300 or more only if an INVITE response processed before the read carried that very
   status, neither 401 nor 407.
   */
  lemma OutcomeSound(ws: seq<World>, acts: seq<Action>, n: nat, id: string)
    requires Run(ws, acts) && ByesSolicited(ws, acts)
    requires n < |ws| && id in ws[n].calls && ws[n].calls[id].phase.Ended?
    ensures var c := ws[n].calls[id];
            && (c.phase.ret == 0 || c.phase.ret >= 300 ==> c.phase.readAt.Some? && c.phase.readAt.value <= |c.log|)
            && (c.phase.ret == 0 ==> Answered2xx(ReadLog(c)))
            && (c.phase.ret >= 300 ==>
                  Response(Invite, c.phase.ret) in ReadLog(c) && c.phase.ret != 401 && c.phase.ret != 407)
            && c.phase.ret >= -1
  {
    var k := Returned(ws, acts, n, id);
    var c := ws[n].calls[id];
    if k.Some? {
      var log := ReadLog(c);
      assert log[k.value] == c.log[k.value];
      if c.log[k.value].verb == Bye {
        ByesFollowSuccess(ws, acts, n, id);
        assert c.log[..k.value] == log[..k.value];
        PrefixAnswered(log, k.value);
      }
    }
  }

  /** The hypothesis fails in such a run: an INVITE is sent, one BYE response arrives, and the call returns zero. */
  lemma UnsolicitedBye(id: string, status: int) returns (ws: seq<World>, acts: seq<Action>)
    requires id != ""
    ensures Run(ws, acts) && !ByesSolicited(ws, acts)
    ensures var w := ws[|ws| - 1];
            id in w.calls && w.calls[id].phase == Ended(0, Some(1)) && UnansweredBye(w.calls[id].log)
  {
    var w0 := World(map[], map[]);
    var w1 := Step(w0, Start(id));
    var w2 := Step(w1, SendInvite(id));
    StepKeepsInv(w0, Start(id));
    StepKeepsInv(w1, SendInvite(id));
    var more, rest := ByeMisleads(w2, id, status);
    acts := [Start(id), SendInvite(id)] + rest;
    ws := [w0, w1] + more;
    forall i | 0 <= i < |acts|
      ensures Enabled(ws[i], acts[i]) && ws[i + 1] == Step(ws[i], acts[i])
    {
      if i >= 2 {
        assert ws[i] == more[i - 2] && ws[i + 1] == more[i - 1] && acts[i] == rest[i - 2];
        assert more[i - 2 + 1] == Step(more[i - 2], rest[i - 2]);
      }
    }
    assert acts[2].Receive? && ws[2].calls[id].sent == [];
  }
}
