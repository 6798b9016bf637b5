/** What the gateway sends to the server and reports, traced back to the requests it operated and the PDUs it was sent. */
module Traces {
  import opened Accounting
  import opened Deliver
  import opened Engine
  import Geodata
  import Iconv
  import opened Framing
  import opened Pdu
  import opened Text

  // ---------------------------------------------------------------- answers

  /** The answer to one operated request, when packing and sending it succeed. */
  function AnswerTo(op: Operated): seq<Reply>
    requires op.o.Unpacked() ==> |op.bytes| >= HEADER_SIZE
  {
    if op.o.unpackError != 0 || op.o.packError != 0 || !op.o.sending.full then []
    else if op.h.id == DELIVER_SM then
      if op.o.message.coding in {0, 8} then [Reply(DELIVER_SM_RESP, 0, HeaderAt(op.bytes, 0).seqNum)] else []
    else if op.h.id == UNBIND then [Reply(UNBIND_RESP, 0, HeaderAt(op.bytes, 0).seqNum)]
    else []
  }

  ghost predicate Packable(ops: seq<Operated>) {
    forall i :: 0 <= i < |ops| && ops[i].o.Unpacked() ==> |ops[i].bytes| >= HEADER_SIZE
  }

  function Answers(ops: seq<Operated>): seq<Reply>
    requires forall i :: 0 <= i < |ops| && ops[i].o.Unpacked() ==> |ops[i].bytes| >= HEADER_SIZE
  {
    if ops == [] then [] else Answers(ops[..|ops| - 1]) + AnswerTo(ops[|ops| - 1])
  }

  lemma AnswersSnoc(ops: seq<Operated>, op: Operated)
    requires Packable(ops) && (op.o.Unpacked() ==> |op.bytes| >= HEADER_SIZE)
    ensures Packable(ops + [op]) && Answers(ops + [op]) == Answers(ops) + AnswerTo(op)
  {
    assert (ops + [op])[..|ops|] == ops;
  }

  lemma OperateAnswers(w: World, o: Outside)
    requires Enabled(w, Operate(o))
    ensures DoOperate(w, o).peer.outbox == w.peer.outbox + AnswerTo(Operated(w.rcv.h, w.rcv.bytes, o))
  {
  }

  /** Every answer sent so far, in order, is the answer to the request operated at its place; nothing else was sent. */
  lemma {:induction false} RunAnswers(ws: seq<World>, acts: seq<Action>, n: nat)
    requires Run(ws, acts) && n < |ws|
    ensures Packable(ws[n].ops) && ws[n].peer.outbox == ws[0].peer.outbox + Answers(ws[n].ops)
  {
    if n > 0 {
      RunAnswers(ws, acts, n - 1);
      var w, a := ws[n - 1], acts[n - 1];
      if a.Operate? {
        var op := Operated(w.rcv.h, w.rcv.bytes, a.o);
        OperateAnswers(w, a.o);
        AnswersSnoc(w.ops, op);
        Assoc(ws[0].peer.outbox, Answers(w.ops), AnswerTo(op));
      } else {
        QuietStep(w, a);
      }
    } else {
      assert ws[0].peer.outbox + [] == ws[0].peer.outbox;
    }
  }

  // ---------------------------------------------------------------- DELIVER_SM

  /** A DELIVER_SM that unpacks and has data coding 0 or 8. */
  predicate Deliverable(id: uint32, o: Outside) {
    id == DELIVER_SM && o.unpackError == 0 && o.message.coding in {0, 8}
  }

  /** Those among the operated requests. */
  function Answered(ops: seq<Operated>): seq<Operated> {
    if ops == [] then []
    else
      var last := ops[|ops| - 1];
      Answered(ops[..|ops| - 1]) + if Deliverable(last.h.id, last.o) then [last] else []
  }

  function DeliverResponses(outbox: seq<Reply>): seq<Reply> {
    if outbox == [] then []
    else
      var last := outbox[|outbox| - 1];
      DeliverResponses(outbox[..|outbox| - 1]) + if last.id == DELIVER_SM_RESP then [last] else []
  }

  lemma DeliverResponsesAppend(outbox: seq<Reply>, more: seq<Reply>)
    requires |more| <= 1
    ensures DeliverResponses(outbox + more) == DeliverResponses(outbox) + OnlyDeliver(more)
  {
    if more == [] {
      assert outbox + more == outbox;
    } else {
      assert (outbox + more)[..|outbox|] == outbox;
      assert more == [more[0]];
    }
  }

  ghost predicate SendsSucceed(ops: seq<Operated>) {
    forall i :: 0 <= i < |ops| ==> ops[i].o.packError == 0 && ops[i].o.sending.full
  }

  /** The response to one operated request, if it is an answerable DELIVER_SM. */
  function ResponseTo(op: Operated): seq<Reply>
    requires op.o.Unpacked() ==> |op.bytes| >= HEADER_SIZE
  {
    if Deliverable(op.h.id, op.o) then [Reply(DELIVER_SM_RESP, 0, HeaderAt(op.bytes, 0).seqNum)] else []
  }

  /** The DELIVER_SM_RESPs among at most one reply. */
  function OnlyDeliver(more: seq<Reply>): seq<Reply> {
    if |more| == 1 && more[0].id == DELIVER_SM_RESP then more else []
  }

  lemma AnswerIsResponse(op: Operated)
    requires (op.o.Unpacked() ==> |op.bytes| >= HEADER_SIZE) && op.o.packError == 0 && op.o.sending.full
    ensures |AnswerTo(op)| <= 1 && OnlyDeliver(AnswerTo(op)) == ResponseTo(op)
  {
  }

  /** One more request, successfully answered if it is answered at all. */
  lemma DeliverResponsesSnoc(ops: seq<Operated>, op: Operated)
    requires Packable(ops) && (op.o.Unpacked() ==> |op.bytes| >= HEADER_SIZE)
    requires op.o.packError == 0 && op.o.sending.full
    ensures Packable(ops + [op])
    ensures DeliverResponses(Answers(ops + [op])) == DeliverResponses(Answers(ops)) + ResponseTo(op)
  {
    AnswersSnoc(ops, op);
    AnswerIsResponse(op);
    DeliverResponsesAppend(Answers(ops), AnswerTo(op));
  }

  /** Responses that belong one by one to these requests. */
  predicate OneToOne(sent: seq<Reply>, answered: seq<Operated>) {
    && |sent| == |answered|
    && forall j :: 0 <= j < |answered| ==>
                     |answered[j].bytes| >= HEADER_SIZE &&
                     sent[j] == Reply(DELIVER_SM_RESP, 0, HeaderAt(answered[j].bytes, 0).seqNum)
  }

  lemma OneToOneSnoc(sent: seq<Reply>, answered: seq<Operated>, op: Operated)
    requires OneToOne(sent, answered) && (op.o.Unpacked() ==> |op.bytes| >= HEADER_SIZE)
    ensures OneToOne(sent + ResponseTo(op), answered + if Deliverable(op.h.id, op.o) then [op] else [])
  {
  }

  lemma {:induction false} AnswersOneToOne(ops: seq<Operated>)
    requires Packable(ops) && SendsSucceed(ops)
    ensures OneToOne(DeliverResponses(Answers(ops)), Answered(ops))
  {
    if ops != [] {
      var before, last := ops[..|ops| - 1], ops[|ops| - 1];
      assert before + [last] == ops;
      AnswersOneToOne(before);
      DeliverResponsesSnoc(before, last);
      OneToOneSnoc(DeliverResponses(Answers(before)), Answered(before), last);
    }
  }

  /**
   The DELIVER_SM trace, for every run whose answers could be packed and sent: the DELIVER_SM_RESPs sent are exactly one for
   each DELIVER_SM operated that unpacks and has data coding 0 or 8, in the same order and with the same 32-bit sequence
   number, whatever the conversion, the geodata request and the SIP call came to.
   */
  lemma DeliverTrace(ws: seq<World>, acts: seq<Action>, n: nat)
    requires Run(ws, acts) && n < |ws| && ws[0].peer.outbox == [] && SendsSucceed(ws[n].ops)
    ensures OneToOne(DeliverResponses(ws[n].peer.outbox), Answered(ws[n].ops))
  {
    RunAnswers(ws, acts, n);
    assert [] + Answers(ws[n].ops) == Answers(ws[n].ops);
    AnswersOneToOne(ws[n].ops);
  }

  /** One report for each of the same requests, of what the outside world came to. */
  function Reports(ops: seq<Operated>): seq<Report> {
    if ops == [] then []
    else
      var last := ops[|ops| - 1];
      Reports(ops[..|ops| - 1]) + if Deliverable(last.h.id, last.o) then [ReportOf(last.o)] else []
  }

  lemma ReportsSnoc(ops: seq<Operated>, op: Operated)
    ensures Reports(ops + [op]) == Reports(ops) + if Deliverable(op.h.id, op.o) then [ReportOf(op.o)] else []
    ensures Answered(ops + [op]) == Answered(ops) + if Deliverable(op.h.id, op.o) then [op] else []
  {
    assert (ops + [op])[..|ops|] == ops;
  }

  lemma StepReports(w: World, a: Action)
    requires Enabled(w, a) && w.peer.reports == Reports(w.ops)
    ensures Step(w, a).peer.reports == Reports(Step(w, a).ops)
  {
    if a.Operate? {
      ReportsSnoc(w.ops, Operated(w.rcv.h, w.rcv.bytes, a.o));
      OperateReports(w, a.o);
    } else {
      QuietStep(w, a);
    }
  }

  /** One report for each DELIVER_SM operated that unpacks and has data coding 0 or 8, in order, telling what came of it. */
  lemma ReportTrace(ws: seq<World>, acts: seq<Action>, n: nat)
    requires Run(ws, acts) && n < |ws| && ws[0].peer.reports == []
    ensures ws[n].peer.reports == Reports(ws[n].ops)
    ensures var reports, answered := ws[n].peer.reports, Answered(ws[n].ops);
            |reports| == |answered| && forall j :: 0 <= j < |answered| ==> Tells(reports[j], answered[j].o)
  {
    RunReports(ws, acts, n);
    ReportsTell(ws[n].ops);
  }

  lemma {:induction false} RunReports(ws: seq<World>, acts: seq<Action>, n: nat)
    requires Run(ws, acts) && n < |ws| && ws[0].peer.reports == []
    ensures ws[n].peer.reports == Reports(ws[n].ops)
  {
    if n > 0 {
      RunReports(ws, acts, n - 1);
      StepReports(ws[n - 1], acts[n - 1]);
    }
  }

  lemma OperateReports(w: World, o: Outside)
    requires Enabled(w, Operate(o))
    ensures DoOperate(w, o).peer.reports ==
            w.peer.reports + if Deliverable(w.rcv.h.id, o) then [ReportOf(o)] else []
  {
  }

  // ---------------------------------------------------------------- what a report tells

  /** The fetched page holds a document: the URL fitted, the request succeeded, and a closing tag follows an opening one. */
  ghost predicate Found(o: Outside) {
    && 0 <= o.urlLen < 2048 && o.httpCode == 0
    && exists i, j :: i <= j && OccursAt(o.page, "<presence", i) && OccursAt(o.page, "</presence>", j)
  }

  /** The stretch from the first opening tag through the first closing tag at or after it. */
  ghost predicate FirstElement(page: string, element: string) {
    exists start: nat, end: nat ::
      && start + 20 <= end <= |page| && element == page[start..end]
      && OccursAt(page, "<presence", start) && (forall i :: 0 <= i < start ==> !OccursAt(page, "<presence", i))
      && OccursAt(page, "</presence>", end - 11)
      && forall i :: start <= i < end - 11 ==> !OccursAt(page, "</presence>", i)
  }

  ghost predicate FirstPayload(tlvs: seq<Tlv>, i: int) {
    0 <= i < |tlvs| && tlvs[i].tag == 0x0424 && forall j :: 0 <= j < i ==> tlvs[j].tag != 0x0424
  }

  /** Where a text comes from: the short message, the first message_payload, or nowhere in particular. */
  ghost predicate ComesFrom(m: Message, stray: seq<byte>, src: seq<byte>) {
    if m.text != [] then src == m.text
    else if forall j :: 0 <= j < |m.tlvs| ==> m.tlvs[j].tag != 0x0424 then src == stray
    else exists i :: FirstPayload(m.tlvs, i) && src == m.tlvs[i].value
  }

  /** A text converted as far as iconv came; none if it failed on what it reached. */
  predicate ConvertedFrom(src: seq<byte>, lib: Iconv.Library, text: Option<seq<byte>>) {
    var reached := src[..if lib.stop < |src| then lib.stop else |src|];
    && (text.Some? <==> lib.available && Iconv.WellFormed(reached))
    && (text.Some? ==> Iconv.SameText(reached, text.value))
  }

  /** What a report is to tell of one message, in terms of what the outside world came to. */
  ghost predicate Tells(r: Report, o: Outside) {
    && r.caller == o.message.caller
    && (Found(o) ==> r.verdict == (if o.sip == 0 then Done else SipFailed(o.sip)) && FirstElement(o.page, r.geodata))
    && (!Found(o) ==> r.verdict == NoGeodata && r.geodata == "")
    && (o.message.coding == 0 ==> r.text == Some(o.message.text))
    && (o.message.coding == 8 ==> exists src :: ComesFrom(o.message, o.stray, src) && ConvertedFrom(src, o.lib, r.text))
  }

  lemma {:induction false} PayloadIsFirst(tlvs: seq<Tlv>)
    ensures Payload(tlvs).None? ==> forall j :: 0 <= j < |tlvs| ==> tlvs[j].tag != 0x0424
    ensures Payload(tlvs).Some? ==> exists i :: FirstPayload(tlvs, i) && Payload(tlvs) == Some(tlvs[i].value)
  {
    if tlvs != [] {
      PayloadIsFirst(tlvs[1..]);
      if tlvs[0].tag == 0x0424 {
        assert FirstPayload(tlvs, 0);
      } else if Payload(tlvs).Some? {
        var i :| FirstPayload(tlvs[1..], i) && Payload(tlvs[1..]) == Some(tlvs[1..][i].value);
        assert FirstPayload(tlvs, i + 1) && tlvs[i + 1] == tlvs[1..][i];
      } else {
        assert forall j :: 1 <= j < |tlvs| ==> tlvs[j] == tlvs[1..][j - 1];
      }
    }
  }

  lemma SourceComesFrom(m: Message, stray: seq<byte>)
    ensures ComesFrom(m, stray, Source(m, stray))
  {
    PayloadIsFirst(m.tlvs);
    if Payload(m.tlvs).Some? {
      var i :| FirstPayload(m.tlvs, i) && Payload(m.tlvs) == Some(m.tlvs[i].value);
      assert m.tlvs[i].tag == 0x0424;
    }
  }

  lemma DocumentIsFirst(o: Outside)
    ensures Document(o).Some? <==> Found(o)
    ensures Document(o).Some? ==> FirstElement(o.page, Document(o).value)
  {
    Geodata.ExtractFails(o.page);
    if Document(o).Some? {
      var start, end := Geodata.ExtractBounds(o.page);
    }
  }

  lemma ConvertedText(o: Outside)
    requires o.message.coding == 8
    ensures ConvertedFrom(Source(o.message, o.stray), o.lib, PrintText(o))
  {
    var src := Source(o.message, o.stray);
    Iconv.ConversionKeepsText(src[..Iconv.Reached(src, o.lib)]);
  }

  lemma ReportTells(o: Outside)
    ensures Tells(ReportOf(o), o)
  {
    DocumentIsFirst(o);
    if o.message.coding == 8 {
      SourceComesFrom(o.message, o.stray);
      ConvertedText(o);
    }
  }

  lemma {:induction false} ReportsTell(ops: seq<Operated>)
    ensures |Reports(ops)| == |Answered(ops)|
    ensures forall j :: 0 <= j < |Answered(ops)| ==> Tells(Reports(ops)[j], Answered(ops)[j].o)
  {
    if ops != [] {
      ReportsTell(ops[..|ops| - 1]);
      ReportTells(ops[|ops| - 1].o);
    }
  }

  // ---------------------------------------------------------------- down to the PDUs sent

  /** What is operated is dispatched on its own header. */
  predicate OwnHeader(h: Header, bytes: seq<byte>) {
    |bytes| >= HEADER_SIZE ==> h == HeaderAt(bytes, 0)
  }

  ghost predicate OwnHeaders(w: World) {
    && (w.rcv.Operating? ==> OwnHeader(w.rcv.h, w.rcv.bytes))
    && forall i :: 0 <= i < |w.ops| ==> OwnHeader(w.ops[i].h, w.ops[i].bytes)
  }

  lemma PieceOwnHeader(stream: seq<byte>, at: nat, n: nat)
    requires at + HEADER_SIZE <= |stream| && at + n <= |stream|
    ensures OwnHeader(HeaderAt(stream, at), stream[at..at + n])
  {
    if n >= HEADER_SIZE {
      HeaderOfPiece(stream, at, n);
    }
  }

  lemma RequestReadOwnHeader(w: World, got: int)
    requires OwnHeaders(w) && ReceiverOk(w) && Enabled(w, RecvRequest(got))
    ensures OwnHeaders(DoRecvRequest(w, got))
  {
    PieceOwnHeader(w.inbound, w.pos, Taken(got));
  }

  lemma StepOwnHeaders(w: World, a: Action)
    requires OwnHeaders(w) && ReceiverOk(w) && Enabled(w, a)
    ensures OwnHeaders(Step(w, a))
  {
    if a.RecvRequest? {
      RequestReadOwnHeader(w, a.got);
    }
  }

  lemma {:induction false} RunOwnHeaders(ws: seq<World>, acts: seq<Action>, n: nat)
    requires Run(ws, acts) && n < |ws|
    ensures OwnHeaders(ws[n])
  {
    if n > 0 {
      RunOwnHeaders(ws, acts, n - 1);
      RunBase(ws, acts, n - 1);
      StepOwnHeaders(ws[n - 1], acts[n - 1]);
    }
  }

  /** The responses due to some requests, from the PDUs and what the outside world made of them. */
  function Due(requests: seq<seq<byte>>, os: seq<Outside>): seq<Reply>
    requires |requests| == |os| && forall i :: 0 <= i < |requests| ==> Truthful(requests[i])
  {
    if requests == [] then []
    else
      var n := |requests| - 1;
      assert Truthful(requests[n]);
      var h := HeaderAt(requests[n], 0);
      Due(requests[..n], os[..n]) + if Deliverable(h.id, os[n]) then [Reply(DELIVER_SM_RESP, 0, h.seqNum)] else []
  }

  function Outcomes(ops: seq<Operated>): seq<Outside> {
    seq(|ops|, i requires 0 <= i < |ops| => ops[i].o)
  }

  lemma DueSnoc(requests: seq<seq<byte>>, os: seq<Outside>, bytes: seq<byte>, o: Outside)
    requires |requests| == |os| && (forall i :: 0 <= i < |requests| ==> Truthful(requests[i])) && Truthful(bytes)
    ensures Due(requests + [bytes], os + [o]) ==
            Due(requests, os) + if Deliverable(HeaderAt(bytes, 0).id, o)
                                then [Reply(DELIVER_SM_RESP, 0, HeaderAt(bytes, 0).seqNum)] else []
  {
    assert (requests + [bytes])[..|requests|] == requests && (os + [o])[..|os|] == os;
  }

  lemma OutcomesSnoc(ops: seq<Operated>, op: Operated)
    ensures Bytes(ops + [op]) == Bytes(ops) + [op.bytes] && Outcomes(ops + [op]) == Outcomes(ops) + [op.o]
  {
  }

  lemma {:induction false} SentIsDue(ops: seq<Operated>)
    requires Packable(ops) && SendsSucceed(ops)
    requires forall i :: 0 <= i < |ops| ==> Truthful(ops[i].bytes) && ops[i].h == HeaderAt(ops[i].bytes, 0)
    ensures DeliverResponses(Answers(ops)) == Due(Bytes(ops), Outcomes(ops))
  {
    if ops != [] {
      var before, last := ops[..|ops| - 1], ops[|ops| - 1];
      assert before + [last] == ops;
      SentIsDue(before);
      DeliverResponsesSnoc(before, last);
      DueSnoc(Bytes(before), Outcomes(before), last.bytes, last.o);
      OutcomesSnoc(before, last);
    }
  }

  lemma {:induction false} RequestsTruthful(pdus: seq<seq<byte>>)
    requires forall i :: 0 <= i < |pdus| ==> Truthful(pdus[i])
    ensures forall i :: 0 <= i < |Requests(pdus)| ==> Truthful(Requests(pdus)[i])
  {
    if pdus != [] {
      RequestsTruthful(pdus[..|pdus| - 1]);
      assert Truthful(pdus[|pdus| - 1]);
    }
  }

  /** The request PDUs among those read that have been operated: all but the one in hand. */
  lemma OperatedRequests(w: World)
    requires Dispatched(w) && OwnHeaders(w)
    ensures var requests := Requests(w.pieces);
            && |requests| == |w.ops| + (if w.rcv.Operating? then 1 else 0)
            && requests[..|w.ops|] == Bytes(w.ops)
            && forall i :: 0 <= i < |w.ops| ==> Truthful(w.ops[i].bytes) && w.ops[i].h == HeaderAt(w.ops[i].bytes, 0)
  {
    var requests := Requests(w.pieces);
    RequestsTruthful(w.pieces);
    forall i | 0 <= i < |w.ops|
      ensures requests[i] == w.ops[i].bytes && Truthful(w.ops[i].bytes) && w.ops[i].h == HeaderAt(w.ops[i].bytes, 0)
    {
      assert requests[i] == Bytes(w.ops)[i];
      assert Truthful(requests[i]);
    }
  }

  /**
   The DELIVER_SM trace down to the PDUs, for every run over truthful PDUs with full recvs whose answers could be packed and
   sent: of the PDUs the server sent, those read are the first k; of the request PDUs among them all but the one in hand
   have been operated; and the DELIVER_SM_RESPs sent are, in order, exactly those due to the DELIVER_SM PDUs among these.
   */
  lemma PduTrace(ws: seq<World>, acts: seq<Action>, pdus: seq<seq<byte>>, n: nat) returns (k: nat)
    requires Run(ws, acts) && FullRecvs(ws, acts) && Stream(ws[0], pdus) && n < |ws|
    requires ws[0].peer.outbox == [] && SendsSucceed(ws[n].ops)
    ensures k <= |pdus| && ws[n].pos == |Concat(pdus[..k])|
    ensures var w, requests := ws[n], Requests(pdus[..k]);
            && |requests| == |w.ops| + (if w.rcv.Operating? then 1 else 0)
            && (forall i :: 0 <= i < |w.ops| ==> Truthful(requests[..|w.ops|][i]))
            && DeliverResponses(w.peer.outbox) == Due(requests[..|w.ops|], Outcomes(w.ops))
  {
    k := |ws[n].pieces|;
    RunFramed(ws, acts, pdus, n);
    RunDispatched(ws, acts, pdus, n);
    RunOwnHeaders(ws, acts, n);
    RunAnswers(ws, acts, n);
    assert [] + Answers(ws[n].ops) == Answers(ws[n].ops);
    OperatedRequests(ws[n]);
    SentIsDue(ws[n].ops);
  }
}
