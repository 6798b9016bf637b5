/**
 The operations of the SMPP side as the code performs them, on one mutable gateway. Every method that is one operation on
 shared state does exactly the step of the same name in the step system; the handler composes them, and the poll loop calls
 the handler.
 */
module Gateway {
  import Geodata
  import Iconv
  import opened Deliver
  import opened Engine
  import opened Errno
  import opened Handler
  import opened Pdu
  import opened Text
  import Traces

  class Gateway {
    const inbound: seq<byte>
    var pos: nat
    var store: map<uint32, Entry>
    var cells: map<nat, Cell>
    var reqs: seq<Request>
    var outbox: seq<Reply>
    var reports: seq<Report>
    var smppUp: bool
    var tcpUp: bool
    var seqNum: uint32
    ghost var rcv: Receiver
    ghost var handed: seq<nat>
    ghost var filled: seq<nat>
    ghost var posted: seq<nat>
    ghost var receipts: map<nat, Receipt>
    ghost var pieces: seq<seq<byte>>
    ghost var ops: seq<Operated>

    constructor (inbound: seq<byte>)
      ensures View() == Initial(inbound, Peer([], [], false, true)) && seqNum == 0
    {
      this.inbound := inbound;
      pos, store, cells, reqs := 0, map[], map[], [];
      outbox, reports, smppUp, tcpUp, seqNum := [], [], false, true, 0;
      rcv, handed, filled, posted, receipts, pieces, ops := Idle, [], [], [], map[], [], [];
    }

    ghost function ViewPeer(): Peer
      reads this
    {
      Peer(outbox, reports, smppUp, tcpUp)
    }

    ghost function View(): World
      reads this
    {
      World(inbound, pos, store, cells, reqs, rcv, ViewPeer(), handed, filled, posted, receipts, pieces, ops)
    }

    /** sms112_smpp_get_seq_num: a 32-bit counter that wraps around. */
    method SmppGetSeqNum() returns (n: uint32)
      modifies this`seqNum
      ensures n == seqNum == (old(seqNum) + 1) % 0x1_0000_0000
    {
      seqNum := (seqNum + 1) % 0x1_0000_0000;
      n := seqNum;
    }

    // -------------------------------------------------------------- store and stream

    /** The constructor of SReqData and sms112_req_stor_add. */
    method ReqStorAdd(key: uint32, addr: nat) returns (ret: int, id: nat)
      modifies this
      ensures View() == DoBegin(old(View()), key, addr)
      ensures ret == (if key in old(store) then EEXIST else 0) && id == |old(reqs)|
      ensures store == if key in old(store) then old(store) else old(store)[key := Entry(addr, id)]
      ensures cells == old(cells)[addr := Cell(None, 0, false)]
    {
      cells := cells[addr := Cell(None, 0, false)];
      id, ret := |reqs|, 0;
      if key !in store {
        store := store[key := Entry(addr, id)];
        reqs := reqs + [Request(key, addr, Added)];
      } else {
        ret := EEXIST;
        reqs := reqs + [Request(key, addr, Gone(EEXIST, Exists, None, 0))];
      }
    }

    /** sms112_req_stor_get_and_rem. */
    method ReqStorGetAndRem(ghost h: Header, key: uint32) returns (found: Option<Entry>)
      requires rcv == Peeked(h) && h.seqNum == key
      modifies this
      ensures View() == DoTake(old(View()))
      ensures found == if key in old(store) then Some(old(store)[key]) else None
      ensures store == old(store) - {key} && cells == old(cells) && pos == old(pos)
    {
      if key in store {
        found := Some(store[key]);
        handed, rcv := handed + [store[key].owner], Holding(h, store[key]);
        store := store - {key};
      } else {
        found := None;
        rcv := Idle;
      }
    }

    /** sms112_tcp_send. */
    method TcpSend(s: Sending) returns (ret: int)
      modifies this`tcpUp
      ensures tcpUp == (old(tcpUp) && s.full) && ret == s.Code()
    {
      ret := 0;
      if !s.full {
        ret := s.errno;
        tcpUp := false;
      }
    }

    /** sms112_tcp_recv: `got` is what recv returned; what came is gone from the stream either way. */
    method TcpRecv(n: uint32, got: int) returns (ret: int, data: seq<byte>)
      requires Recv(View(), n, got)
      modifies this`pos, this`pieces
      ensures View() == Consume(old(View()), Taken(got))
      ensures data == inbound[old(pos)..old(pos) + Taken(got)] && ret == if Full(n, got) then 0 else -1
      ensures ret == 0 <==> got == n || (got == -1 && n == 0xFFFF_FFFF)
      ensures pos == old(pos) + |data| && |data| == if got == -1 then 0 else got
    {
      data := inbound[pos..pos + Taken(got)];
      pieces := pieces + [data];
      pos := pos + Taken(got);
      ret := if Full(n, got) then 0 else -1;
    }

    // -------------------------------------------------------------- the requester

    /** Lines 32-37 of sms112_smpp_send. */
    method SmppSendTransmit(id: nat, s: Sending) returns (ret: int)
      requires id < |reqs|
      modifies this
      ensures View() == DoSend(old(View()), id, s) && ret == s.Code()
      ensures ret == (if s.full then 0 else s.errno) && tcpUp == (old(tcpUp) && s.full)
      ensures reqs == old(reqs)[id := old(reqs)[id].(phase := if ret == 0 then Waiting else Gone(ret, SendFailure, None, 0))]
    {
      ret := TcpSend(s);
      reqs := reqs[id := reqs[id].(phase := if ret == 0 then Waiting else Gone(ret, SendFailure, None, 0))];
    }

    /** Line 43: the wait ends with `lock`. */
    method SmppSendWait(id: nat, lock: int)
      requires id < |reqs| && reqs[id].addr in cells
      modifies this
      ensures View() == DoTimedLock(old(View()), id, lock)
      ensures reqs == old(reqs)[id := old(reqs)[id].(phase := Woken(lock))] && store == old(store)
      ensures var addr := old(reqs)[id].addr;
              cells == if lock == 0 then old(cells)[addr := old(cells)[addr].(posted := false)] else old(cells)
    {
      if lock == 0 {
        cells := cells[reqs[id].addr := cells[reqs[id].addr].(posted := false)];
      }
      reqs := reqs[id := reqs[id].(phase := Woken(lock))];
    }

    /** Lines 44-53 and the return. */
    method SmppSendCheck(id: nat) returns (ret: int)
      requires id < |reqs| && reqs[id].addr in cells && reqs[id].phase.Woken?
      modifies this
      ensures View() == DoCheck(old(View()), id)
      ensures reqs[id].phase.Gone? && ret == reqs[id].phase.ret
      ensures var c := cells[old(reqs)[id].addr];
              && ret == (if c.dataLen != 0 then 0 else old(reqs)[id].phase.lock)
              && reqs[id].phase == Gone(ret, if ret == 0 then Completed else WaitFailure, c.buf, c.dataLen)
      ensures store == old(store) && cells == old(cells)
    {
      var c := cells[reqs[id].addr];
      ret := 0;
      if c.dataLen == 0 {
        ret := reqs[id].phase.lock;
      }
      reqs := reqs[id := reqs[id].(phase := Gone(ret, if ret == 0 then Completed else WaitFailure, c.buf, c.dataLen))];
    }

    // -------------------------------------------------------------- responses

    /** The history of lines 81-83. */
    ghost method NoteReceipt(h: Header, e: Entry, got: int)
      modifies this`filled, this`receipts
      ensures filled == old(filled) + [e.owner]
      ensures receipts == old(receipts)[e.owner := Receipt(h, pos, got, |pieces|)]
    {
      filled, receipts := filled + [e.owner], receipts[e.owner := Receipt(h, pos, got, |pieces|)];
    }

    /** Lines 81-83: the buffer, and what recv puts into it. */
    method FillCell(h: Header, e: Entry, got: int) returns (ret: int)
      requires rcv == Holding(h, e) && e.addr in cells && Recv(View(), h.length, got)
      modifies this
      ensures View() == DoRecvResponse(old(View()), got) && ret == if Full(h.length, got) then 0 else -1
      ensures store == old(store) && tcpUp == old(tcpUp) && pos == old(pos) + if got < 0 then 0 else got
      ensures cells == old(cells)[e.addr := old(cells)[e.addr].(buf := Some(inbound[old(pos)..pos]))]
    {
      NoteReceipt(h, e, got);
      var data;
      ret, data := TcpRecv(h.length, got);
      cells := cells[e.addr := cells[e.addr].(buf := Some(data))];
      rcv := if ret == 0 then Filled(h, e) else Ready(h, e);
    }

    /** Line 85. */
    method SetDataLen(h: Header, e: Entry)
      requires rcv == Filled(h, e) && e.addr in cells
      modifies this
      ensures View() == DoSetLength(old(View()))
      ensures e.addr in cells && cells == old(cells)[e.addr := old(cells)[e.addr].(dataLen := cells[e.addr].dataLen)]
      ensures cells[e.addr].dataLen == if h.length < 0x8000_0000 then h.length else h.length - 0x1_0000_0000
    {
      cells := cells[e.addr := cells[e.addr].(dataLen := ToInt(h.length))];
      rcv := Ready(h, e);
    }

    /** Line 89. */
    method PostCell(ghost h: Header, e: Entry)
      requires rcv == Ready(h, e) && e.addr in cells
      modifies this
      ensures View() == DoPost(old(View()))
      ensures cells == old(cells)[e.addr := old(cells)[e.addr].(posted := true)]
    {
      cells := cells[e.addr := cells[e.addr].(posted := true)];
      posted, rcv := posted + [e.owner], Idle;
    }

    /** sms112_oper_resp. */
    method OperResp(h: Header, got: int) returns (ret: int)
      requires rcv == Peeked(h) && IsResponse(h) && Recv(View(), h.length, got)
      requires h.seqNum in store ==> store[h.seqNum].addr in cells
      modifies this
      ensures View() == if h.seqNum in old(store) then ServeResponse(old(View()), got) else DoTake(old(View()))
      ensures ret == 0 <==> h.seqNum in old(store) && Full(h.length, got)
      ensures store == old(store) - {h.seqNum} && (ret == 0 || ret == -1)
      ensures pos == old(pos) + if h.seqNum in old(store) && got > 0 then got else 0
    {
      ret := 0;
      var found := ReqStorGetAndRem(h, h.seqNum);
      if found.Some? {
        var code := FillCell(h, found.value, got);
        if code == 0 {
          SetDataLen(h, found.value);
        } else {
          ret := -1;
        }
        PostCell(h, found.value);
      } else {
        ret := -1;
      }
    }

    // -------------------------------------------------------------- requests

    /** The walk over the optional parameters: lines 247-260 of sms112_smpp_deliver_sm_oper. */
    method FindPayload(tlvs: seq<Tlv>) returns (value: Option<seq<byte>>)
      ensures value == Payload(tlvs)
      ensures value.None? ==> forall j :: 0 <= j < |tlvs| ==> tlvs[j].tag != 0x0424
    {
      value := None;
      var i := 0;
      while i < |tlvs|
        invariant 0 <= i <= |tlvs| && value == None && Payload(tlvs) == Payload(tlvs[i..])
        invariant forall j :: 0 <= j < i ==> tlvs[j].tag != 0x0424
      {
        if tlvs[i].tag == MESSAGE_PAYLOAD {
          value := Some(tlvs[i].value);
          break;
        }
        assert tlvs[i..][1..] == tlvs[i + 1..];
        i := i + 1;
      }
    }

    /** The text to print, and whether it is terminated: lines 242-286. No text for an unsupported coding. */
    method TextToPrint(o: Outside) returns (text: Option<Option<seq<byte>>>, ended: bool)
      ensures text == if Supported(o.message.coding) then Some(PrintText(o)) else None
      ensures ended <==> Supported(o.message.coding) && Terminated(o)
      ensures text.None? <==> o.message.coding !in {0, 8}
      ensures o.message.coding == 0 ==> text == Some(Some(o.message.text)) && ended
    {
      ended := false;
      var source := o.message.text;
      if source == [] {
        var payload := FindPayload(o.message.tlvs);
        source := if payload.Some? then payload.value else o.stray;
      }
      if o.message.coding == 8 {
        var code, dst, len := Iconv.ConvertText(source, o.lib, 0, 0);
        text := Some(if dst.Some? then Some(dst.value[..len]) else None);
        if code == 0 && source != [] {
          assert source[..|source|] == source;
          Iconv.Fits(source);
          dst.value[len] := 0;
          ended := true;
        }
      } else if o.message.coding == 0 {
        text, ended := Some(Some(o.message.text)), true;
      } else {
        text := None;
      }
    }

    /** sms112_smpp_deliver_sm_oper; the truncated sequence number it is passed is not what it answers with. */
    method DeliverSmOper(bytes: seq<byte>, truncated: byte, o: Outside) returns (ret: int)
      requires o.Unpacked() ==> |bytes| >= HEADER_SIZE
      modifies this`outbox, this`reports, this`tcpUp
      ensures ViewPeer() == DeliverSm(old(ViewPeer()), bytes, o)
      ensures ret == if !Answerable(o) then EINVAL else if o.packError != 0 then o.packError else o.sending.Code()
      ensures var answers := o.unpackError == 0 && o.message.coding in {0, 8};
              && (!answers ==> ViewPeer() == old(ViewPeer()) && ret == 22)
              && (answers ==> |reports| == |old(reports)| + 1 && reports[..|old(reports)|] == old(reports)
                              && Traces.Tells(reports[|old(reports)|], o))
              && (answers && o.packError == 0 && o.sending.full ==>
                    outbox == old(outbox) + [Reply(DELIVER_SM_RESP, 0, HeaderAt(bytes, 0).seqNum)] && tcpUp == old(tcpUp))
              && (!(answers && o.packError == 0 && o.sending.full) ==> outbox == old(outbox))
              && tcpUp == (old(tcpUp) && !(answers && o.packError == 0 && !o.sending.full))
    {
      if !o.Unpacked() {
        return EINVAL;
      }
      var text, ended := TextToPrint(o);
      if text.None? {
        return EINVAL;
      }
      var geodata := new StringRef("");
      var code := Geodata.Get(Some(o.message.caller), o.urlLen, o.httpCode, o.page, geodata);
      var verdict := NoGeodata;
      if code == 0 {
        verdict := if o.sip == 0 then Done else SipFailed(o.sip);
      }
      reports := reports + [Report(o.message.caller, text.value, verdict, geodata.s)];
      Traces.ReportTells(o);

      var req := HeaderAt(bytes, 0);
      if o.packError != 0 {
        return o.packError;
      }
      ret := TcpSend(o.sending);
      if o.sending.full {
        outbox := outbox + [Reply(DELIVER_SM_RESP, 0, req.seqNum)];
      }
    }

    /** sms112_smpp_unbind_oper. */
    method UnbindOper(bytes: seq<byte>, truncated: byte, o: Outside) returns (ret: int)
      requires o.Unpacked() ==> |bytes| >= HEADER_SIZE
      modifies this`outbox, this`smppUp, this`tcpUp
      ensures ViewPeer() == Deliver.UnbindOper(old(ViewPeer()), bytes, o)
      ensures ret == if !o.Unpacked() then o.unpackError else if o.packError != 0 then o.packError else o.sending.Code()
      ensures !smppUp
      ensures o.unpackError == 0 && o.packError == 0 && o.sending.full ==>
                outbox == old(outbox) + [Reply(UNBIND_RESP, 0, HeaderAt(bytes, 0).seqNum)] && tcpUp == old(tcpUp)
      ensures !(o.unpackError == 0 && o.packError == 0 && o.sending.full) ==> outbox == old(outbox)
      ensures tcpUp == (old(tcpUp) && !(o.unpackError == 0 && o.packError == 0 && !o.sending.full))
    {
      smppUp := false;
      if !o.Unpacked() {
        return o.unpackError;
      }
      var req := HeaderAt(bytes, 0);
      if o.packError != 0 {
        return o.packError;
      }
      ret := TcpSend(o.sending);
      if o.sending.full {
        outbox := outbox + [Reply(UNBIND_RESP, 0, req.seqNum)];
      }
    }

    /** Lines 104-111 of sms112_smpp_oper_req. */
    method ReceiveRequest(h: Header, got: int) returns (ret: int, bytes: seq<byte>)
      requires rcv == Peeked(h) && Recv(View(), h.length, got)
      modifies this
      ensures View() == DoRecvRequest(old(View()), got)
      ensures ret == (if h.length <= LOCAL_BUFFER && Full(h.length, got) then 0 else EINVAL)
      ensures ret == 0 ==> rcv == Operating(h, bytes) && |bytes| == got
    {
      bytes := [];
      if h.length > LOCAL_BUFFER {
        rcv := Idle;
        return EINVAL, bytes;
      }
      ret, bytes := TcpRecv(h.length, got);
      if ret != 0 {
        rcv := Idle;
        return EINVAL, bytes;
      }
      rcv := Operating(h, bytes);
    }

    /** The switch of sms112_smpp_oper_req. */
    method Dispatch(h: Header, bytes: seq<byte>, o: Outside)
      requires rcv == Operating(h, bytes) && (o.Unpacked() ==> |bytes| >= HEADER_SIZE)
      modifies this
      ensures View() == DoOperate(old(View()), o)
    {
      var truncated := h.seqNum % 256;
      if h.id == DELIVER_SM {
        var code := DeliverSmOper(bytes, truncated, o);
      } else if h.id == UNBIND {
        var code := UnbindOper(bytes, truncated, o);
      }
      ops, rcv := ops + [Operated(h, bytes, o)], Idle;
    }

    /** sms112_smpp_oper_req; what became of the request inside does not show in the code it returns. */
    method OperReq(h: Header, got: int, o: Outside) returns (ret: int)
      requires rcv == Peeked(h) && !IsResponse(h) && Recv(View(), h.length, got)
      requires o.Unpacked() ==> h.length >= HEADER_SIZE
      modifies this
      ensures View() == ServeRequest(old(View()), got, o)
      ensures ret == if h.length <= LOCAL_BUFFER && Full(h.length, got) then 0 else EINVAL
    {
      var bytes;
      ret, bytes := ReceiveRequest(h, got);
      if ret == 0 {
        Dispatch(h, bytes, o);
      }
    }

    /** sms112_smpp_handler. */
    method SmppHandler(i: Input) returns (ret: int)
      requires Possible(View(), i)
      modifies this
      ensures View() == Handle(old(View()), i)
      ensures ret == 0 <==> i.arrived && Served(old(View())) && Full(HeaderAt(inbound, old(pos)).length, i.got)
    {
      if !i.arrived {
        return -1;
      }
      var h := HeaderAt(inbound, pos);
      rcv := Peeked(h);
      if IsResponse(h) {
        ret := OperResp(h, i.got);
      } else {
        ret := OperReq(h, i.got, i.o);
      }
    }

    /** The body of the poll loop, after `k` of the calls. */
    method Poll(t: Turn, ghost vs: seq<World>, ghost all: seq<Input>, ghost k: nat)
      requires InARow(vs, all) && k <= |all| && View() == vs[k] && (t.readable ==> k < |all| && all[k] == t.i)
      modifies this
      ensures View() == vs[if t.readable then k + 1 else k]
    {
      if t.readable {
        CallNext(vs, all, k);
        var ret := SmppHandler(t.i);
      }
    }

    /** msg_receiver; `vs` are the worlds its calls of the handler lead through. */
    method MsgReceiver(script: seq<Turn>, ghost vs: seq<World>)
      requires InARow(vs, Called(script)) && View() == vs[0]
      modifies this
      ensures View() == vs[|Called(script)|]
    {
      ghost var all, k := Called(script), 0;
      var n := 0;
      while n < |script| && !script[n].stop
        invariant 0 <= n <= |script| && k <= |all| && View() == vs[k]
        invariant all[k..] == Called(script[n..])
      {
        CalledStep(script, n, all, k);
        Poll(script[n], vs, all, k);
        k := if script[n].readable then k + 1 else k;
        n := n + 1;
      }
      CalledEnd(script, n, all, k);
    }
  }
}
