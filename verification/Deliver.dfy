/**
 What the gateway does with a request of the server: DELIVER_SM and UNBIND, as functions of what the outside world answers.
 */
module Deliver {
  import Geodata
  import Iconv
  import opened Pdu
  import opened Text

  const MESSAGE_PAYLOAD := 0x0424

  datatype Tlv = Tlv(tag: int, value: seq<byte>)

  /** An unpacked deliver_sm apart from its header. */
  datatype Message = Message(caller: string, coding: byte, text: seq<byte>, tlvs: seq<Tlv>)

  /** One send: whether it took all the bytes, and the errno left behind otherwise. */
  datatype Sending = Sending(full: bool, errno: int) {
    /** What sms112_tcp_send returns; a partial send may leave errno at zero. */
    function Code(): int {
      if full then 0 else errno
    }
  }

  /**
   What the codec, the libraries and the network answer while one request is operated. `stray` is what the uninitialised
   source pointer of a message without text and payload happens to point at.
   */
  datatype Outside = Outside(unpackError: int, message: Message, stray: seq<byte>, lib: Iconv.Library,
                             urlLen: int, httpCode: int, page: string, sip: int, packError: int, sending: Sending)
  {
    predicate Unpacked() {
      unpackError == 0
    }
  }

  datatype Reply = Reply(id: uint32, status: uint32, seqNum: uint32)

  datatype Verdict = Done | SipFailed(code: int) | NoGeodata

  /** What sms112_send_report is given; no text when its conversion failed. */
  datatype Report = Report(caller: string, text: Option<seq<byte>>, verdict: Verdict, geodata: string)

  /** Everything of the gateway a request can change. */
  datatype Peer = Peer(outbox: seq<Reply>, reports: seq<Report>, smppUp: bool, tcpUp: bool)

  /** The value of the first message_payload. */
  function Payload(tlvs: seq<Tlv>): Option<seq<byte>> {
    if tlvs == [] then None
    else if tlvs[0].tag == MESSAGE_PAYLOAD then Some(tlvs[0].value)
    else Payload(tlvs[1..])
  }

  function Source(m: Message, stray: seq<byte>): seq<byte> {
    if m.text != [] then m.text
    else match Payload(m.tlvs) case Some(value) => value case None => stray
  }

  predicate Supported(coding: byte) {
    coding == 0 || coding == 8
  }

  /** Whether a terminator follows the text to print: not when its conversion stopped short, nor behind an empty one. */
  predicate Terminated(o: Outside) {
    var source := Source(o.message, o.stray);
    o.message.coding != 8 || (Iconv.Clean(source, o.lib) && source != [])
  }

  function PrintText(o: Outside): Option<seq<byte>> {
    if o.message.coding != 8 then Some(o.message.text)
    else Iconv.Left(Source(o.message, o.stray), o.lib)
  }

  /** The document sms112_geodata_get finds, if it succeeds. */
  function Document(o: Outside): Option<string> {
    if 0 <= o.urlLen < Geodata.URL_SIZE && o.httpCode == 0 then Geodata.Extract(o.page) else None
  }

  function ReportOf(o: Outside): Report {
    match Document(o)
    case None => Report(o.message.caller, PrintText(o), NoGeodata, "")
    case Some(doc) => Report(o.message.caller, PrintText(o), if o.sip == 0 then Done else SipFailed(o.sip), doc)
  }

  /** A DELIVER_SM that gets an answer. */
  predicate Answerable(o: Outside) {
    o.Unpacked() && Supported(o.message.coding)
  }

  function Transmit(p: Peer, r: Reply, o: Outside): Peer {
    if o.packError != 0 then p
    else if o.sending.full then p.(outbox := p.outbox + [r])
    else p.(tcpUp := false)
  }

  function DeliverSm(p: Peer, bytes: seq<byte>, o: Outside): Peer
    requires o.Unpacked() ==> |bytes| >= HEADER_SIZE
  {
    if !Answerable(o) then p
    else Transmit(p.(reports := p.reports + [ReportOf(o)]), Reply(DELIVER_SM_RESP, 0, HeaderAt(bytes, 0).seqNum), o)
  }

  function UnbindOper(p: Peer, bytes: seq<byte>, o: Outside): Peer
    requires o.Unpacked() ==> |bytes| >= HEADER_SIZE
  {
    var down := p.(smppUp := false);
    if !o.Unpacked() then down else Transmit(down, Reply(UNBIND_RESP, 0, HeaderAt(bytes, 0).seqNum), o)
  }

  /** The switch of sms112_smpp_oper_req. */
  function OperateRequest(p: Peer, id: uint32, bytes: seq<byte>, o: Outside): Peer
    requires o.Unpacked() ==> |bytes| >= HEADER_SIZE
  {
    if id == DELIVER_SM then DeliverSm(p, bytes, o)
    else if id == UNBIND then UnbindOper(p, bytes, o)
    else p
  }
}
