/** SMPP 3.4 PDUs as byte strings: the four header words of section 3.2 and streams of whole PDUs. */
module Pdu {
  import opened Text

  type uint32 = x: int | 0 <= x < 0x1_0000_0000

  const HEADER_SIZE := 16

  const UNBIND := 0x0000_0006
  const DELIVER_SM := 0x0000_0005
  const UNBIND_RESP := 0x8000_0006
  const DELIVER_SM_RESP := 0x8000_0005

  datatype Header = Header(length: uint32, id: uint32, status: uint32, seqNum: uint32)

  function Word(b: seq<byte>, at: nat): uint32
    requires at + 4 <= |b|
  {
    ((b[at] as int * 256 + b[at + 1]) * 256 + b[at + 2]) * 256 + b[at + 3]
  }

  /** The header at a position of a byte string, in host order. */
  function HeaderAt(b: seq<byte>, at: nat): Header
    requires at + HEADER_SIZE <= |b|
  {
    Header(Word(b, at), Word(b, at + 4), Word(b, at + 8), Word(b, at + 12))
  }

  predicate IsResponse(h: Header) {
    h.id >= 0x8000_0000
  }

  /** A conversion of uint32_t to int. */
  function ToInt(n: uint32): int {
    if n < 0x8000_0000 then n else n - 0x1_0000_0000
  }

  // ---------------------------------------------------------------- the header on the wire

  /** Four octets, the most significant first: section 3.1 of SMPP 3.4. */
  function PutWord(n: uint32): seq<byte> {
    [n / 0x100_0000, n / 0x1_0000 % 256, n / 256 % 256, n % 256]
  }

  /** The header of section 3.2 as it is sent. */
  function PutHeader(h: Header): seq<byte> {
    PutWord(h.length) + PutWord(h.id) + PutWord(h.status) + PutWord(h.seqNum)
  }

  lemma WordIsPut(b: seq<byte>, at: nat, n: uint32)
    requires at + 4 <= |b|
    ensures Word(b, at) == n <==> b[at..at + 4] == PutWord(n)
  {
    var four := b[at..at + 4];
    assert four[0] == b[at] && four[1] == b[at + 1] && four[2] == b[at + 2] && four[3] == b[at + 3];
    if four == PutWord(n) {
      Digits(n);
    }
    if Word(b, at) == n {
      Quotients(four[0], four[1], four[2], four[3]);
      assert PutWord(n) == [four[0], four[1], four[2], four[3]] == four;
    }
  }

  /** A number is made of its four base-256 digits. */
  lemma Digits(n: uint32)
    ensures ((n / 0x100_0000 * 256 + n / 0x1_0000 % 256) * 256 + n / 256 % 256) * 256 + n % 256 == n
  {
  }

  lemma Quotients(a: byte, b: byte, c: byte, d: byte)
    ensures var n := ((a as int * 256 + b) * 256 + c) * 256 + d;
            n / 0x100_0000 == a && n / 0x1_0000 % 256 == b && n / 256 % 256 == c && n % 256 == d
  {
  }

  /** The header read at a place is the one whose sixteen octets stand there, and no other. */
  lemma HeaderIsPut(b: seq<byte>, at: nat, h: Header)
    requires at + HEADER_SIZE <= |b|
    ensures HeaderAt(b, at) == h <==> b[at..at + HEADER_SIZE] == PutHeader(h)
  {
    WordIsPut(b, at, h.length);
    WordIsPut(b, at + 4, h.id);
    WordIsPut(b, at + 8, h.status);
    WordIsPut(b, at + 12, h.seqNum);
    var wire, put := b[at..at + HEADER_SIZE], PutHeader(h);
    assert wire == b[at..at + 4] + b[at + 4..at + 8] + b[at + 8..at + 12] + b[at + 12..at + 16];
    if wire == put {
      assert wire[..4] == b[at..at + 4] && put[..4] == PutWord(h.length);
      assert wire[4..8] == b[at + 4..at + 8] && put[4..8] == PutWord(h.id);
      assert wire[8..12] == b[at + 8..at + 12] && put[8..12] == PutWord(h.status);
      assert wire[12..] == b[at + 12..at + 16] && put[12..] == PutWord(h.seqNum);
    }
  }

  /** What a receiver makes of a header that was sent, whatever follows it. */
  lemma HeaderRoundTrip(h: Header, rest: seq<byte>)
    ensures HeaderAt(PutHeader(h) + rest, 0) == h
  {
    var b := PutHeader(h) + rest;
    assert b[0..0 + HEADER_SIZE] == PutHeader(h);
    HeaderIsPut(b, 0, h);
  }

  /** A response is told by the top bit of its command_id, the first bit of the fifth octet. */
  lemma ResponseBit(b: seq<byte>, at: nat)
    requires at + HEADER_SIZE <= |b|
    ensures IsResponse(HeaderAt(b, at)) <==> b[at + 4] >= 0x80
  {
  }

  /** The conversion of a length to int: itself below 2^31, and otherwise 2^32 less. */
  lemma IntOfLength(n: uint32)
    ensures n < 0x8000_0000 ==> ToInt(n) == n
    ensures n >= 0x8000_0000 ==> ToInt(n) == n - 0x1_0000_0000
  {
  }

  /** A header read from a stream is the header of any piece of the stream that starts there. */
  lemma HeaderOfPiece(b: seq<byte>, at: nat, n: nat)
    requires HEADER_SIZE <= n && at + n <= |b|
    ensures HeaderAt(b[at..at + n], 0) == HeaderAt(b, at)
  {
  }

  /** A PDU whose command_length is its own length. */
  predicate Truthful(pdu: seq<byte>) {
    |pdu| >= HEADER_SIZE && HeaderAt(pdu, 0).length == |pdu|
  }

  /** Which is to say: its first four octets are its length. */
  lemma TruthfulIsPut(pdu: seq<byte>)
    ensures Truthful(pdu) <==> HEADER_SIZE <= |pdu| < 0x1_0000_0000 && pdu[0..4] == PutWord(|pdu|)
  {
    if HEADER_SIZE <= |pdu| < 0x1_0000_0000 {
      WordIsPut(pdu, 0, |pdu|);
    }
  }

  function Concat(pieces: seq<seq<byte>>): seq<byte> {
    if pieces == [] then [] else Concat(pieces[..|pieces| - 1]) + pieces[|pieces| - 1]
  }

  lemma ConcatSnoc(pieces: seq<seq<byte>>, last: seq<byte>)
    ensures Concat(pieces + [last]) == Concat(pieces) + last
  {
    assert (pieces + [last])[..|pieces|] == pieces;
  }

  /** The piece after a prefix of pieces lies in the stream right behind them. */
  lemma {:induction false} PieceAt(pieces: seq<seq<byte>>, k: nat)
    requires k < |pieces|
    ensures |Concat(pieces[..k])| + |pieces[k]| <= |Concat(pieces)|
    ensures Concat(pieces)[|Concat(pieces[..k])|..|Concat(pieces[..k])| + |pieces[k]|] == pieces[k]
  {
    var n := |pieces| - 1;
    var front := pieces[..n];
    if k == n {
      assert pieces[..k] == front;
    } else {
      PieceAt(front, k);
      assert front[..k] == pieces[..k];
      var lo := |Concat(pieces[..k])|;
      assert Concat(pieces)[lo..lo + |pieces[k]|] == Concat(front)[lo..lo + |pieces[k]|];
    }
  }
}
