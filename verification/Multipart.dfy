/**
 The multipart body of the INVITE (sip_make_body) against a reader of section 5.1.1 of RFC 2046.
 */
module Multipart {
  import opened Text

  const CRLF := "\r\n"

  /** The stack buffer the body is appended into, and its terminator. */
  const BUFFER_SIZE := 4096

  /** A body part: its header block, each field ended by CRLF, and what follows the blank line. */
  datatype Part = Part(headers: string, content: string)

  function DashBoundary(boundary: string): string {
    "--" + boundary
  }

  function Delimiter(boundary: string): string {
    CRLF + DashBoundary(boundary)
  }

  function Lines(lines: seq<string>): string {
    if lines == [] then "" else lines[0] + CRLF + Lines(lines[1..])
  }

  // ---------------------------------------------------------------- printing

  const SDP_HEADERS := ["Content-Type: application/sdp"]
  const SDP_LINES := [
    "(v): 0",
    "(o): itscc 0 0 IN IP4 0.0.0.0",
    "(s): its",
    "(c): IN IP4 0.0.0.0",
    "(t): 0 0",
    "(m): audio 1234 RTP/AVP 8"]
  const SDP_LAST := "(a): inactive"
  const PIDF_HEADERS := ["Content-Type: application/pidf+xml", "Content-ID: target123@172.16.78.4"]
  const XML_DECLARATION := ["<?xml version = \"1.0\" encoding = \"UTF-8\"?>"]
  const TEXT_HEADERS := [
    "Content-Type: text/plain; charset=UTF-8",
    "Content-Transfer-Encoding: 8bit",
    "Content-Disposition: form-data; name=\"part\""]

  /** The three parts the body is meant to carry. */
  function Parts(geodata: string, text: string): seq<Part> {
    [Part(Lines(SDP_HEADERS), Lines(SDP_LINES) + SDP_LAST),
     Part(Lines(PIDF_HEADERS), Lines(XML_DECLARATION) + geodata),
     Part(Lines(TEXT_HEADERS), text)]
  }

  function Entity(p: Part): string {
    p.headers + (CRLF + p.content)
  }

  /** What follows the first boundary: each entity between a boundary line and the next boundary, then the closing mark. */
  function Encapsulated(boundary: string, parts: seq<Part>): string {
    if parts == [] then "--" + CRLF
    else CRLF + (Entity(parts[0]) + (Delimiter(boundary) + Encapsulated(boundary, parts[1..])))
  }

  function Body(boundary: string, geodata: string, text: string): string {
    DashBoundary(boundary) + Encapsulated(boundary, Parts(geodata, text))
  }

  /** pj_strcat2: appends in place; a null source appends nothing. */
  method Append(body: StringRef, source: Option<string>)
    modifies body
    ensures body.s == old(body.s) + (if source.Some? then source.value else "")
  {
    if source.Some? {
      body.s := body.s + source.value;
    }
  }

  /** One constant line; `was` is the buffer before the first of `lines`. */
  method AppendLine(body: StringRef, line: string, ghost was: string, ghost lines: seq<string>, ghost k: nat)
    requires k < |lines| && line == lines[k] && body.s == was + Lines(lines[..k])
    modifies body
    ensures body.s == was + Lines(lines[..k + 1])
  {
    LinesAppend(lines[..k], [line]);
    assert lines[..k] + [line] == lines[..k + 1];
    assert Lines([line]) == line + CRLF;
    Append(body, Some(line + CRLF));
  }

  /** A boundary line, of which only the first ones and the last differ in what stands around the boundary. */
  method AppendBoundary(body: StringRef, before: string, boundary: string, after: string)
    modifies body
    ensures body.s == old(body.s) + (before + boundary + after)
  {
    Append(body, Some(before));
    Append(body, Some(boundary));
    Append(body, Some(after));
  }

  method AppendSdp(body: StringRef)
    modifies body
    ensures body.s == old(body.s) + Lines(SDP_HEADERS + [""] + SDP_LINES + [SDP_LAST])
  {
    ghost var was, all := body.s, SDP_HEADERS + [""] + SDP_LINES + [SDP_LAST];
    AppendLine(body, "Content-Type: application/sdp", was, all, 0);
    AppendLine(body, "", was, all, 1);
    AppendLine(body, "(v): 0", was, all, 2);
    AppendLine(body, "(o): itscc 0 0 IN IP4 0.0.0.0", was, all, 3);
    AppendLine(body, "(s): its", was, all, 4);
    AppendLine(body, "(c): IN IP4 0.0.0.0", was, all, 5);
    AppendLine(body, "(t): 0 0", was, all, 6);
    AppendLine(body, "(m): audio 1234 RTP/AVP 8", was, all, 7);
    AppendLine(body, "(a): inactive", was, all, 8);
    assert all[..9] == all;
  }

  method AppendPidf(body: StringRef, geodata: string)
    modifies body
    ensures body.s == old(body.s) + (Lines(PIDF_HEADERS + [""] + XML_DECLARATION) + geodata)
  {
    ghost var was, all := body.s, PIDF_HEADERS + [""] + XML_DECLARATION;
    AppendLine(body, "Content-Type: application/pidf+xml", was, all, 0);
    AppendLine(body, "Content-ID: target123@172.16.78.4", was, all, 1);
    AppendLine(body, "", was, all, 2);
    AppendLine(body, "<?xml version = \"1.0\" encoding = \"UTF-8\"?>", was, all, 3);
    assert all[..4] == all;
    Append(body, Some(geodata));
    Assoc(was, Lines(all), geodata);
  }

  method AppendText(body: StringRef, text: Option<string>)
    modifies body
    ensures body.s == old(body.s) + (Lines(TEXT_HEADERS + [""]) + if text.Some? then text.value else "")
  {
    ghost var was, all := body.s, TEXT_HEADERS + [""];
    AppendLine(body, "Content-Type: text/plain; charset=UTF-8", was, all, 0);
    AppendLine(body, "Content-Transfer-Encoding: 8bit", was, all, 1);
    AppendLine(body, "Content-Disposition: form-data; name=\"part\"", was, all, 2);
    AppendLine(body, "", was, all, 3);
    assert all[..4] == all;
    Append(body, text);
    Assoc(was, Lines(all), if text.Some? then text.value else "");
  }

  /** sip_make_body. The text is null when its conversion failed. */
  method MakeBody(body: StringRef, boundary: string, text: Option<string>, geodata: string)
    modifies body
    ensures body.s == old(body.s) + Body(boundary, geodata, if text.Some? then text.value else "")
  {
    AppendBoundary(body, "--", boundary, "\r\n");
    AppendSdp(body);
    AppendBoundary(body, "--", boundary, "\r\n");
    AppendPidf(body, geodata);
    AppendBoundary(body, "\r\n--", boundary, "\r\n");
    AppendText(body, text);
    AppendBoundary(body, "\r\n--", boundary, "--\r\n");
    AppendedIsBody(old(body.s), boundary, geodata, if text.Some? then text.value else "");
  }

  // ---------------------------------------------------------------- layout lemmas

  lemma {:induction false} LinesAppend(a: seq<string>, b: seq<string>)
    ensures Lines(a + b) == Lines(a) + Lines(b)
  {
    if a == [] {
      assert a + b == b;
    } else {
      LinesAppend(a[1..], b);
      assert (a + b)[1..] == a[1..] + b;
      Assoc(a[0] + CRLF, Lines(a[1..]), Lines(b));
    }
  }

  lemma EntityIs(headers: seq<string>, lines: seq<string>, tail: string)
    ensures Entity(Part(Lines(headers), Lines(lines) + tail)) == Lines(headers + [""] + lines) + tail
    ensures lines == [] ==> Entity(Part(Lines(headers), tail)) == Lines(headers + [""]) + tail
  {
    LinesAppend(headers + [""], lines);
    LinesAppend(headers, [""]);
    assert Lines([""]) == CRLF;
    if lines == [] {
      assert headers + [""] + lines == headers + [""];
    }
  }

  /** What MakeBody appends, in its order, is the body. */
  lemma AppendedIsBody(was: string, boundary: string, geodata: string, text: string)
    ensures was + ("--" + boundary + "\r\n") + Lines(SDP_HEADERS + [""] + SDP_LINES + [SDP_LAST])
            + ("--" + boundary + "\r\n") + (Lines(PIDF_HEADERS + [""] + XML_DECLARATION) + geodata)
            + ("\r\n--" + boundary + "\r\n") + (Lines(TEXT_HEADERS + [""]) + text) + ("\r\n--" + boundary + "--\r\n")
            == was + Body(boundary, geodata, text)
  {
    var ps := Parts(geodata, text);
    EntityIs(SDP_HEADERS, SDP_LINES, SDP_LAST);
    EntityIs(PIDF_HEADERS, XML_DECLARATION, geodata);
    EntityIs(TEXT_HEADERS, [], text);
    LinesAppend(SDP_HEADERS + [""] + SDP_LINES, [SDP_LAST]);
    assert Lines([SDP_LAST]) == SDP_LAST + CRLF;
    Assoc(Lines(SDP_HEADERS + [""] + SDP_LINES), SDP_LAST, CRLF);
    assert Lines(SDP_HEADERS + [""] + SDP_LINES + [SDP_LAST]) == Entity(ps[0]) + CRLF;
    Regroup(was, boundary, ps[0], ps[1], ps[2]);
  }

  lemma Regroup(was: string, boundary: string, p: Part, q: Part, r: Part)
    ensures was + ("--" + boundary + "\r\n") + (Entity(p) + CRLF) + ("--" + boundary + "\r\n") + Entity(q)
            + ("\r\n--" + boundary + "\r\n") + Entity(r) + ("\r\n--" + boundary + "--\r\n")
            == was + (DashBoundary(boundary) + Encapsulated(boundary, [p, q, r]))
  {
    var d := Delimiter(boundary);
    var e3 := Encapsulated(boundary, []);
    var e2 := CRLF + (Entity(r) + (d + e3));
    var e1 := CRLF + (Entity(q) + (d + e2));
    assert Encapsulated(boundary, [r]) == e2;
    assert Encapsulated(boundary, [q, r]) == e1;
    assert "\r\n--" + boundary + "--\r\n" == d + e3;
    assert "\r\n--" + boundary + "\r\n" == d + CRLF;
    assert [p, q, r][1..] == [q, r];
    assert Encapsulated(boundary, [p, q, r]) == CRLF + (Entity(p) + (d + e1));
    var first := was + ("--" + boundary + "\r\n");
    assert first + (Entity(p) + CRLF) + ("--" + boundary + "\r\n") == first + Entity(p) + (d + CRLF);
    RegroupShort(first + Entity(p) + (d + CRLF) + Entity(q), d, Entity(r), e3);
    RegroupShort(first + Entity(p), d, Entity(q), d + e2);
    assert first + Entity(p) + (d + e1) == was + (DashBoundary(boundary) + (CRLF + (Entity(p) + (d + e1))));
  }

  lemma RegroupShort(was: string, d: string, entity: string, rest: string)
    ensures was + (d + CRLF) + entity + (d + rest) == was + (d + (CRLF + (entity + (d + rest))))
  {
  }
}
