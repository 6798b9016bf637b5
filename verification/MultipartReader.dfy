/**
 A reader of multipart bodies after section 5.1.1 of RFC 2046, and the round trip of the printed body through it.
 */
module MultipartReader {
  import Geodata
  import opened Text
  import opened Multipart

  // ---------------------------------------------------------------- reading

  function SkipPadding(s: string): string {
    if s != "" && (s[0] == ' ' || s[0] == '\t') then SkipPadding(s[1..]) else s
  }

  /** The header block ends at the first empty line; a part may have no headers, or no body. */
  function SplitPart(entity: string): Part {
    if CRLF <= entity then Part("", entity[2..])
    else match Find(entity, CRLF + CRLF, 0)
         case None => Part(entity, "")
         case Some(n) => Part(entity[..n + 2], entity[n + 4..])
  }

  /** What follows the end of a boundary line. */
  function LineEnd(s: string): (r: Option<string>)
    ensures r.Some? ==> |r.value| < |s|
  {
    PaddingShrinks(s);
    var line := SkipPadding(s);
    if CRLF <= line then Some(line[2..]) else None
  }

  lemma PaddingShrinks(s: string)
    ensures |SkipPadding(s)| <= |s|
  {
  }

  /** The text up to the first delimiter, and what follows the delimiter. */
  function Cut(boundary: string, s: string): (r: Option<(string, string)>)
    ensures r.Some? ==> |r.value.1| < |s| && s == r.value.0 + (Delimiter(boundary) + r.value.1)
  {
    match Find(s, Delimiter(boundary), 0)
    case None => None
    case Some(n) =>
      var after := n + |Delimiter(boundary)|;
      assert s == s[..n] + (s[n..after] + s[after..]);
      Some((s[..n], s[after..]))
  }

  /** `s` follows a boundary: the closing mark, or the end of the boundary line and the parts up to the next boundaries. */
  function ReadParts(boundary: string, s: string): Option<seq<Part>>
    decreases |s|
  {
    if "--" <= s then Some([])
    else match LineEnd(s)
         case None => None
         case Some(entity) =>
           match Cut(boundary, entity)
           case None => None
           case Some(cut) =>
             match ReadParts(boundary, cut.1)
             case None => None
             case Some(rest) => Some([SplitPart(cut.0)] + rest)
  }

  /** The first boundary opens the body or follows a preamble. */
  function Read(boundary: string, body: string): Option<seq<Part>> {
    if DashBoundary(boundary) <= body then ReadParts(boundary, body[|DashBoundary(boundary)|..])
    else match Find(body, Delimiter(boundary), 0)
         case None => None
         case Some(n) => ReadParts(boundary, body[n + |Delimiter(boundary)|..])
  }

  // ---------------------------------------------------------------- boundary lines

  /** No line of `s` begins with the dash-boundary, the first line included. */
  ghost predicate NoBoundaryLine(boundary: string, s: string) {
    !(DashBoundary(boundary) <= s) && !Occurs(s, Delimiter(boundary))
  }

  /** A constant line of the body: no carriage return inside, no dash in front. */
  ghost predicate PlainLine(line: string) {
    '\r' !in line && (line != "" ==> line[0] != '-')
  }

  lemma OccurrenceChar(s: string, t: string, i: int, k: nat)
    requires OccursAt(s, t, i) && k < |t|
    ensures s[i + k] == t[k]
  {
    assert s[i..i + |t|][k] == s[i + k];
  }

  lemma PlainStart(line: string, rest: string)
    requires PlainLine(line)
    ensures (line + CRLF + rest)[0] != '-'
  {
  }

  /** A delimiter stands at the end of a line exactly when the next line begins with the dash-boundary. */
  lemma DelimiterAtEnd(boundary: string, line: string, rest: string)
    ensures OccursAt(line + CRLF + rest, Delimiter(boundary), |line|) <==> DashBoundary(boundary) <= rest
  {
    var s, d := line + CRLF + rest, Delimiter(boundary);
    assert s[|line|..] == CRLF + rest;
    if OccursAt(s, d, |line|) {
      assert s[|line|..|line| + |d|] == (CRLF + rest)[..|d|];
      assert d[2..] == rest[..|d| - 2];
    }
    if DashBoundary(boundary) <= rest {
      assert s[|line|..|line| + |d|] == d;
    }
  }

  /** A delimiter met in a plain line and its sequel lies at the end of the line or in the sequel. */
  lemma DelimiterBehind(boundary: string, line: string, rest: string, i: int)
    requires PlainLine(line) && OccursAt(line + CRLF + rest, Delimiter(boundary), i)
    ensures i == |line| || OccursAt(rest, Delimiter(boundary), i - |line| - 2)
  {
    var s, d, n := line + CRLF + rest, Delimiter(boundary), |line| + 2;
    OccurrenceChar(s, d, i, 0);
    assert s[n..|s|] == rest;
    assert forall k :: 0 <= k < |line| ==> s[k] == line[k];
    if n <= i {
      OccursInWindow(s, d, n, |s|, i - n);
    }
  }

  lemma DelimiterMoves(boundary: string, line: string, rest: string, i: int)
    requires OccursAt(rest, Delimiter(boundary), i)
    ensures OccursAt(line + CRLF + rest, Delimiter(boundary), |line| + 2 + i)
  {
    var s, n := line + CRLF + rest, |line| + 2;
    assert s[n..|s|] == rest;
    OccursInWindow(s, Delimiter(boundary), n, |s|, i);
  }

  lemma PlainLineFirst(boundary: string, line: string, rest: string)
    requires PlainLine(line)
    ensures NoBoundaryLine(boundary, line + CRLF + rest) <==> NoBoundaryLine(boundary, rest)
  {
    var s, d := line + CRLF + rest, Delimiter(boundary);
    PlainStart(line, rest);
    DelimiterAtEnd(boundary, line, rest);
    if i :| OccursAt(s, d, i) {
      DelimiterBehind(boundary, line, rest, i);
    }
    if i :| OccursAt(rest, d, i) {
      DelimiterMoves(boundary, line, rest, i);
    }
  }

  lemma {:induction false} PlainLinesFirst(boundary: string, lines: seq<string>, rest: string)
    requires forall k :: 0 <= k < |lines| ==> PlainLine(lines[k])
    ensures NoBoundaryLine(boundary, Lines(lines) + rest) <==> NoBoundaryLine(boundary, rest)
  {
    if lines == [] {
      assert Lines(lines) + rest == rest;
    } else {
      PlainLinesFirst(boundary, lines[1..], rest);
      PlainLineFirst(boundary, lines[0], Lines(lines[1..]) + rest);
      assert Lines(lines) + rest == lines[0] + CRLF + (Lines(lines[1..]) + rest);
    }
  }

  /** CRLF--B cannot overlap itself: a delimiter is found where it was put, exactly when none lies in what precedes it. */
  lemma DelimiterFound(boundary: string, before: string, after: string)
    requires '\r' !in boundary
    ensures Find(before + (Delimiter(boundary) + after), Delimiter(boundary), 0) == Some(|before|)
            <==> !Occurs(before, Delimiter(boundary))
  {
    var d := Delimiter(boundary);
    var s := before + (d + after);
    assert s[0..|before|] == before;
    assert s[|before|..|before| + |d|] == d;
    assert forall k :: 1 <= k < |d| ==> d[k] != '\r';
    forall i | 0 <= i < |before|
      ensures OccursAt(s, d, i) <==> OccursAt(before, d, i)
    {
      OccursInWindow(s, d, 0, |before|, i);
      if OccursAt(s, d, i) && i + |d| > |before| {
        OccurrenceChar(s, d, i, |before| - i);
        assert false;
      }
    }
    if !Occurs(before, d) {
      FindIs(s, d, 0, |before|);
    }
    if i :| OccursAt(before, d, i) {
      assert OccursAt(s, d, i);
    }
  }

  // ---------------------------------------------------------------- parts

  lemma InThree(s: string, i: nat, j: nat)
    requires i <= j <= |s|
    ensures s == s[..i] + (s[i..j] + s[j..])
  {
  }

  /** A part with content is split losslessly. */
  lemma SplitKeeps(entity: string)
    requires SplitPart(entity).content != ""
    ensures Entity(SplitPart(entity)) == entity
  {
    var n := Find(entity, CRLF + CRLF, 0);
    if !(CRLF <= entity) && n.Some? {
      assert entity[n.value..n.value + 4] == CRLF + CRLF;
      assert entity[n.value + 2..n.value + 4] == CRLF;
      InThree(entity, n.value + 2, n.value + 4);
    }
  }

  /** A blank line met after a line without carriage return lies at its end or in its sequel. */
  lemma BlankAfterLine(line: string, more: string, i: nat)
    requires '\r' !in line && OccursAt(line + CRLF + more, CRLF + CRLF, i)
    ensures if CRLF <= more then |line| <= i else |line| + 2 <= i
  {
    var s := line + CRLF + more;
    OccurrenceChar(s, CRLF + CRLF, i, 0);
    OccurrenceChar(s, CRLF + CRLF, i, 2);
    OccurrenceChar(s, CRLF + CRLF, i, 3);
    assert forall k :: 0 <= k < |line| ==> s[k] == line[k];
    assert s[|line| + 1] == '\n';
    if i == |line| {
      assert more[0] == s[i + 2] && more[1] == s[i + 3];
      assert more[..2] == CRLF;
    }
  }

  lemma BlankSkipsLine(line: string, more: string)
    requires '\r' !in line && !(CRLF <= more)
    ensures Find(line + CRLF + more, CRLF + CRLF, 0) ==
            match Find(more, CRLF + CRLF, 0) case None => None case Some(n) => Some(|line| + 2 + n)
  {
    var s, blank, n := line + CRLF + more, CRLF + CRLF, |line| + 2;
    assert s[n..|s|] == more;
    forall i | 0 <= i < n
      ensures !OccursAt(s, blank, i)
    {
      if OccursAt(s, blank, i) {
        BlankAfterLine(line, more, i);
      }
    }
    FindSkip(s, blank, n);
    var r := Find(more, blank, 0);
    if r.Some? {
      FindWiden(s, blank, n, |s|, n, n + r.value);
    } else {
      var q := Find(s, blank, n);
      if q.Some? {
        FindNarrow(s, blank, n, |s|, n, q.value);
      }
    }
  }

  lemma BlankEndsLine(line: string, more: string)
    requires '\r' !in line && CRLF <= more
    ensures Find(line + CRLF + more, CRLF + CRLF, 0) == Some(|line|)
  {
    var s, blank := line + CRLF + more, CRLF + CRLF;
    assert more == CRLF + more[2..];
    assert s == line + (blank + more[2..]);
    assert s[|line|..|line| + 4] == blank;
    forall i | 0 <= i < |line|
      ensures !OccursAt(s, blank, i)
    {
      if OccursAt(s, blank, i) {
        BlankAfterLine(line, more, i);
      }
    }
    FindIs(s, blank, 0, |line|);
  }

  /** A header block of plain nonempty lines ends at the blank line printed after it. */
  lemma {:induction false} HeadersEnd(headers: seq<string>, content: string)
    requires headers != []
    requires forall k :: 0 <= k < |headers| ==> '\r' !in headers[k] && headers[k] != ""
    ensures |Lines(headers)| >= 2
    ensures Find(Lines(headers) + (CRLF + content), CRLF + CRLF, 0) == Some(|Lines(headers)| - 2)
  {
    var line, more := headers[0], Lines(headers[1..]) + (CRLF + content);
    assert Lines(headers) + (CRLF + content) == line + CRLF + more;
    if headers[1..] == [] {
      BlankEndsLine(line, more);
    } else {
      assert more[0] == headers[1][0];
      HeadersEnd(headers[1..], content);
      BlankSkipsLine(line, more);
    }
  }

  lemma FindSkip(s: string, t: string, n: nat)
    requires forall i :: 0 <= i < n ==> !OccursAt(s, t, i)
    ensures Find(s, t, 0) == Find(s, t, n)
  {
    var r := Find(s, t, n);
    if r.Some? {
      FindIs(s, t, 0, r.value);
    }
  }

  lemma SplitPrinted(headers: seq<string>, content: string)
    requires headers != []
    requires forall k :: 0 <= k < |headers| ==> '\r' !in headers[k] && headers[k] != ""
    ensures SplitPart(Entity(Part(Lines(headers), content))) == Part(Lines(headers), content)
  {
    var e := Lines(headers) + (CRLF + content);
    HeadersEnd(headers, content);
    assert e[0] == headers[0][0] && !(CRLF <= e);
    assert e[..|Lines(headers)|] == Lines(headers);
    assert e[|Lines(headers)| + 2..] == content;
  }

  /** A printed part is cut where it was printed, unless a delimiter lies in it. */
  lemma CutPrinted(boundary: string, before: string, after: string)
    requires '\r' !in boundary
    ensures var r := Cut(boundary, before + (Delimiter(boundary) + after));
            r.Some? && if Occurs(before, Delimiter(boundary)) then |r.value.0| < |before| else r.value == (before, after)
  {
    var d := Delimiter(boundary);
    var s := before + (d + after);
    DelimiterFound(boundary, before, after);
    assert s[|before|..|before| + |d|] == d;
    assert OccursAt(s, d, |before|);
    assert s[..|before|] == before;
    assert s[|before| + |d|..] == after;
  }

  lemma ReadStep(boundary: string, e: string)
    ensures ReadParts(boundary, CRLF + e) ==
            match Cut(boundary, e)
            case None => None
            case Some(cut) =>
              match ReadParts(boundary, cut.1)
              case None => None
              case Some(rest) => Some([SplitPart(cut.0)] + rest)
  {
    var s := CRLF + e;
    assert s[0] == '\r';
    assert s[2..] == e;
    assert SkipPadding(s) == s;
  }

  /** A printed part without a delimiter in it is read back, then the rest. */
  lemma ReadPrinted(boundary: string, p: Part, rest: string)
    requires '\r' !in boundary && !Occurs(Entity(p), Delimiter(boundary))
    ensures ReadParts(boundary, CRLF + (Entity(p) + (Delimiter(boundary) + rest))) ==
            match ReadParts(boundary, rest)
            case None => None
            case Some(more) => Some([SplitPart(Entity(p))] + more)
  {
    CutPrinted(boundary, Entity(p), rest);
    ReadStep(boundary, Entity(p) + (Delimiter(boundary) + rest));
  }

  /** A printed part with a delimiter in it is not read back. */
  lemma ReadBroken(boundary: string, p: Part, rest: string)
    requires '\r' !in boundary && p.content != "" && Occurs(Entity(p), Delimiter(boundary))
    ensures match ReadParts(boundary, CRLF + (Entity(p) + (Delimiter(boundary) + rest)))
            case None => true
            case Some(parts) => parts != [] && parts[0] != p
  {
    var e := Entity(p) + (Delimiter(boundary) + rest);
    CutPrinted(boundary, Entity(p), rest);
    ReadStep(boundary, e);
    var text := Cut(boundary, e).value.0;
    if SplitPart(text) == p {
      SplitKeeps(text);
    }
  }

  /** The delimiter test on a printed part is the boundary-line test on its variable text. */
  lemma EntityClean(boundary: string, headers: seq<string>, lines: seq<string>, tail: string)
    requires headers != [] && forall k :: 0 <= k < |headers| ==> PlainLine(headers[k]) && headers[k] != ""
    requires forall k :: 0 <= k < |lines| ==> PlainLine(lines[k])
    ensures Occurs(Entity(Part(Lines(headers), Lines(lines) + tail)), Delimiter(boundary)) <==> !NoBoundaryLine(boundary, tail)
  {
    var all := headers + [""] + lines;
    EntityIs(headers, lines, tail);
    PlainLinesFirst(boundary, all, tail);
    assert (Lines(all) + tail)[0] == all[0][0];
  }

  lemma EncapsulatedStep(boundary: string, p: Part, more: seq<Part>)
    ensures Encapsulated(boundary, [p] + more) == CRLF + (Entity(p) + (Delimiter(boundary) + Encapsulated(boundary, more)))
  {
    assert ([p] + more)[1..] == more;
  }

  /** Printed parts read back as themselves when none holds a delimiter. */
  lemma {:induction false} ReadClean(boundary: string, parts: seq<Part>)
    requires '\r' !in boundary
    requires forall p :: p in parts ==> !Occurs(Entity(p), Delimiter(boundary)) && SplitPart(Entity(p)) == p
    ensures ReadParts(boundary, Encapsulated(boundary, parts)) == Some(parts)
  {
    if parts == [] {
    } else {
      ReadClean(boundary, parts[1..]);
      assert parts == [parts[0]] + parts[1..];
      EncapsulatedStep(boundary, parts[0], parts[1..]);
      ReadPrinted(boundary, parts[0], Encapsulated(boundary, parts[1..]));
    }
  }

  /** And do not when one does. */
  lemma {:induction false} ReadDirty(boundary: string, parts: seq<Part>, k: nat)
    requires '\r' !in boundary && k < |parts|
    requires parts[k].content != "" && Occurs(Entity(parts[k]), Delimiter(boundary))
    requires forall i :: 0 <= i < k ==> !Occurs(Entity(parts[i]), Delimiter(boundary)) && SplitPart(Entity(parts[i])) == parts[i]
    ensures ReadParts(boundary, Encapsulated(boundary, parts)) != Some(parts)
  {
    assert parts == [parts[0]] + parts[1..];
    EncapsulatedStep(boundary, parts[0], parts[1..]);
    if k == 0 {
      ReadBroken(boundary, parts[0], Encapsulated(boundary, parts[1..]));
    } else {
      ReadDirty(boundary, parts[1..], k - 1);
      ReadPrinted(boundary, parts[0], Encapsulated(boundary, parts[1..]));
      var r := ReadParts(boundary, Encapsulated(boundary, parts[1..]));
      if r.Some? {
        assert ([parts[0]] + r.value)[1..] == r.value;
      }
    }
  }

  /** The constant header lines are plain and not empty, and the constant content lines are plain. */
  lemma SdpPlain()
    ensures forall k :: 0 <= k < |SDP_HEADERS| ==> PlainLine(SDP_HEADERS[k]) && SDP_HEADERS[k] != ""
    ensures forall k :: 0 <= k < |SDP_LINES| ==> PlainLine(SDP_LINES[k])
  {
  }

  lemma PidfPlain()
    ensures forall k :: 0 <= k < |PIDF_HEADERS| ==> PlainLine(PIDF_HEADERS[k]) && PIDF_HEADERS[k] != ""
    ensures forall k :: 0 <= k < |XML_DECLARATION| ==> PlainLine(XML_DECLARATION[k])
  {
  }

  lemma TextPlain()
    ensures forall k :: 0 <= k < |TEXT_HEADERS| ==> PlainLine(TEXT_HEADERS[k]) && TEXT_HEADERS[k] != ""
  {
  }

  lemma SdpClean(boundary: string)
    ensures var p := Part(Lines(SDP_HEADERS), Lines(SDP_LINES) + SDP_LAST);
            !Occurs(Entity(p), Delimiter(boundary)) && SplitPart(Entity(p)) == p
  {
    SdpPlain();
    EntityClean(boundary, SDP_HEADERS, SDP_LINES, SDP_LAST);
    PlainTail(boundary, SDP_LAST);
    SplitPrinted(SDP_HEADERS, Lines(SDP_LINES) + SDP_LAST);
  }

  lemma PidfClean(boundary: string, geodata: string)
    ensures var p := Part(Lines(PIDF_HEADERS), Lines(XML_DECLARATION) + geodata);
            && (!Occurs(Entity(p), Delimiter(boundary)) <==> NoBoundaryLine(boundary, geodata))
            && SplitPart(Entity(p)) == p && p.content != ""
  {
    PidfPlain();
    EntityClean(boundary, PIDF_HEADERS, XML_DECLARATION, geodata);
    SplitPrinted(PIDF_HEADERS, Lines(XML_DECLARATION) + geodata);
  }

  lemma TextClean(boundary: string, text: string)
    ensures var p := Part(Lines(TEXT_HEADERS), text);
            && (!Occurs(Entity(p), Delimiter(boundary)) <==> NoBoundaryLine(boundary, text))
            && SplitPart(Entity(p)) == p
  {
    TextPlain();
    EntityClean(boundary, TEXT_HEADERS, [], text);
    assert Lines([]) + text == text;
    SplitPrinted(TEXT_HEADERS, text);
  }

  lemma PlainTail(boundary: string, s: string)
    requires PlainLine(s)
    ensures NoBoundaryLine(boundary, s)
  {
    if i :| OccursAt(s, Delimiter(boundary), i) {
      OccurrenceChar(s, Delimiter(boundary), i, 0);
    }
  }

  /** Three parts, of which only the last two may hold a delimiter, and only with content. */
  lemma ReadExactly(boundary: string, p: Part, q: Part, r: Part)
    requires '\r' !in boundary && !Occurs(Entity(p), Delimiter(boundary))
    requires SplitPart(Entity(p)) == p && SplitPart(Entity(q)) == q && SplitPart(Entity(r)) == r
    requires q.content != "" && (Occurs(Entity(r), Delimiter(boundary)) ==> r.content != "")
    ensures Read(boundary, DashBoundary(boundary) + Encapsulated(boundary, [p, q, r])) == Some([p, q, r])
            <==> !Occurs(Entity(q), Delimiter(boundary)) && !Occurs(Entity(r), Delimiter(boundary))
  {
    var s := DashBoundary(boundary) + Encapsulated(boundary, [p, q, r]);
    assert s[|DashBoundary(boundary)|..] == Encapsulated(boundary, [p, q, r]);
    if Occurs(Entity(q), Delimiter(boundary)) {
      ReadDirty(boundary, [p, q, r], 1);
    } else if Occurs(Entity(r), Delimiter(boundary)) {
      ReadDirty(boundary, [p, q, r], 2);
    } else {
      ReadClean(boundary, [p, q, r]);
    }
  }

  /**
   The round trip: a boundary without carriage return, and any presence document and text. The body reads back as
   exactly its three parts if and only if no line of the document or of the text begins with the dash-boundary.
   */
  lemma RoundTrip(boundary: string, geodata: string, text: string)
    requires '\r' !in boundary
    ensures Read(boundary, Body(boundary, geodata, text)) == Some(Parts(geodata, text))
            <==> NoBoundaryLine(boundary, geodata) && NoBoundaryLine(boundary, text)
  {
    SdpClean(boundary);
    PidfClean(boundary, geodata);
    TextClean(boundary, text);
    PlainTail(boundary, "");
    ReadExactly(boundary, Part(Lines(SDP_HEADERS), Lines(SDP_LINES) + SDP_LAST),
                Part(Lines(PIDF_HEADERS), Lines(XML_DECLARATION) + geodata), Part(Lines(TEXT_HEADERS), text));
  }

  /** The body and its terminator fit the buffer exactly when this many characters are free for its variable text. */
  lemma BodyFits(boundary: string, geodata: string, text: string)
    ensures |Body(boundary, geodata, text)| < BUFFER_SIZE <==> 4 * |boundary| + |geodata| + |text| <= 3680
  {
    ConstantLengths();
    var ps := Parts(geodata, text);
    ThreePartsLength(boundary, ps[0], ps[1], ps[2]);
  }

  lemma ConstantLengths()
    ensures |Lines(SDP_HEADERS)| == 31 && |Lines(SDP_LINES) + SDP_LAST| == 120
    ensures |Lines(PIDF_HEADERS)| == 71 && |Lines(XML_DECLARATION)| == 44 && |Lines(TEXT_HEADERS)| == 119
  {
    LinesLength(SDP_HEADERS);
    LinesLength(SDP_LINES);
    LinesLength(SDP_LINES[1..]);
    LinesLength(SDP_LINES[1..][1..]);
    LinesLength(SDP_LINES[1..][1..][1..]);
    LinesLength(PIDF_HEADERS);
    LinesLength(XML_DECLARATION);
    LinesLength(TEXT_HEADERS);
    LinesLength(TEXT_HEADERS[1..]);
  }

  lemma ThreePartsLength(boundary: string, p: Part, q: Part, r: Part)
    ensures |DashBoundary(boundary) + Encapsulated(boundary, [p, q, r])|
            == 4 * |boundary| + |Entity(p)| + |Entity(q)| + |Entity(r)| + 24
  {
    EncapsulatedStep(boundary, p, [q, r]);
    EncapsulatedStep(boundary, q, [r]);
    EncapsulatedStep(boundary, r, []);
    assert [p] + [q, r] == [p, q, r] && [q] + [r] == [q, r] && [r] + [] == [r];
  }

  lemma LinesLength(lines: seq<string>)
    requires lines != []
    ensures |Lines(lines)| == |lines[0]| + 2 + |Lines(lines[1..])|
  {
  }

  /** Nothing before an extracted document can be taken for its start when no '<' but the first stands before it. */
  lemma ExtractBehind(before: string, geodata: string)
    requires Geodata.Extract(geodata) == Some(geodata)
    requires |before| >= 2 && before[1] != 'p' && forall i :: 1 <= i < |before| ==> before[i] != '<'
    ensures Geodata.Extract(before + geodata) == Some(geodata)
  {
    NotBefore(before, geodata, Geodata.OPEN);
    assert (before + geodata)[|before|..|before + geodata|] == geodata;
    ExtractFrom(before + geodata, |before|);
  }

  /** A page that ends with a document, and has no opening tag before it. */
  lemma ExtractFrom(page: string, n: nat)
    requires n <= |page| && Geodata.Extract(page[n..|page|]) == Some(page[n..|page|])
    requires forall i :: 0 <= i < n ==> !OccursAt(page, Geodata.OPEN, i)
    ensures Geodata.Extract(page) == Some(page[n..|page|])
  {
    var start, end := Geodata.ExtractBounds(page[n..|page|]);
    assert start == 0 && n + end == |page|;
    FindSkip(page, Geodata.OPEN, n);
    FindWiden(page, Geodata.OPEN, n, |page|, n, n);
    FindWiden(page, Geodata.CLOSE, n, |page|, n, |page| - 11);
    Geodata.ExtractIs(page, n, |page|);
  }

  /** A tag that begins with "<p" does not begin in such a text. */
  lemma NotBefore(before: string, after: string, tag: string)
    requires |tag| >= 2 && tag[0] == '<' && tag[1] == 'p'
    requires |before| >= 2 && before[1] != 'p' && forall i :: 1 <= i < |before| ==> before[i] != '<'
    ensures forall i :: 0 <= i < |before| ==> !OccursAt(before + after, tag, i)
  {
    var s := before + after;
    assert forall i :: 0 <= i < |before| ==> s[i] == before[i];
    forall i | 0 <= i < |before|
      ensures !OccursAt(s, tag, i)
    {
      if OccursAt(s, tag, i) {
        OccurrenceChar(s, tag, i, 0);
        OccurrenceChar(s, tag, i, 1);
      }
    }
  }

  lemma DeclarationChars()
    ensures var line := XML_DECLARATION[0];
            |line| > 2 && line[1] != 'p' && forall i :: 1 <= i < |line| ==> line[i] != '<'
  {
    var line := "<?xml version = \"1.0\" encoding = \"UTF-8\"?>";
    assert XML_DECLARATION[0] == line;
  }

  lemma BehindDeclaration(geodata: string)
    requires Geodata.Extract(geodata) == Some(geodata)
    ensures Geodata.Extract(Lines(XML_DECLARATION) + geodata) == Some(geodata)
  {
    DeclarationChars();
    LinesLength(XML_DECLARATION);
    assert Lines(XML_DECLARATION[1..]) == "";
    BehindLine(XML_DECLARATION[0], geodata);
    assert Lines(XML_DECLARATION) == XML_DECLARATION[0] + CRLF;
  }

  lemma BehindLine(line: string, geodata: string)
    requires Geodata.Extract(geodata) == Some(geodata)
    requires |line| > 2 && line[1] != 'p' && forall i :: 1 <= i < |line| ==> line[i] != '<'
    ensures Geodata.Extract(line + CRLF + geodata) == Some(geodata)
  {
    ExtractBehind(line + CRLF, geodata);
  }

  lemma SecondAndThird(geodata: string, text: string)
    ensures |Parts(geodata, text)| == 3
    ensures Parts(geodata, text)[1].content == Lines(XML_DECLARATION) + geodata
    ensures Parts(geodata, text)[2].content == text
  {
  }

  /**
   From the fetched page to the receiver of the body: the extracted document comes through the multipart body, and
   extraction from the second part the reader delivers gives the document that extraction from the page gave.
   */
  lemma DocumentDelivered(boundary: string, page: string, text: string)
    requires '\r' !in boundary && Geodata.Extract(page).Some?
    requires NoBoundaryLine(boundary, Geodata.Extract(page).value) && NoBoundaryLine(boundary, text)
    ensures var parts := Read(boundary, Body(boundary, Geodata.Extract(page).value, text));
            && parts.Some? && |parts.value| == 3
            && Geodata.Extract(parts.value[1].content) == Geodata.Extract(page)
            && parts.value[2].content == text
  {
    var g := Geodata.Extract(page).value;
    RoundTrip(boundary, g, text);
    Geodata.ExtractIdempotent(page);
    BehindDeclaration(g);
    SecondAndThird(g, text);
  }

  /** And what the receiver is told of the parts' types, in the order of the parts. */
  lemma TypesDelivered(boundary: string, geodata: string, text: string)
    requires '\r' !in boundary && NoBoundaryLine(boundary, geodata) && NoBoundaryLine(boundary, text)
    ensures var parts := Read(boundary, Body(boundary, geodata, text));
            && parts.Some? && |parts.value| == 3
            && "Content-Type: application/sdp\r\n" <= parts.value[0].headers
            && "Content-Type: application/pidf+xml\r\n" <= parts.value[1].headers
            && "Content-Type: text/plain; charset=UTF-8\r\n" <= parts.value[2].headers
  {
    RoundTrip(boundary, geodata, text);
    TypesOfParts(geodata, text);
  }

  lemma TypesOfParts(geodata: string, text: string)
    ensures var parts := Parts(geodata, text);
            && |parts| == 3
            && "Content-Type: application/sdp\r\n" <= parts[0].headers
            && "Content-Type: application/pidf+xml\r\n" <= parts[1].headers
            && "Content-Type: text/plain; charset=UTF-8\r\n" <= parts[2].headers
  {
    FirstLine(SDP_HEADERS);
    FirstLine(PIDF_HEADERS);
    FirstLine(TEXT_HEADERS);
  }

  lemma FirstLine(lines: seq<string>)
    requires lines != []
    ensures lines[0] + CRLF <= Lines(lines)
  {
  }
}
