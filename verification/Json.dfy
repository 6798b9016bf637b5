/**
 The JSON printer of the report (sms112_json.cpp) against a reader of sections 4, 6 and 7 of RFC 8259.
 */
module Json {
  import opened Text

  const FORM_FEED := '\U{000C}'
  const BACKSPACE := '\U{0008}'

  /** The replacement table of sms112_escape_spec_sym. */
  const REPLACEMENTS: seq<(char, string)> := [
    ('"', "\\\""), ('/', "\\/"), ('\\', "\\\\"), (FORM_FEED, "\\f"), ('\n', "\\n"), ('\r', "\\r"), ('\t', "\\t")]

  // ---------------------------------------------------------------- escaping

  /** The escape of one character, after the two-character forms of section 7 of RFC 8259. */
  function EscapeChar(c: char): string {
    match c
    case '"' => "\\\""
    case '/' => "\\/"
    case '\\' => "\\\\"
    case '\n' => "\\n"
    case '\r' => "\\r"
    case '\t' => "\\t"
    case _ => if c == FORM_FEED then "\\f" else [c]
  }

  function Escape(s: string): string {
    if s == "" then "" else EscapeChar(s[0]) + Escape(s[1..])
  }

  predicate Special(c: char) {
    c in {'"', '/', '\\', FORM_FEED, '\n', '\r', '\t'}
  }

  function Specials(s: string): nat {
    if s == "" then 0 else (if Special(s[0]) then 1 else 0) + Specials(s[1..])
  }

  lemma {:induction false} EscapeAppend(a: string, b: string)
    ensures Escape(a + b) == Escape(a) + Escape(b)
  {
    if a == "" {
      assert a + b == b;
    } else {
      EscapeAppend(a[1..], b);
      assert (a + b)[0] == a[0] && (a + b)[1..] == a[1..] + b;
      Assoc(EscapeChar(a[0]), Escape(a[1..]), Escape(b));
    }
  }

  lemma EscapeSnoc(s: string, k: nat)
    requires k < |s|
    ensures Escape(s[..k + 1]) == Escape(s[..k]) + EscapeChar(s[k])
  {
    assert s[..k + 1] == s[..k] + [s[k]];
    EscapeAppend(s[..k], [s[k]]);
    assert Escape([s[k]]) == EscapeChar(s[k]) + Escape([]);
  }

  /** std::string::replace( at, 1, with ). */
  method Replace(value: StringRef, at: nat, with: string)
    requires at < |value.s|
    modifies value
    ensures value.s == old(value.s)[..at] + with + old(value.s)[at + 1..]
  {
    value.s := value.s[..at] + with + value.s[at + 1..];
  }

  /** The inner loop of sms112_escape_spec_sym: looks one character up and replaces it in place. */
  method EscapeAt(value: StringRef, at: nat) returns (last: nat)
    requires at < |value.s|
    modifies value
    ensures value.s == old(value.s)[..at] + EscapeChar(old(value.s)[at]) + old(value.s)[at + 1..]
    ensures last + 1 == at + |EscapeChar(old(value.s)[at])|
  {
    var c := value.s[at];
    last := at;
    var i := 0;
    while i < |REPLACEMENTS|
      invariant 0 <= i <= |REPLACEMENTS|
      invariant value.s == old(value.s) && last == at
      invariant forall j :: 0 <= j < i ==> REPLACEMENTS[j].0 != c
    {
      if c == REPLACEMENTS[i].0 {
        TableIsEscape(c, i);
        Replace(value, at, REPLACEMENTS[i].1);
        last := last + |REPLACEMENTS[i].1| - 1;
        return;
      }
      i := i + 1;
    }
    TableMisses(c);
    assert value.s == value.s[..at] + [c] + value.s[at + 1..];
  }

  lemma ReplaceMiddle(done: string, rest: string, with: string)
    requires rest != ""
    ensures (done + rest)[..|done|] + with + (done + rest)[|done| + 1..] == (done + with) + rest[1..]
  {
  }

  /**
   sms112_escape_spec_sym: escapes in place. `k` counts the characters of the original that have been passed; each pass
   takes exactly one of them, and what was written is never looked at again.
   */
  method EscapeSpecSym(value: StringRef)
    modifies value
    ensures value.s == Escape(old(value.s))
  {
    ghost var was := value.s;
    ghost var k := 0;
    var st := 0;
    while st < |value.s|
      invariant 0 <= k <= |was| && st == |Escape(was[..k])|
      invariant value.s == Escape(was[..k]) + was[k..]
      decreases |was| - k
    {
      EscapeSnoc(was, k);
      ReplaceMiddle(Escape(was[..k]), was[k..], EscapeChar(was[k]));
      st := EscapeAt(value, st);
      k := k + 1;
      st := st + 1;
    }
    assert was[..k] == was;
  }

  lemma TableIsEscape(c: char, i: nat)
    requires i < |REPLACEMENTS| && REPLACEMENTS[i].0 == c
    ensures REPLACEMENTS[i].1 == EscapeChar(c)
  {
  }

  lemma TableMisses(c: char)
    requires forall j :: 0 <= j < |REPLACEMENTS| ==> REPLACEMENTS[j].0 != c
    ensures EscapeChar(c) == [c]
  {
    assert REPLACEMENTS[0].0 == '"' && REPLACEMENTS[1].0 == '/' && REPLACEMENTS[2].0 == '\\';
    assert REPLACEMENTS[3].0 == FORM_FEED && REPLACEMENTS[4].0 == '\n' && REPLACEMENTS[5].0 == '\r';
    assert REPLACEMENTS[6].0 == '\t';
  }

  lemma {:induction false} EscapeLength(s: string)
    ensures |Escape(s)| == |s| + Specials(s)
  {
    if s != "" {
      EscapeLength(s[1..]);
    }
  }

  /** No quote, slash or line break stands bare in an escaped text: the first two follow a backslash, the others are gone. */
  predicate NothingBare(t: string) {
    forall i :: 0 <= i < |t| ==>
                  && t[i] !in {FORM_FEED, '\n', '\r', '\t'}
                  && (t[i] in {'"', '/'} ==> i > 0 && t[i - 1] == '\\')
  }

  lemma {:induction false} EscapedNothingBare(s: string)
    ensures NothingBare(Escape(s))
  {
    if s != "" {
      EscapedNothingBare(s[1..]);
      var first, rest := EscapeChar(s[0]), Escape(s[1..]);
      forall i | 0 <= i < |first + rest|
        ensures (first + rest)[i] !in {FORM_FEED, '\n', '\r', '\t'}
        ensures (first + rest)[i] in {'"', '/'} ==> i > 0 && (first + rest)[i - 1] == '\\'
      {
        if i >= |first| {
          assert (first + rest)[i] == rest[i - |first|];
        }
      }
    }
  }

  // ---------------------------------------------------------------- reading a string

  predicate IsHex(c: char) {
    '0' <= c <= '9' || 'a' <= c <= 'f' || 'A' <= c <= 'F'
  }

  function HexValue(c: char): (v: nat)
    requires IsHex(c)
    ensures v < 16
  {
    if c <= '9' then c as int - '0' as int
    else if 'a' <= c then c as int - 'a' as int + 10
    else c as int - 'A' as int + 10
  }

  /** The character of a two-character escape; the four-digit form is read apart. */
  function Unescaped(c: char): Option<char> {
    match c
    case '"' => Some('"')
    case '\\' => Some('\\')
    case '/' => Some('/')
    case 'b' => Some(BACKSPACE)
    case 'f' => Some(FORM_FEED)
    case 'n' => Some('\n')
    case 'r' => Some('\r')
    case 't' => Some('\t')
    case _ => None
  }

  /** One character of a string body and what follows it. A strict reader refuses unescaped control characters. */
  function ReadChar(strict: bool, s: string): (r: Option<(char, string)>)
    ensures r.Some? ==> |r.value.1| < |s|
  {
    if s == "" || s[0] == '"' then None
    else if s[0] != '\\' then if strict && s[0] < ' ' then None else Some((s[0], s[1..]))
    else if |s| < 2 then None
    else if s[1] != 'u' then
      match Unescaped(s[1])
      case None => None
      case Some(c) => Some((c, s[2..]))
    else if |s| < 6 || !(IsHex(s[2]) && IsHex(s[3]) && IsHex(s[4]) && IsHex(s[5])) then None
    else
      var code := ((HexValue(s[2]) * 16 + HexValue(s[3])) * 16 + HexValue(s[4])) * 16 + HexValue(s[5]);
      if 0xD800 <= code < 0xE000 then None else Some((code as char, s[6..]))
  }

  /** A string body up to its closing quote, decoded, and what follows the quote. */
  function ReadString(strict: bool, s: string): (r: Option<(string, string)>)
    ensures r.Some? ==> |r.value.1| < |s|
    decreases |s|
  {
    if s != "" && s[0] == '"' then Some(("", s[1..]))
    else match ReadChar(strict, s)
         case None => None
         case Some(head) =>
           match ReadString(strict, head.1)
           case None => None
           case Some(tail) => Some(([head.0] + tail.0, tail.1))
  }

  /** No control character but those the table escapes. */
  predicate Printable(s: string) {
    forall i :: 0 <= i < |s| ==> s[i] < ' ' ==> Special(s[i])
  }

  lemma ReadEscapedChar(strict: bool, c: char, rest: string)
    ensures ReadChar(strict, EscapeChar(c) + rest) == if strict && c < ' ' && !Special(c) then None else Some((c, rest))
    ensures (EscapeChar(c) + rest)[0] != '"'
  {
    assert (EscapeChar(c) + rest)[|EscapeChar(c)|..] == rest;
  }

  /** The reader takes one escaped character off and goes on. */
  lemma ReadStringStep(strict: bool, c: char, rest: string)
    ensures ReadString(strict, EscapeChar(c) + rest) ==
            if strict && c < ' ' && !Special(c) then None
            else match ReadString(strict, rest)
                 case None => None
                 case Some(tail) => Some(([c] + tail.0, tail.1))
  {
    ReadEscapedChar(strict, c, rest);
  }

  lemma PrintableCons(c: char, s: string)
    ensures Printable([c] + s) <==> Printable(s) && (c < ' ' ==> Special(c))
  {
    var t := [c] + s;
    assert t[0] == c && forall i :: 0 <= i < |s| ==> t[i + 1] == s[i];
  }

  /**
   Escaping against the reader, for every text. The lenient reader always gives the text back and stops at the quote
   printed after it; the strict one of section 7 does so exactly when no unescaped control character was let through.
   */
  lemma {:induction false} ReadEscaped(strict: bool, s: string, rest: string)
    ensures ReadString(strict, Escape(s) + ("\"" + rest)) == if strict && !Printable(s) then None else Some((s, rest))
  {
    if s == "" {
      ReadQuote(strict, rest);
    } else {
      EscapedCons(s, "\"" + rest);
      ReadStringStep(strict, s[0], Escape(s[1..]) + ("\"" + rest));
      ReadEscaped(strict, s[1..], rest);
      PrintableCons(s[0], s[1..]);
    }
  }

  lemma ReadQuote(strict: bool, rest: string)
    ensures ReadString(strict, Escape("") + ("\"" + rest)) == Some(("", rest))
  {
    assert Escape("") + ("\"" + rest) == "\"" + rest && ("\"" + rest)[1..] == rest;
  }

  lemma EscapedCons(s: string, more: string)
    requires s != ""
    ensures Escape(s) + more == EscapeChar(s[0]) + (Escape(s[1..]) + more)
    ensures s == [s[0]] + s[1..]
  {
    Assoc(EscapeChar(s[0]), Escape(s[1..]), more);
    assert s == [s[0]] + s[1..];
  }

  lemma EscapeInjective(a: string, b: string)
    requires Escape(a) == Escape(b)
    ensures a == b
  {
    ReadEscaped(false, a, "");
    ReadEscaped(false, b, "");
  }

  /** The scan a reader makes for the end of a string: the first quote no backslash takes away. */
  function ClosingQuote(s: string): Option<nat>
    decreases |s|
  {
    if s == "" then None
    else if s[0] == '"' then Some(0)
    else
      var width := if s[0] == '\\' then 2 else 1;
      if |s| < width then None
      else match ClosingQuote(s[width..])
           case None => None
           case Some(n) => Some(width + n)
  }

  lemma ScanStep(c: char, rest: string)
    ensures ClosingQuote(EscapeChar(c) + rest) ==
            match ClosingQuote(rest) case None => None case Some(n) => Some(|EscapeChar(c)| + n)
  {
    assert (EscapeChar(c) + rest)[|EscapeChar(c)|..] == rest;
  }

  lemma {:induction false} ScanStopsAtQuote(s: string, rest: string)
    ensures ClosingQuote(Escape(s) + ("\"" + rest)) == Some(|Escape(s)|)
  {
    var q := "\"" + rest;
    if s == "" {
      assert Escape(s) + q == q;
    } else {
      ScanStopsAtQuote(s[1..], rest);
      ScanStep(s[0], Escape(s[1..]) + q);
      EscapedCons(s, q);
    }
  }
}
