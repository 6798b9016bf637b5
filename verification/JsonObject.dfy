/**
 The object printer sms112_make_json and its round trip through a reader of objects (section 4 of RFC 8259) whose values
 are strings and numbers, the only ones printed.
 */
module JsonObject {
  import opened Text
  import opened Json

  /** A descriptor: the member's name, and 0 when its value is printed without quotes. */
  datatype Descr = Descr(name: string, kind: int)

  datatype Value = Str(s: string) | Num(token: string)

  type Member = (string, Value)

  // ---------------------------------------------------------------- printing

  function Min(a: nat, b: nat): nat {
    if a <= b then a else b
  }

  function Quote(d: Descr): string {
    if d.kind != 0 then "\"" else ""
  }

  function Field(p: Option<string>, d: Descr): string {
    "\"" + (d.name + ("\":" + (Quote(d) + ((if p.Some? then Escape(p.value) else "") + Quote(d)))))
  }

  function Join(fields: seq<string>): string {
    if fields == [] then ""
    else if |fields| == 1 then fields[0]
    else fields[0] + ("," + Join(fields[1..]))
  }

  function Fields(params: seq<Option<string>>, descrs: seq<Descr>): seq<string> {
    if params == [] || descrs == [] then [] else [Field(params[0], descrs[0])] + Fields(params[1..], descrs[1..])
  }

  function Object(params: seq<Option<string>>, descrs: seq<Descr>): string {
    "{" + (Join(Fields(params, descrs)) + "}")
  }

  lemma {:induction false} JoinSnoc(fields: seq<string>, f: string)
    ensures Join(fields + [f]) == Join(fields) + (if fields == [] then "" else ",") + f
  {
    if fields == [] {
    } else {
      JoinSnoc(fields[1..], f);
      assert (fields + [f])[1..] == fields[1..] + [f];
    }
  }

  lemma TakeThenDrop<T>(s: seq<T>, n: nat)
    requires 0 < n <= |s|
    ensures s[..n][1..] == s[1..][..n - 1]
  {
  }

  lemma {:induction false} FieldsTake(params: seq<Option<string>>, descrs: seq<Descr>, n: nat)
    requires n < |params| && n < |descrs|
    ensures Fields(params[..n + 1], descrs[..n + 1]) == Fields(params[..n], descrs[..n]) + [Field(params[n], descrs[n])]
  {
    if n > 0 {
      FieldsTake(params[1..], descrs[1..], n - 1);
      TakeThenDrop(params, n + 1);
      TakeThenDrop(descrs, n + 1);
      TakeThenDrop(params, n);
      TakeThenDrop(descrs, n);
    }
  }

  lemma {:induction false} FieldsOfShorter(params: seq<Option<string>>, descrs: seq<Descr>)
    ensures var n := Min(|params|, |descrs|); Fields(params[..n], descrs[..n]) == Fields(params, descrs)
    ensures |Fields(params, descrs)| == Min(|params|, |descrs|)
  {
    var n := Min(|params|, |descrs|);
    if n > 0 {
      FieldsOfShorter(params[1..], descrs[1..]);
      TakeThenDrop(params, n);
      TakeThenDrop(descrs, n);
    }
  }

  /** The body of the printing loop after the comma. A null parameter prints nothing between the quotes, if any. */
  method PrintField(p: Option<string>, d: Descr, attrValue: StringRef, out: StringRef)
    requires attrValue != out
    modifies attrValue, out
    ensures out.s == old(out.s) + Field(p, d)
  {
    ghost var was, value := out.s, if p.Some? then Escape(p.value) else "";
    out.s := out.s + "\"";
    out.s := out.s + d.name;
    out.s := out.s + "\":";
    if d.kind != 0 {
      out.s := out.s + "\"";
    }
    assert out.s == was + "\"" + d.name + "\":" + Quote(d);
    ghost var lead := out.s;
    if p.Some? {
      attrValue.s := p.value;
      EscapeSpecSym(attrValue);
      out.s := out.s + attrValue.s;
    }
    assert out.s == lead + value;
    if d.kind != 0 {
      out.s := out.s + "\"";
    }
    assert out.s == lead + value + Quote(d);
    FieldAppended(was, d.name, Quote(d), value);
  }

  lemma FieldAppended(was: string, name: string, quote: string, value: string)
    ensures was + "\"" + name + "\":" + quote + value + quote == was + ("\"" + (name + ("\":" + (quote + (value + quote)))))
  {
  }

  /** What has been printed before the field `i`. */
  ghost function Printed(params: seq<Option<string>>, descrs: seq<Descr>, i: nat): string
    requires i <= |params| && i <= |descrs|
  {
    "{" + Join(Fields(params[..i], descrs[..i]))
  }

  lemma PrintedMore(params: seq<Option<string>>, descrs: seq<Descr>, i: nat)
    requires i < |params| && i < |descrs|
    ensures Printed(params, descrs, i) + (if i == 0 then "" else ",") + Field(params[i], descrs[i]) ==
            Printed(params, descrs, i + 1)
  {
    var printed := Fields(params[..i], descrs[..i]);
    FieldsOfShorter(params[..i], descrs[..i]);
    FieldsTake(params, descrs, i);
    JoinSnoc(printed, Field(params[i], descrs[i]));
    var comma := if i == 0 then "" else ",";
    Assoc("{", Join(printed), comma);
    Assoc("{", Join(printed) + comma, Field(params[i], descrs[i]));
  }

  /** sms112_make_json. */
  method MakeJson(params: seq<Option<string>>, descrs: seq<Descr>, out: StringRef)
    modifies out
    ensures out.s == Object(params, descrs)
  {
    var first := 1;
    var attrValue := new StringRef("");
    out.s := "{";
    var i := 0;
    while i < |descrs| && i < |params|
      invariant 0 <= i <= Min(|params|, |descrs|)
      invariant first == if i == 0 then 1 else 0
      invariant out.s == Printed(params, descrs, i)
    {
      ghost var was := out.s;
      attrValue.s := "";
      if first == 0 {
        out.s := out.s + ",";
      } else {
        first := 0;
      }
      PrintField(params[i], descrs[i], attrValue, out);
      assert out.s == was + (if i == 0 then "" else ",") + Field(params[i], descrs[i]);
      PrintedMore(params, descrs, i);
      i := i + 1;
    }
    FieldsOfShorter(params, descrs);
    out.s := out.s + "}";
  }

  // ---------------------------------------------------------------- numbers

  predicate IsDigit(c: char) {
    '0' <= c <= '9'
  }

  predicate NumberChar(c: char) {
    IsDigit(c) || c in {'-', '+', '.', 'e', 'E'}
  }

  predicate NumberChars(t: string) {
    forall i :: 0 <= i < |t| ==> NumberChar(t[i])
  }

  function DropDigits(t: string): string {
    if t != "" && IsDigit(t[0]) then DropDigits(t[1..]) else t
  }

  predicate IsExponent(t: string) {
    t == "" ||
    (t[0] in {'e', 'E'} &&
     var digits := if |t| >= 2 && t[1] in {'+', '-'} then t[2..] else t[1..];
     digits != "" && IsDigit(digits[0]) && DropDigits(digits) == "")
  }

  predicate IsFraction(t: string) {
    if t != "" && t[0] == '.' then |t| >= 2 && IsDigit(t[1]) && IsExponent(DropDigits(t[1..])) else IsExponent(t)
  }

  /** A number token, section 6 of RFC 8259. */
  predicate IsNumber(t: string) {
    var digits := if t != "" && t[0] == '-' then t[1..] else t;
    digits != "" && IsDigit(digits[0]) && IsFraction(if digits[0] == '0' then digits[1..] else DropDigits(digits))
  }

  lemma {:induction false} DropDigitsChars(t: string)
    ensures NumberChars(DropDigits(t)) <==> NumberChars(t)
  {
    if t != "" && IsDigit(t[0]) {
      DropDigitsChars(t[1..]);
      assert t == [t[0]] + t[1..];
    }
  }

  lemma ConsChars(c: char, t: string)
    ensures NumberChars([c] + t) <==> NumberChar(c) && NumberChars(t)
  {
    var s := [c] + t;
    assert s[0] == c;
    assert forall i :: 0 <= i < |t| ==> s[i + 1] == t[i];
  }

  lemma ExponentChars(t: string)
    requires IsExponent(t)
    ensures NumberChars(t)
  {
    if t != "" {
      var digits := if |t| >= 2 && t[1] in {'+', '-'} then t[2..] else t[1..];
      DropDigitsChars(digits);
      if digits == t[2..] {
        assert t == [t[0]] + ([t[1]] + digits);
        ConsChars(t[1], digits);
        ConsChars(t[0], [t[1]] + digits);
      } else {
        assert t == [t[0]] + digits;
        ConsChars(t[0], digits);
      }
    }
  }

  lemma FractionChars(t: string)
    requires IsFraction(t)
    ensures NumberChars(t)
  {
    if t != "" && t[0] == '.' {
      ExponentChars(DropDigits(t[1..]));
      DropDigitsChars(t[1..]);
      assert t == [t[0]] + t[1..];
      ConsChars(t[0], t[1..]);
    } else {
      ExponentChars(t);
    }
  }

  lemma NumberIsChars(t: string)
    requires IsNumber(t)
    ensures NumberChars(t) && t != ""
  {
    var digits := if t[0] == '-' then t[1..] else t;
    FractionChars(if digits[0] == '0' then digits[1..] else DropDigits(digits));
    if digits[0] == '0' {
      ConsChars(digits[0], digits[1..]);
      assert digits == [digits[0]] + digits[1..];
    } else {
      DropDigitsChars(digits);
    }
    if t[0] == '-' {
      ConsChars(t[0], t[1..]);
      assert t == [t[0]] + t[1..];
    }
  }

  lemma {:induction false} EscapeNumber(t: string)
    requires NumberChars(t)
    ensures Escape(t) == t
  {
    if t != "" {
      EscapeNumber(t[1..]);
      assert t == [t[0]] + t[1..];
    }
  }

  // ---------------------------------------------------------------- reading

  /** The longest prefix made of characters that occur in numbers. */
  function NumberRun(s: string): string {
    if s != "" && NumberChar(s[0]) then [s[0]] + NumberRun(s[1..]) else ""
  }

  lemma {:induction false} RunIsPrefix(s: string)
    ensures NumberRun(s) <= s
  {
    if s != "" && NumberChar(s[0]) {
      RunIsPrefix(s[1..]);
      assert s == [s[0]] + s[1..];
    }
  }

  lemma {:induction false} RunStops(t: string, rest: string)
    requires NumberChars(t) && rest != "" && !NumberChar(rest[0])
    ensures NumberRun(t + rest) == t
  {
    if t == "" {
      assert t + rest == rest;
    } else {
      RunStops(t[1..], rest);
      assert (t + rest)[1..] == t[1..] + rest;
      assert t == [t[0]] + t[1..];
    }
  }

  function ReadValue(s: string): (r: Option<(Value, string)>)
    ensures r.Some? ==> |r.value.1| < |s|
    ensures r.Some? && r.value.0.Num? ==> IsNumber(r.value.0.token)
  {
    if s == "" then None
    else if s[0] == '"' then
      match ReadString(true, s[1..])
      case None => None
      case Some(body) => Some((Str(body.0), body.1))
    else
      RunIsPrefix(s);
      var token := NumberRun(s);
      if IsNumber(token) then Some((Num(token), s[|token|..])) else None
  }

  function ReadMember(s: string): (r: Option<(Member, string)>)
    ensures r.Some? ==> |r.value.1| < |s|
  {
    if s == "" || s[0] != '"' then None
    else match ReadString(true, s[1..])
         case None => None
         case Some(name) =>
           if !(":" <= name.1) then None
           else match ReadValue(name.1[1..])
                case None => None
                case Some(value) => Some(((name.0, value.0), value.1))
  }

  function ReadMembers(s: string): Option<seq<Member>>
    decreases |s|
  {
    match ReadMember(s)
    case None => None
    case Some(head) =>
      if head.1 == "}" then Some([head.0])
      else if !("," <= head.1) then None
      else match ReadMembers(head.1[1..])
           case None => None
           case Some(tail) => Some([head.0] + tail)
  }

  /** A whole object, nothing before it and nothing after. */
  function ReadObject(s: string): Option<seq<Member>> {
    if s == "{}" then Some([]) else if !("{" <= s) then None else ReadMembers(s[1..])
  }

  // ---------------------------------------------------------------- round trip

  /** A name that may be printed as it is. */
  predicate PlainName(s: string) {
    forall i :: 0 <= i < |s| ==> s[i] != '"' && s[i] != '\\' && s[i] >= ' '
  }

  predicate Readable(p: Option<string>, d: Descr) {
    if d.kind != 0 then p.Some? ==> Printable(p.value) else p.Some? && IsNumber(p.value)
  }

  predicate Kept(p: Option<string>, d: Descr) {
    PlainName(d.name) && Readable(p, d)
  }

  function MemberOf(p: Option<string>, d: Descr): Member {
    var v := if p.Some? then p.value else "";
    (d.name, if d.kind != 0 then Str(v) else Num(v))
  }

  function Members(params: seq<Option<string>>, descrs: seq<Descr>): seq<Member> {
    seq(Min(|params|, |descrs|), i requires 0 <= i < Min(|params|, |descrs|) => MemberOf(params[i], descrs[i]))
  }

  lemma {:induction false} ReadName(name: string, rest: string)
    requires PlainName(name)
    ensures ReadString(true, name + ("\"" + rest)) == Some((name, rest))
  {
    if name == "" {
      assert name + ("\"" + rest) == "\"" + rest && ("\"" + rest)[1..] == rest;
    } else {
      ReadName(name[1..], rest);
      assert name + ("\"" + rest) == [name[0]] + (name[1..] + ("\"" + rest));
      assert name == [name[0]] + name[1..];
    }
  }

  /** A decoded text that is as long as what stood before the first quote, or has a quote earlier than that. */
  ghost predicate Bounded(s: string, q: nat, decoded: string)
    requires q <= |s|
  {
    || (exists j :: 0 <= j < q && j < |decoded| && decoded[j] == '"')
    || |decoded| < q
    || (|decoded| == q && PlainName(s[..q]))
  }

  lemma BoundedMore(s: string, q: nat, width: nat, c: char, tail: string)
    requires 0 < width <= q <= |s| && Bounded(s[width..], q - width, tail)
    requires width == 1 ==> s[0] != '"' && s[0] != '\\' && s[0] >= ' '
    ensures Bounded(s, q, [c] + tail)
  {
    var decoded := [c] + tail;
    if j :| 0 <= j < q - width && j < |tail| && tail[j] == '"' {
      assert decoded[j + 1] == '"';
    } else if |decoded| == q {
      forall i | 0 <= i < q
        ensures s[..q][i] != '"' && s[..q][i] != '\\' && s[..q][i] >= ' '
      {
        if i > 0 {
          assert s[..q][i] == s[1..][..q - 1][i - 1];
        }
      }
    }
  }

  /** However a string is read, the first quote is met after no fewer characters than were decoded. */
  lemma {:induction false} ReadBounded(s: string, q: nat)
    requires q < |s| && s[q] == '"' && forall i :: 0 <= i < q ==> s[i] != '"'
    requires ReadString(true, s).Some?
    ensures Bounded(s, q, ReadString(true, s).value.0)
    decreases |s|
  {
    if q > 0 {
      var head := ReadChar(true, s).value;
      var width := |s| - |head.1|;
      assert head.1 == s[width..];
      var tail := ReadString(true, head.1).value.0;
      assert ReadString(true, s).value.0 == [head.0] + tail;
      if head.0 == '"' {
        assert ([head.0] + tail)[0] == '"';
      } else {
        ReadBounded(head.1, q - width);
        BoundedMore(s, q, width, head.0, tail);
      }
    }
  }

  /** A name that may not be printed as it is does not read back, whatever is read instead. */
  lemma ReadOtherName(name: string, rest: string)
    requires !PlainName(name)
    ensures var r := ReadString(true, name + ("\"" + rest)); r.Some? ==> r.value.0 != name
  {
    var s := name + ("\"" + rest);
    if ReadString(true, s).Some? {
      var q := FirstQuote(name, rest);
      ReadBounded(s, q);
      assert s[..|name|] == name;
    }
  }

  lemma FirstQuote(name: string, rest: string) returns (q: nat)
    ensures var s := name + ("\"" + rest);
            q <= |name| && s[q] == '"' && forall i :: 0 <= i < q ==> s[i] != '"'
  {
    var s := name + ("\"" + rest);
    q := 0;
    while s[q] != '"'
      invariant q <= |name| && forall i :: 0 <= i < q ==> s[i] != '"'
      decreases |name| - q
    {
      q := q + 1;
    }
  }

  lemma ReadPrintedValue(p: Option<string>, d: Descr, rest: string)
    requires rest != "" && rest[0] in {',', '}'}
    ensures var r := ReadValue(Quote(d) + ((if p.Some? then Escape(p.value) else "") + Quote(d)) + rest);
            if Readable(p, d) then r == Some((MemberOf(p, d).1, rest)) else r.Some? ==> r.value.0 != MemberOf(p, d).1
  {
    var v := if p.Some? then p.value else "";
    assert Escape("") == "";
    var s := Quote(d) + (Escape(v) + Quote(d)) + rest;
    if d.kind != 0 {
      assert s[1..] == Escape(v) + ("\"" + rest);
      ReadEscaped(true, v, rest);
    } else {
      assert s == Escape(v) + rest;
      if Readable(p, d) {
        NumberIsChars(v);
        EscapeNumber(v);
        RunStops(v, rest);
        assert s[|v|..] == rest;
      }
    }
  }

  lemma ReadNamed(name: string, tail: string)
    ensures var r := ReadMember("\"" + (name + ("\"" + (":" + tail))));
            if PlainName(name) then
              r == match ReadValue(tail)
                   case None => None
                   case Some(value) => Some(((name, value.0), value.1))
            else r.Some? ==> r.value.0.0 != name
  {
    var s := "\"" + (name + ("\"" + (":" + tail)));
    assert s[1..] == name + ("\"" + (":" + tail));
    if PlainName(name) {
      ReadName(name, ":" + tail);
      assert (":" + tail)[1..] == tail;
    } else {
      ReadOtherName(name, ":" + tail);
    }
  }

  lemma ReadPrintedMember(p: Option<string>, d: Descr, rest: string)
    requires rest != "" && rest[0] in {',', '}'}
    ensures var r := ReadMember(Field(p, d) + rest);
            if Kept(p, d) then r == Some((MemberOf(p, d), rest)) else r.Some? ==> r.value.0 != MemberOf(p, d)
  {
    var value := Quote(d) + ((if p.Some? then Escape(p.value) else "") + Quote(d));
    FieldThen(d.name, value, rest);
    ReadNamed(d.name, value + rest);
    ReadPrintedValue(p, d, rest);
  }

  lemma FieldThen(name: string, value: string, rest: string)
    ensures "\"" + (name + ("\":" + value)) + rest == "\"" + (name + ("\"" + (":" + (value + rest))))
  {
  }

  /** A list of members is its first member and, after a comma, the others. */
  lemma ReadMembersStep(s: string)
    ensures match ReadMember(s)
            case None => ReadMembers(s).None?
            case Some(head) =>
              && (ReadMembers(s).Some? ==> ReadMembers(s).value != [] && ReadMembers(s).value[0] == head.0)
              && (head.1 == "}" ==> ReadMembers(s) == Some([head.0]))
              && (head.1 != "" && head.1[0] == ',' ==>
                    match ReadMembers(head.1[1..])
                    case None => ReadMembers(s).None?
                    case Some(tail) => ReadMembers(s) == Some([head.0] + tail))
  {
    var head := ReadMember(s);
    if head.Some? && head.value.1 != "" && head.value.1[0] == ',' {
      assert head.value.1 == "," + head.value.1[1..];
    }
  }

  /** The printed members behind the first one, or what ends the object. */
  function Rest(params: seq<Option<string>>, descrs: seq<Descr>): string {
    if params == [] || descrs == [] then "}" else "," + (Join(Fields(params, descrs)) + "}")
  }

  lemma FirstField(params: seq<Option<string>>, descrs: seq<Descr>)
    requires params != [] && descrs != []
    ensures Join(Fields(params, descrs)) + "}" == Field(params[0], descrs[0]) + Rest(params[1..], descrs[1..])
  {
    FieldsOfShorter(params[1..], descrs[1..]);
    FirstJoined(Field(params[0], descrs[0]), Fields(params[1..], descrs[1..]));
  }

  lemma FirstJoined(first: string, more: seq<string>)
    ensures Join([first] + more) + "}" == first + (if more == [] then "}" else "," + (Join(more) + "}"))
  {
    var fields := [first] + more;
    assert fields[1..] == more;
    if more != [] {
      assert Join(fields) == first + ("," + Join(more));
      Assoc(first, "," + Join(more), "}");
      Assoc(",", Join(more), "}");
    }
  }

  lemma FirstMember(params: seq<Option<string>>, descrs: seq<Descr>)
    requires params != [] && descrs != []
    ensures Members(params, descrs) == [MemberOf(params[0], descrs[0])] + Members(params[1..], descrs[1..])
  {
  }

  lemma {:induction false} ReadPrintedMembers(params: seq<Option<string>>, descrs: seq<Descr>)
    requires params != [] && descrs != []
    ensures ReadMembers(Join(Fields(params, descrs)) + "}") == Some(Members(params, descrs))
            <==> forall i :: 0 <= i < |params| && i < |descrs| ==> Kept(params[i], descrs[i])
  {
    var m, ps, ds := MemberOf(params[0], descrs[0]), params[1..], descrs[1..];
    FirstField(params, descrs);
    FirstMember(params, descrs);
    ReadPrintedMember(params[0], descrs[0], Rest(ps, ds));
    ReadMembersStep(Field(params[0], descrs[0]) + Rest(ps, ds));
    KeptSplit(params, descrs);
    if ps == [] || ds == [] {
      assert Members(params, descrs) == [m];
    } else {
      ReadPrintedMembers(ps, ds);
      assert Rest(ps, ds)[1..] == Join(Fields(ps, ds)) + "}";
      var tail := ReadMembers(Rest(ps, ds)[1..]);
      if tail.Some? {
        assert ([m] + tail.value)[1..] == tail.value && ([m] + Members(ps, ds))[1..] == Members(ps, ds);
      }
    }
  }

  lemma KeptSplit(params: seq<Option<string>>, descrs: seq<Descr>)
    requires params != [] && descrs != []
    ensures (forall i :: 0 <= i < |params| && i < |descrs| ==> Kept(params[i], descrs[i])) <==>
            Kept(params[0], descrs[0]) &&
            forall i :: 0 <= i < |params[1..]| && i < |descrs[1..]| ==> Kept(params[1..][i], descrs[1..][i])
  {
    if Kept(params[0], descrs[0]) &&
       forall i :: 0 <= i < |params[1..]| && i < |descrs[1..]| ==> Kept(params[1..][i], descrs[1..][i])
    {
      forall i | 0 <= i < |params| && i < |descrs|
        ensures Kept(params[i], descrs[i])
      {
        if i > 0 {
          assert Kept(params[1..][i - 1], descrs[1..][i - 1]);
        }
      }
    }
  }

  /**
   The object round trip, for all descriptors and values: reading the output gives back the min of both counts of members,
   in order, with the original names and values, exactly when every printed name is free of quote, backslash and control
   characters, every quoted value printable and every unquoted one a number. A null quoted value reads as the empty string.
   */
  lemma ObjectRoundTrip(params: seq<Option<string>>, descrs: seq<Descr>)
    ensures |Members(params, descrs)| == Min(|params|, |descrs|)
    ensures ReadObject(Object(params, descrs)) == Some(Members(params, descrs))
            <==> forall i :: 0 <= i < |params| && i < |descrs| ==> Kept(params[i], descrs[i])
  {
    if params == [] || descrs == [] {
      assert Object(params, descrs) == "{}";
    } else {
      var s := Object(params, descrs);
      assert s[1..] == Join(Fields(params, descrs)) + "}";
      assert Join(Fields(params, descrs)) != "";
      assert |s| > 2;
      ReadPrintedMembers(params, descrs);
    }
  }
}
