/**
 The UCS-2BE to UTF-8 conversion of message texts (sms112_iconv): section 3 of RFC 3629 for the encoding, and the size of
 the output buffer.
 */
module Iconv {
  import opened Text

  /** A UCS-2 code unit that is a character: not a surrogate. */
  predicate IsCharacter(u: int) {
    0 <= u < 0x1_0000 && !(0xD800 <= u < 0xE000)
  }

  // ---------------------------------------------------------------- the encoding

  function Utf8(u: int): (r: seq<byte>)
    requires IsCharacter(u)
    ensures 1 <= |r| <= 3
  {
    if u < 0x80 then [u]
    else if u < 0x800 then [0xC0 + u / 64, 0x80 + u % 64]
    else [0xE0 + u / 4096, 0x80 + u / 64 % 64, 0x80 + u % 64]
  }

  function Unit(hi: byte, lo: byte): int {
    hi * 256 + lo
  }

  /** The text of big-endian two-byte units, or None at a trailing byte or a surrogate. */
  function Decode(src: seq<byte>): Option<seq<int>> {
    if src == [] then Some([])
    else if |src| == 1 || !IsCharacter(Unit(src[0], src[1])) then None
    else match Decode(src[2..])
         case None => None
         case Some(rest) => Some([Unit(src[0], src[1])] + rest)
  }

  function Encode(text: seq<int>): seq<byte>
    requires forall i :: 0 <= i < |text| ==> IsCharacter(text[i])
  {
    if text == [] then [] else Utf8(text[0]) + Encode(text[1..])
  }

  lemma DecodedAreCharacters(src: seq<byte>)
    ensures Decode(src).Some? ==> forall i :: 0 <= i < |Decode(src).value| ==> IsCharacter(Decode(src).value[i])
  {
  }

  function Convert(src: seq<byte>): Option<seq<byte>> {
    DecodedAreCharacters(src);
    match Decode(src)
    case None => None
    case Some(text) => Some(Encode(text))
  }

  // ---------------------------------------------------------------- the reader of UTF-8

  predicate Continuation(b: byte) {
    0x80 <= b < 0xC0
  }

  function Low6(b: byte): int {
    b as int - 0x80
  }

  /** Well-formed UTF-8 of up to three bytes a character, the shortest form only. */
  function ReadUtf8(s: seq<byte>): Option<seq<int>> {
    if s == [] then Some([])
    else if s[0] < 0x80 then Prepend(s[0], ReadUtf8(s[1..]))
    else if 0xC2 <= s[0] < 0xE0 && |s| >= 2 && Continuation(s[1]) then
      Prepend((s[0] as int - 0xC0) * 64 + Low6(s[1]), ReadUtf8(s[2..]))
    else if 0xE0 <= s[0] < 0xF0 && |s| >= 3 && Continuation(s[1]) && Continuation(s[2]) then
      var u := (s[0] as int - 0xE0) * 4096 + Low6(s[1]) * 64 + Low6(s[2]);
      if u < 0x800 || !IsCharacter(u) then None else Prepend(u, ReadUtf8(s[3..]))
    else None
  }

  function Prepend(u: int, rest: Option<seq<int>>): Option<seq<int>> {
    if rest.None? then None else Some([u] + rest.value)
  }

  lemma ReadUnit(u: int, rest: seq<byte>)
    requires IsCharacter(u)
    ensures ReadUtf8(Utf8(u) + rest) == Prepend(u, ReadUtf8(rest))
  {
    var s := Utf8(u) + rest;
    assert s[|Utf8(u)|..] == rest;
  }

  /** What is converted reads back as the text that was sent. */
  lemma {:induction false} EncodeRoundTrip(text: seq<int>)
    requires forall i :: 0 <= i < |text| ==> IsCharacter(text[i])
    ensures ReadUtf8(Encode(text)) == Some(text)
  {
    if text != [] {
      EncodeRoundTrip(text[1..]);
      ReadUnit(text[0], Encode(text[1..]));
      assert text == [text[0]] + text[1..];
    }
  }

  lemma {:induction false} EncodeLength(text: seq<int>)
    requires forall i :: 0 <= i < |text| ==> IsCharacter(text[i])
    ensures |text| <= |Encode(text)| <= 3 * |text|
  {
    if text != [] {
      EncodeLength(text[1..]);
    }
  }

  lemma {:induction false} DecodeLength(src: seq<byte>)
    ensures Decode(src).Some? ==> |src| == 2 * |Decode(src).value|
  {
    if |src| >= 2 {
      DecodeLength(src[2..]);
    }
  }

  // ---------------------------------------------------------------- the source on the wire

  /** A text as UCS-2BE: two octets a unit, the high one first. */
  function PutUnits(text: seq<int>): seq<byte>
    requires forall i :: 0 <= i < |text| ==> 0 <= text[i] < 0x1_0000
  {
    if text == [] then [] else [text[0] / 256, text[0] % 256] + PutUnits(text[1..])
  }

  /** No half unit, and no high octet of a surrogate. */
  predicate WellFormed(src: seq<byte>) {
    |src| % 2 == 0 && forall i :: 0 <= i < |src| && i % 2 == 0 ==> !(0xD8 <= src[i] < 0xE0)
  }

  lemma WellFormedTail(src: seq<byte>)
    requires |src| >= 2
    ensures WellFormed(src) <==> !(0xD8 <= src[0] < 0xE0) && WellFormed(src[2..])
  {
    if !(0xD8 <= src[0] < 0xE0) && WellFormed(src[2..]) {
      forall i | 0 <= i < |src| && i % 2 == 0
        ensures !(0xD8 <= src[i] < 0xE0)
      {
        if i >= 2 {
          assert src[i] == src[2..][i - 2];
        }
      }
    }
    if WellFormed(src) {
      forall i | 0 <= i < |src[2..]| && i % 2 == 0
        ensures !(0xD8 <= src[2..][i] < 0xE0)
      {
        assert src[2..][i] == src[i + 2];
      }
    }
  }

  lemma UnitOctets(hi: byte, lo: byte)
    ensures 0 <= Unit(hi, lo) < 0x1_0000 && Unit(hi, lo) / 256 == hi && Unit(hi, lo) % 256 == lo
    ensures IsCharacter(Unit(hi, lo)) <==> !(0xD8 <= hi < 0xE0)
  {
  }

  /** What is decoded is the text that was put, and everything well formed is decoded. */
  lemma {:induction false} DecodedIsPut(src: seq<byte>)
    ensures Decode(src).Some? <==> WellFormed(src)
    ensures Decode(src).Some? ==> var text := Decode(src).value;
                                  (forall i :: 0 <= i < |text| ==> IsCharacter(text[i])) && PutUnits(text) == src
  {
    if |src| >= 2 {
      DecodedIsPut(src[2..]);
      WellFormedTail(src);
      UnitOctets(src[0], src[1]);
      assert src == [src[0], src[1]] + src[2..];
      DecodedAreCharacters(src);
      if Decode(src).Some? {
        assert Decode(src).value == [Unit(src[0], src[1])] + Decode(src[2..]).value;
        assert Decode(src).value[1..] == Decode(src[2..]).value;
      }
    }
  }

  /** Two octet strings that stand for the same text, the one in UCS-2BE and the other in UTF-8. */
  predicate SameText(ucs2: seq<byte>, utf8: seq<byte>) {
    match ReadUtf8(utf8)
    case None => false
    case Some(text) => (forall i :: 0 <= i < |text| ==> 0 <= text[i] < 0x1_0000) && PutUnits(text) == ucs2
  }

  /** The conversion from end to end: it succeeds exactly for well-formed sources, and keeps the text. */
  lemma ConversionKeepsText(src: seq<byte>)
    ensures Convert(src).Some? <==> WellFormed(src)
    ensures Convert(src).Some? ==> SameText(src, Convert(src).value)
  {
    DecodedIsPut(src);
    if Decode(src).Some? {
      EncodeRoundTrip(Decode(src).value);
    }
  }

  /** The buffer of four bytes a source byte holds the converted text, and its terminator exactly when there is a text. */
  lemma Fits(src: seq<byte>)
    requires Convert(src).Some?
    ensures |Convert(src).value| <= 4 * |src|
    ensures |Convert(src).value| + 1 <= 4 * |src| <==> src != []
  {
    DecodedAreCharacters(src);
    DecodeLength(src);
    EncodeLength(Decode(src).value);
  }

  // ---------------------------------------------------------------- the procedure

  lemma DecodeCons(hi: byte, lo: byte, s: seq<byte>)
    ensures Decode([hi, lo] + s) ==
            if !IsCharacter(Unit(hi, lo)) || Decode(s).None? then None else Some([Unit(hi, lo)] + Decode(s).value)
  {
    assert ([hi, lo] + s)[2..] == s;
  }

  lemma {:induction false} DecodeAppend(a: seq<byte>, b: seq<byte>)
    requires Decode(a).Some?
    ensures Decode(a + b) == if Decode(b).None? then None else Some(Decode(a).value + Decode(b).value)
  {
    if a == [] {
      assert a + b == b;
      assert Decode(b).Some? ==> [] + Decode(b).value == Decode(b).value;
    } else {
      DecodeCons(a[0], a[1], a[2..]);
      assert a == [a[0], a[1]] + a[2..];
      DecodeAppend(a[2..], b);
      DecodeCons(a[0], a[1], a[2..] + b);
      assert a + b == [a[0], a[1]] + (a[2..] + b);
      if Decode(b).Some? {
        assert [Unit(a[0], a[1])] + (Decode(a[2..]).value + Decode(b).value) == Decode(a).value + Decode(b).value;
      }
    }
  }

  lemma {:induction false} EncodeAppend(a: seq<int>, b: seq<int>)
    requires forall i :: 0 <= i < |a| ==> IsCharacter(a[i])
    requires forall i :: 0 <= i < |b| ==> IsCharacter(b[i])
    ensures Encode(a + b) == Encode(a) + Encode(b)
  {
    if a == [] {
      assert a + b == b;
    } else {
      EncodeAppend(a[1..], b);
      assert (a + b)[0] == a[0] && (a + b)[1..] == a[1..] + b;
      Assoc(Utf8(a[0]), Encode(a[1..]), Encode(b));
    }
  }

  /** One more unit, or the failure that ends the conversion. */
  lemma ConvertStep(src: seq<byte>, i: nat)
    requires i < |src| && Convert(src[..i]).Some?
    ensures i + 1 == |src| || !IsCharacter(Unit(src[i], src[i + 1])) ==> Convert(src).None?
    ensures i + 1 < |src| && IsCharacter(Unit(src[i], src[i + 1])) ==>
              Convert(src[..i + 2]) == Some(Convert(src[..i]).value + Utf8(Unit(src[i], src[i + 1])))
  {
    var rest := src[i..];
    assert src == src[..i] + rest;
    DecodedAreCharacters(src[..i]);
    DecodeAppend(src[..i], rest);
    if i + 1 < |src| && IsCharacter(Unit(src[i], src[i + 1])) {
      var two, u := src[i..i + 2], Unit(src[i], src[i + 1]);
      assert src[..i + 2] == src[..i] + two;
      assert two[2..] == [] && Decode(two[2..]) == Some([]);
      assert two[0] == src[i] && two[1] == src[i + 1];
      assert [u] + [] == [u];
      assert Decode(two) == Some([u]);
      DecodeAppend(src[..i], two);
      EncodeAppend(Decode(src[..i]).value, [u]);
      assert Encode([u]) == Utf8(u) + Encode([]) == Utf8(u);
    }
  }

  /** The bytes of one character, written at `len`. */
  method Write(buffer: array<byte>, len: nat, unit: seq<byte>) returns (end: nat)
    requires len + |unit| <= buffer.Length
    modifies buffer
    ensures end == len + |unit| && buffer[..end] == old(buffer[..len]) + unit
  {
    end := len;
    var k := 0;
    while k < |unit|
      invariant 0 <= k <= |unit| && end == len + k
      invariant buffer[..end] == old(buffer[..len]) + unit[..k]
    {
      buffer[end] := unit[k];
      end, k := end + 1, k + 1;
    }
    assert unit[..k] == unit;
  }

  /**
   What iconv does beyond converting: whether the coding pair is available, after how many source bytes it stops without an
   error, and how many conversions it counts as irreversible. It may stop early and count some; that is for its caller.
   */
  datatype Library = Library(available: bool, stop: nat, irreversible: nat)

  function Reached(src: seq<byte>, lib: Library): (n: nat)
    ensures n <= |src|
  {
    if lib.stop < |src| then lib.stop else |src|
  }

  /** The text iconv leaves in the buffer unless it fails. */
  function Left(src: seq<byte>, lib: Library): Option<seq<byte>> {
    if lib.available then Convert(src[..Reached(src, lib)]) else None
  }

  /** A whole and reversible conversion. */
  predicate Clean(src: seq<byte>, lib: Library) {
    Left(src, lib).Some? && |src| <= lib.stop && lib.irreversible == 0
  }

  /** The call of iconv: advances over the source and writes the buffer until it must stop or meets an error. */
  method CallIconv(src: seq<byte>, lib: Library, buffer: array<byte>) returns (converted: int, inLeft: nat, len: nat)
    requires lib.available && buffer.Length == 4 * |src|
    modifies buffer
    ensures converted == -1 <==> Left(src, lib).None?
    ensures converted != -1 ==> converted == lib.irreversible && inLeft == |src| - Reached(src, lib)
    ensures converted != -1 ==> len <= buffer.Length && Some(buffer[..len]) == Left(src, lib)
  {
    var i, end := 0, Reached(src, lib);
    ghost var taken := src[..end];
    len := 0;
    assert taken[..i] == [];
    while i < end
      invariant 0 <= i <= end && 2 * len <= 3 * i
      invariant len <= buffer.Length && Convert(taken[..i]) == Some(buffer[..len])
    {
      ConvertStep(taken, i);
      if i + 1 == end || !IsCharacter(Unit(src[i], src[i + 1])) {
        return -1, |src| - i, len;
      }
      len := Write(buffer, len, Utf8(Unit(src[i], src[i + 1])));
      i := i + 2;
    }
    assert taken[..i] == taken;
    converted, inLeft := lib.irreversible, |src| - i;
  }

  /** sms112_iconv. The destination is set as soon as iconv has not failed, also when the code is -1 after all. */
  method ConvertText(src: seq<byte>, lib: Library, incomplete: int, nonreversible: int)
    returns (ret: int, dst: Option<array<byte>>, len: nat)
    ensures ret == 0 || ret == -1
    ensures ret == 0 <==> && Left(src, lib).Some?
                          && (|src| <= lib.stop || incomplete != 0)
                          && (lib.irreversible == 0 || nonreversible != 0)
    ensures dst.Some? <==> Left(src, lib).Some?
    ensures dst.Some? ==> fresh(dst.value) && dst.value.Length == 4 * |src|
    ensures dst.Some? ==> len <= dst.value.Length && Some(dst.value[..len]) == Left(src, lib)
  {
    var buffer := new byte[4 * |src|](_ => 0);
    dst, len := None, 0;
    if !lib.available {
      return -1, dst, len;
    }
    var converted, inLeft;
    converted, inLeft, len := CallIconv(src, lib, buffer);
    if converted == -1 {
      return -1, dst, len;
    }
    dst := Some(buffer);
    if inLeft != 0 && incomplete == 0 {
      return -1, dst, len;
    }
    if converted != 0 && nonreversible == 0 {
      return -1, dst, len;
    }
    ret := 0;
  }
}
