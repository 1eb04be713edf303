/** UTF-8 (section 3 of RFC 3629), between Unicode scalar values and bytes. */
module Utf8 {
  import opened Integers
  import opened Wrappers

  function EncodeChar(c: char): (bytes: seq<byte>)
    ensures 1 <= |bytes| <= 4
  {
    var n := c as int;
    if n < 0x80 then [n]
    else if n < 0x800 then [0xC0 + n / 64, 0x80 + n % 64]
    else if n < 0x10000 then [0xE0 + n / 64 / 64, 0x80 + n / 64 % 64, 0x80 + n % 64]
    else [0xF0 + n / 64 / 64 / 64, 0x80 + n / 64 / 64 % 64, 0x80 + n / 64 % 64, 0x80 + n % 64]
  }

  function Encode(s: string): seq<byte> {
    if s == "" then [] else EncodeChar(s[0]) + Encode(s[1..])
  }

  predicate Continuation(b: seq<byte>, i: nat) {
    i < |b| && 0x80 <= b[i] < 0xC0
  }

  /** The four forms of section 3 of RFC 3629: the lead byte gives the length, every other byte carries six
      bits, and the shortest form is used. */
  lemma EncodeCharForm(c: char)
    ensures var b, n := EncodeChar(c), c as int;
            && (forall i :: 1 <= i < |b| ==> 0x80 <= b[i] <= 0xBF)
            && (|b| == 1 ==> n == b[0] as int && n <= 0x7F)
            && (|b| == 2 ==> 0xC0 <= b[0] <= 0xDF && n == (b[0] as int - 0xC0) * 64 + (b[1] as int - 0x80) && n >= 0x80)
            && (|b| == 3 ==> 0xE0 <= b[0] <= 0xEF && n >= 0x800
                             && n == ((b[0] as int - 0xE0) * 64 + (b[1] as int - 0x80)) * 64 + (b[2] as int - 0x80))
            && (|b| == 4 ==> 0xF0 <= b[0] <= 0xF7 && n >= 0x10000
                             && n == (((b[0] as int - 0xF0) * 64 + (b[1] as int - 0x80)) * 64
                                      + (b[2] as int - 0x80)) * 64 + (b[3] as int - 0x80))
  {
  }

  /** Appends the six payload bits of continuation byte `i` to the bits read so far. */
  function Shift(bits: nat, b: seq<byte>, i: nat): nat
    requires Continuation(b, i)
  {
    bits * 64 + (b[i] as int - 0x80)
  }

  predicate IsScalar(n: int) {
    0 <= n < 0xD800 || 0xE000 <= n < 0x110000
  }

  function Scalar(n: nat, least: nat, width: nat): Option<(char, nat)> {
    if n < least || !IsScalar(n) then None else Some((n as char, width))
  }

  /** The scalar value at the front of `b` and its width. Overlong forms, surrogates and
      values above U+10FFFF are refused, as `String::from_utf8` refuses them. */
  function DecodeChar(b: seq<byte>): Option<(char, nat)> {
    if b == [] then None
    else
      var lead: int := b[0];
      if lead < 0x80 then Scalar(lead, 0, 1)
      else if lead < 0xC0 || !Continuation(b, 1) then None
      else if lead < 0xE0 then Scalar(Shift(lead - 0xC0, b, 1), 0x80, 2)
      else if !Continuation(b, 2) then None
      else if lead < 0xF0 then Scalar(Shift(Shift(lead - 0xE0, b, 1), b, 2), 0x800, 3)
      else if !Continuation(b, 3) || 0xF8 <= lead then None
      else Scalar(Shift(Shift(Shift(lead - 0xF0, b, 1), b, 2), b, 3), 0x10000, 4)
  }

  lemma DecodeCharBound(b: seq<byte>)
    ensures DecodeChar(b).Some? ==> 1 <= DecodeChar(b).value.1 <= |b|
  {
  }

  function Decode(b: seq<byte>): Option<string>
    decreases |b|
  {
    if b == [] then Some("")
    else match DecodeChar(b)
      case None => None
      case Some((c, width)) =>
        DecodeCharBound(b);
        match Decode(b[width..])
        case None => None
        case Some(rest) => Some([c] + rest)
  }

  lemma CharRoundTrip(c: char, rest: seq<byte>)
    ensures DecodeChar(EncodeChar(c) + rest) == Some((c, |EncodeChar(c)|))
  {
    var n, b := c as int, EncodeChar(c) + rest;
    assert forall i :: 0 <= i < |EncodeChar(c)| ==> b[i] == EncodeChar(c)[i];
    if 0x80 <= n {
      assert Continuation(b, 1);
    }
    if 0x800 <= n {
      assert Continuation(b, 2);
    }
    if 0x10000 <= n {
      assert Continuation(b, 3);
    }
  }

  lemma ShiftUndone(bits: nat, b: seq<byte>, i: nat)
    requires Continuation(b, i)
    ensures Shift(bits, b, i) / 64 == bits && 0x80 + Shift(bits, b, i) % 64 == b[i]
  {
  }

  lemma CharCanonical(b: seq<byte>)
    requires DecodeChar(b).Some?
    ensures var (c, width) := DecodeChar(b).value; width <= |b| && b[..width] == EncodeChar(c)
  {
    var lead: int := b[0];
    if lead < 0x80 {
    } else if lead < 0xE0 {
      ShiftUndone(lead - 0xC0, b, 1);
    } else if lead < 0xF0 {
      var bits := Shift(lead - 0xE0, b, 1);
      ShiftUndone(lead - 0xE0, b, 1);
      ShiftUndone(bits, b, 2);
    } else {
      var bits := Shift(lead - 0xF0, b, 1);
      ShiftUndone(lead - 0xF0, b, 1);
      ShiftUndone(bits, b, 2);
      ShiftUndone(Shift(bits, b, 2), b, 3);
    }
  }

  lemma {:induction false} RoundTrip(s: string)
    ensures Decode(Encode(s)) == Some(s)
  {
    if s != "" {
      var head, rest := EncodeChar(s[0]), Encode(s[1..]);
      CharRoundTrip(s[0], rest);
      assert (head + rest)[|head|..] == rest;
      RoundTrip(s[1..]);
      assert [s[0]] + s[1..] == s;
    }
  }

  lemma EncodeCons(c: char, s: string)
    ensures Encode([c] + s) == EncodeChar(c) + Encode(s)
  {
    assert ([c] + s)[1..] == s;
  }

  /** No two byte strings decode to the same text. */
  lemma {:induction false} Canonical(b: seq<byte>)
    requires Decode(b).Some?
    ensures Encode(Decode(b).value) == b
    decreases |b|
  {
    if b != [] {
      CharCanonical(b);
      var (c, width) := DecodeChar(b).value;
      Canonical(b[width..]);
      EncodeCons(c, Decode(b[width..]).value);
      assert b == b[..width] + b[width..];
    }
  }

  lemma {:induction false} EncodeConcat(s: string, t: string)
    ensures Encode(s + t) == Encode(s) + Encode(t)
  {
    if s == "" {
      assert s + t == t;
    } else {
      assert (s + t)[1..] == s[1..] + t;
      EncodeConcat(s[1..], t);
    }
  }

  predicate Ascii(s: string) {
    forall i :: 0 <= i < |s| ==> s[i] < 128 as char
  }

  lemma {:induction false} AsciiLength(s: string)
    requires Ascii(s)
    ensures |Encode(s)| == |s|
  {
    if s != "" {
      AsciiLength(s[1..]);
    }
  }
}
