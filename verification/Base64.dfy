/** Base64 with padding (section 4 of RFC 4648), decoded canonically (section 3.5). */
module Base64 {
  import opened Integers
  import opened Wrappers

  type sextet = x: int | 0 <= x < 64

  function ToChar(v: sextet): char {
    if v < 26 then (v + 'A' as int) as char
    else if v < 52 then (v - 26 + 'a' as int) as char
    else if v < 62 then (v - 52 + '0' as int) as char
    else if v == 62 then '+' else '/'
  }

  predicate InAlphabet(c: char) {
    'A' <= c <= 'Z' || 'a' <= c <= 'z' || '0' <= c <= '9' || c == '+' || c == '/'
  }

  function FromChar(c: char): sextet
    requires InAlphabet(c)
  {
    if 'A' <= c <= 'Z' then c as int - 'A' as int
    else if 'a' <= c <= 'z' then c as int - 'a' as int + 26
    else if '0' <= c <= '9' then c as int - '0' as int + 52
    else if c == '+' then 62 else 63
  }

  lemma CharRoundTrip(v: sextet)
    ensures InAlphabet(ToChar(v)) && FromChar(ToChar(v)) == v
  {
  }

  lemma CharCanonical(c: char)
    requires InAlphabet(c)
    ensures ToChar(FromChar(c)) == c
  {
  }

  function ToChars(v: seq<sextet>): string {
    seq(|v|, i requires 0 <= i < |v| => ToChar(v[i]))
  }

  predicate AllInAlphabet(s: string) {
    forall i :: 0 <= i < |s| ==> InAlphabet(s[i])
  }

  function FromChars(s: string): seq<sextet>
    requires AllInAlphabet(s)
  {
    seq(|s|, i requires 0 <= i < |s| => FromChar(s[i]))
  }

  lemma CharsRoundTrip(v: seq<sextet>)
    ensures AllInAlphabet(ToChars(v)) && FromChars(ToChars(v)) == v
  {
    forall i | 0 <= i < |v|
      ensures InAlphabet(ToChars(v)[i]) && FromChar(ToChars(v)[i]) == v[i]
    {
      CharRoundTrip(v[i]);
    }
  }

  lemma CharsCanonical(s: string)
    requires AllInAlphabet(s)
    ensures ToChars(FromChars(s)) == s
  {
    forall i | 0 <= i < |s|
      ensures ToChars(FromChars(s))[i] == s[i]
    {
      CharCanonical(s[i]);
    }
  }

  /** One to three bytes as two to four sextets, the last padded with zero bits. */
  function ToSextets(b: seq<byte>): (v: seq<sextet>)
    requires 1 <= |b| <= 3
    ensures |v| == |b| + 1
  {
    var b1: int := if |b| > 1 then b[1] else 0;
    var b2: int := if |b| > 2 then b[2] else 0;
    [b[0] / 4, b[0] % 4 * 16 + b1 / 16, b1 % 16 * 4 + b2 / 64, b2 % 64][..|b| + 1]
  }

  /** The bytes of two to four sextets, if the unused low bits are zero. */
  function FromSextets(v: seq<sextet>): (b: Option<seq<byte>>)
    requires 2 <= |v| <= 4
    ensures b.Some? ==> |b.value| == |v| - 1
  {
    var v2: int := if |v| > 2 then v[2] else 0;
    var v3: int := if |v| > 3 then v[3] else 0;
    if (|v| == 2 && v[1] % 16 != 0) || (|v| == 3 && v2 % 4 != 0) then None
    else Some([v[0] * 4 + v[1] / 16, v[1] % 16 * 16 + v2 / 4, v2 % 4 * 64 + v3][..|v| - 1])
  }

  function EncodeGroup(b: seq<byte>): (s: string)
    requires 1 <= |b| <= 3
    ensures |s| == 4
  {
    ToChars(ToSextets(b)) + seq(3 - |b|, i => '=')
  }

  /** How many of the four characters are not padding. */
  function DataChars(s: string): nat
    requires |s| == 4
  {
    if s[3] != '=' then 4 else if s[2] != '=' then 3 else 2
  }

  function DecodeGroup(s: string): (b: Option<seq<byte>>)
    requires |s| == 4
    ensures b.Some? ==> 1 <= |b.value| <= 3
  {
    var data := s[..DataChars(s)];
    if AllInAlphabet(data) then FromSextets(FromChars(data)) else None
  }

  function Encode(b: seq<byte>): string {
    if b == [] then ""
    else if |b| <= 3 then EncodeGroup(b)
    else EncodeGroup(b[..3]) + Encode(b[3..])
  }

  function Decode(s: string): Option<seq<byte>> {
    if s == "" then Some([])
    else if |s| < 4 then None
    else match DecodeGroup(s[..4])
      case None => None
      case Some(group) =>
        if |s| == 4 then Some(group)
        else if |group| < 3 then None
        else match Decode(s[4..])
          case None => None
          case Some(rest) => Some(group + rest)
  }

  lemma BytesKept(b0: byte, b1: byte, b2: byte)
    ensures var v0, v1, v2, v3 := b0 / 4, b0 % 4 * 16 + b1 / 16, b1 % 16 * 4 + b2 / 64, b2 % 64;
            && v0 * 4 + v1 / 16 == b0
            && v1 % 16 * 16 + v2 / 4 == b1
            && v2 % 4 * 64 + v3 == b2
            && (b1 == 0 ==> v1 % 16 == 0) && (b2 == 0 ==> v2 % 4 == 0)
  {
  }

  lemma SextetsKept(v0: sextet, v1: sextet, v2: sextet, v3: sextet)
    ensures var b0, b1, b2 := v0 * 4 + v1 / 16, v1 % 16 * 16 + v2 / 4, v2 % 4 * 64 + v3;
            && b0 / 4 == v0 && b0 % 4 * 16 + b1 / 16 == v1
            && b1 % 16 * 4 + b2 / 64 == v2 && b2 % 64 == v3
  {
  }

  /** The alphabet of section 4 of RFC 4648, by where the upper and lower case letters and the digits start. */
  predicate WritesAs(v: int, c: char) {
    || (0 <= v <= 25 && 'A' <= c <= 'Z' && c as int - 'A' as int == v)
    || (26 <= v <= 51 && 'a' <= c <= 'z' && c as int - 'a' as int == v - 26)
    || (52 <= v <= 61 && '0' <= c <= '9' && c as int - '0' as int == v - 52)
    || (v == 62 && c == '+') || (v == 63 && c == '/')
  }

  function At(b: seq<int>, i: nat): int {
    if i < |b| then b[i] else 0
  }

  /** Four sextets are the 24 bits of three bytes; missing bytes count as zero, and the sextets made of
      them alone are not written. */
  lemma SextetsAreBits(b: seq<byte>)
    requires 1 <= |b| <= 3
    ensures var v := ToSextets(b);
            ((At(v, 0) * 64 + At(v, 1)) * 64 + At(v, 2)) * 64 + At(v, 3) == (At(b, 0) * 256 + At(b, 1)) * 256 + At(b, 2)
  {
    var b0, b1, b2 := At(b, 0), At(b, 1), At(b, 2);
    var v0, v1, v2, v3 := b0 / 4, b0 % 4 * 16 + b1 / 16, b1 % 16 * 4 + b2 / 64, b2 % 64;
    assert At(ToSextets(b), 0) == v0 && At(ToSextets(b), 1) == v1;
    assert At(ToSextets(b), 2) == v2 && At(ToSextets(b), 3) == v3;
    assert ((v0 * 64 + v1) * 64 + v2) * 64 + v3 == (b0 * 256 + b1) * 256 + b2;
  }

  /** How a group is written: its sextets' characters, then "=" up to four. */
  lemma GroupText(b: seq<byte>)
    requires 1 <= |b| <= 3
    ensures var v := ToSextets(b);
            && |v| == |b| + 1 && |EncodeGroup(b)| == 4
            && (forall i :: 0 <= i < |b| + 1 ==> WritesAs(v[i], EncodeGroup(b)[i]))
            && (forall i :: |b| + 1 <= i < 4 ==> EncodeGroup(b)[i] == '=')
  {
  }

  lemma SextetsRoundTrip(b: seq<byte>)
    requires 1 <= |b| <= 3
    ensures FromSextets(ToSextets(b)) == Some(b)
  {
    var b1: byte := if |b| > 1 then b[1] else 0;
    var b2: byte := if |b| > 2 then b[2] else 0;
    BytesKept(b[0], b1, b2);
    assert b == [b[0], b1, b2][..|b|];
  }

  lemma SextetsCanonical(v: seq<sextet>)
    requires 2 <= |v| <= 4 && FromSextets(v).Some?
    ensures ToSextets(FromSextets(v).value) == v
  {
    var v0: int, v1: int := v[0], v[1];
    var v2: int := if |v| > 2 then v[2] else 0;
    var v3: int := if |v| > 3 then v[3] else 0;
    var b0, b1, b2 := v0 * 4 + v1 / 16, v1 % 16 * 16 + v2 / 4, v2 % 4 * 64 + v3;
    var b := FromSextets(v).value;
    SextetsKept(v0, v1, v2, v3);
    assert b == [b0, b1, b2][..|v| - 1];
    assert b[0] == b0 && (|v| > 2 ==> b[1] == b1) && (|v| > 3 ==> b[2] == b2);
    assert (|v| == 2 ==> b1 == 0) && (|v| <= 3 ==> b2 == 0);
    assert ToSextets(b) == [v0, v1, v2, v3][..|v|];
    assert v == [v0, v1, v2, v3][..|v|];
  }

  lemma GroupRoundTrip(b: seq<byte>)
    requires 1 <= |b| <= 3
    ensures DecodeGroup(EncodeGroup(b)) == Some(b)
  {
    var s, v := EncodeGroup(b), ToSextets(b);
    CharsRoundTrip(v);
    assert s[..|v|] == ToChars(v);
    assert InAlphabet(ToChars(v)[|v| - 1]);
    assert DataChars(s) == |v|;
    SextetsRoundTrip(b);
  }

  lemma GroupCanonical(s: string)
    requires |s| == 4 && DecodeGroup(s).Some?
    ensures EncodeGroup(DecodeGroup(s).value) == s
  {
    var n := DataChars(s);
    SextetsCanonical(FromChars(s[..n]));
    CharsCanonical(s[..n]);
    assert s == s[..n] + seq(4 - n, i => '=');
  }

  lemma {:induction false} RoundTrip(b: seq<byte>)
    ensures Decode(Encode(b)) == Some(b)
  {
    if b == [] {
    } else if |b| <= 3 {
      GroupRoundTrip(b);
      assert Encode(b)[..4] == Encode(b);
    } else {
      GroupRoundTrip(b[..3]);
      RoundTrip(b[3..]);
      assert Encode(b)[..4] == EncodeGroup(b[..3]) && Encode(b)[4..] == Encode(b[3..]);
      assert b[..3] + b[3..] == b;
      NonEmpty(b[3..]);
    }
  }

  lemma NonEmpty(b: seq<byte>)
    requires b != []
    ensures |Encode(b)| >= 4
  {
  }

  lemma EncodeAppend(group: seq<byte>, rest: seq<byte>)
    requires |group| == 3 && rest != []
    ensures Encode(group + rest) == EncodeGroup(group) + Encode(rest)
  {
    assert (group + rest)[..3] == group && (group + rest)[3..] == rest;
  }

  /** No two texts decode to the same bytes. */
  lemma {:induction false} Canonical(s: string)
    requires Decode(s).Some?
    ensures Encode(Decode(s).value) == s
  {
    if s != "" {
      GroupCanonical(s[..4]);
      var group := DecodeGroup(s[..4]).value;
      if |s| == 4 {
        assert s[..4] == s;
      } else {
        Canonical(s[4..]);
        EncodeAppend(group, Decode(s[4..]).value);
        assert s == s[..4] + s[4..];
      }
    }
  }

  lemma {:induction false} Length(b: seq<byte>)
    ensures |Encode(b)| == (|b| + 2) / 3 * 4
  {
    if |b| > 3 {
      Length(b[3..]);
      assert |Encode(b)| == 4 + |Encode(b[3..])|;
      assert (|b| + 2) / 3 == (|b[3..]| + 2) / 3 + 1;
    }
  }

  lemma {:induction false} Alphabet(b: seq<byte>)
    ensures forall i :: 0 <= i < |Encode(b)| ==> InAlphabet(Encode(b)[i]) || Encode(b)[i] == '='
  {
    if b != [] {
      CharsRoundTrip(ToSextets(b[..if |b| < 3 then |b| else 3]));
    }
    if |b| > 3 {
      Alphabet(b[3..]);
    } else {
      assert b[..|b|] == b;
    }
  }
}
