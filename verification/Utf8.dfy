/** Text as code points, its UTF-8 bytes and its length in UTF-16 units (catLen in http.go). */
module Utf8 {

  type Byte = b: int | 0 <= b < 0x100

  type Rune = r: int | 0 <= r < 0xd800 || 0xe000 <= r < 0x110000

  type Text = seq<Rune>

  /** The encoding of one code point, section 3 of RFC 3629. */
  function Encode(r: Rune): (b: seq<Byte>)
    ensures 1 <= |b| <= 4 && (|b| == 1 <==> r < 0x80)
    ensures forall i :: 0 <= i < |b| ==> b[i] < 0xf8
  {
    if r < 0x80 then [r]
    else if r < 0x800 then [0xc0 + r / 0x40, 0x80 + r % 0x40]
    else if r < 0x10000 then [0xe0 + r / 0x1000, 0x80 + r / 0x40 % 0x40, 0x80 + r % 0x40]
    else [0xf0 + r / 0x40000, 0x80 + r / 0x1000 % 0x40, 0x80 + r / 0x40 % 0x40, 0x80 + r % 0x40]
  }

  /** The bits that a byte after the first one carries. */
  function More(b: Byte): int { b as int - 0x80 }

  /** The code point that the bytes start with, or -1. */
  function DecodeFirst(b: seq<Byte>): (r: int) {
    if b == [] then -1
    else
      var lead: int := b[0];
      if lead < 0x80 then lead
      else if 0xc0 <= lead < 0xe0 && |b| > 1 then (lead - 0xc0) * 0x40 + More(b[1])
      else if 0xe0 <= lead < 0xf0 && |b| > 2 then ((lead - 0xe0) * 0x40 + More(b[1])) * 0x40 + More(b[2])
      else if 0xf0 <= lead < 0xf8 && |b| > 3 then (((lead - 0xf0) * 0x40 + More(b[1])) * 0x40 + More(b[2])) * 0x40 + More(b[3])
      else -1
  }

  /** The bytes of a code point decode to it, and all but the first are marked as continuing it. */
  lemma EncodeDecodes(r: Rune, rest: seq<Byte>)
    ensures DecodeFirst(Encode(r) + rest) == r
    ensures forall i :: 1 <= i < |Encode(r)| ==> 0x80 <= Encode(r)[i] < 0xc0
  {
    var e := Encode(r);
    var b := e + rest;
    assert b[0] == e[0] && (|e| > 1 ==> b[1] == e[1]) && (|e| > 2 ==> b[2] == e[2]) && (|e| > 3 ==> b[3] == e[3]);
    SplitBits(r);
    SplitBits(r / 0x40);
    SplitBits(r / 0x1000);
    ShiftBits(r);
  }

  lemma SplitBits(n: nat)
    ensures n / 0x40 * 0x40 + n % 0x40 == n
  {
  }

  lemma ShiftBits(n: nat)
    ensures n / 0x1000 == n / 0x40 / 0x40 && n / 0x40000 == n / 0x1000 / 0x40
  {
  }

  function Bytes(s: Text): (b: seq<Byte>)
    ensures |s| <= |b| <= 4 * |s|
  {
    if s == [] then [] else Encode(s[0]) + Bytes(s[1..])
  }

  /** catLen */
  function Units(s: Text): (n: nat)
    ensures |s| <= n <= 2 * |s|
  {
    if s == [] then 0 else (if s[0] >= 0x10000 then 2 else 1) + Units(s[1..])
  }

  predicate Ascii(s: Text) { forall i :: 0 <= i < |s| ==> s[i] < 0x80 }

  /** The lengths agree for ASCII text and for no other. */
  lemma {:induction false} LengthsTell(s: Text)
    ensures Units(s) <= |Bytes(s)| <= 3 * Units(s)
    ensures |Bytes(s)| == Units(s) <==> Ascii(s)
    ensures Ascii(s) ==> |Bytes(s)| == |s|
  {
    if s != [] {
      LengthsTell(s[1..]);
      if Ascii(s[1..]) && s[0] < 0x80 {
        assert s == [s[0]] + s[1..];
      }
    }
  }

  /** No byte of a text is 0xf8 or above: the end marks of the binary formats cannot occur in it. */
  lemma {:induction false} BytesBelow(s: Text)
    ensures forall i :: 0 <= i < |Bytes(s)| ==> Bytes(s)[i] < 0xf8
  {
    if s != [] {
      BytesBelow(s[1..]);
    }
  }

  lemma NotAscii(s: Text)
    requires !Ascii(s)
    ensures |Bytes(s)| >= 2
  {
    LengthsTell(s);
    assert s != [];
  }

  // ---------------------------------------------------------------- bytes determine the text

  /** The first code point of an encoding and its length. */
  lemma EncodeTells(a: Rune, b: Rune, x: seq<Byte>, y: seq<Byte>)
    requires Encode(a) + x == Encode(b) + y
    ensures a == b && x == y
  {
    var p, q := Encode(a), Encode(b);
    assert (p + x)[0] == p[0] && (q + y)[0] == q[0];
    assert |p| == |q|;
    assert (p + x)[..|p|] == p && (q + y)[..|q|] == q;
    assert (p + x)[|p|..] == x && (q + y)[|q|..] == y;
    assert forall i :: 0 <= i < |p| ==> p[i] == q[i];
    SameEncoding(a, b);
  }

  lemma SameDigits(a: nat, b: nat)
    requires a / 0x40 == b / 0x40 && a % 0x40 == b % 0x40
    ensures a == b
  {
  }

  lemma Digits(a: nat)
    ensures a / 0x1000 == a / 0x40 / 0x40 && a / 0x40000 == a / 0x1000 / 0x40
  {
  }

  lemma SameEncoding(a: Rune, b: Rune)
    requires Encode(a) == Encode(b)
    ensures a == b
  {
    assert |Encode(a)| == |Encode(b)|;
    forall i | 0 <= i < |Encode(a)| ensures Encode(a)[i] == Encode(b)[i] {
    }
    Digits(a);
    Digits(b);
    if a >= 0x10000 {
      SameLong(a, b);
    } else if a >= 0x800 {
      assert Encode(a)[1] == Encode(b)[1] && Encode(a)[2] == Encode(b)[2] && Encode(a)[0] == Encode(b)[0];
      SameDigits(a / 0x40, b / 0x40);
      SameDigits(a, b);
    } else if a >= 0x80 {
      assert Encode(a)[1] == Encode(b)[1] && Encode(a)[0] == Encode(b)[0];
      SameDigits(a, b);
    } else {
      assert Encode(a)[0] == Encode(b)[0];
    }
  }

  lemma SameLong(a: Rune, b: Rune)
    requires a >= 0x10000 && b >= 0x10000 && Encode(a) == Encode(b)
    ensures a == b
  {
    var p, q := Encode(a), Encode(b);
    assert p[0] == q[0] && p[1] == q[1] && p[2] == q[2] && p[3] == q[3];
    Digits(a);
    Digits(b);
    SameDigits(a / 0x1000, b / 0x1000);
    SameDigits(a / 0x40, b / 0x40);
    SameDigits(a, b);
  }

  lemma {:induction false} BytesInjective(s: Text, t: Text)
    requires Bytes(s) == Bytes(t)
    ensures s == t
  {
    if s != [] && t != [] {
      EncodeTells(s[0], t[0], Bytes(s[1..]), Bytes(t[1..]));
      BytesInjective(s[1..], t[1..]);
      assert s == [s[0]] + s[1..] && t == [t[0]] + t[1..];
    }
  }
}
