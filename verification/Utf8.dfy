/**
 The `\u` escapes of JSON strings and their UTF-8 form (external/cJSON.c, `parse_hex4` and
 `utf16_literal_to_utf8`; section 3 of RFC 3629).
 */
module Utf8 {
  import opened Bits
  import opened Wrappers

  // ---------- hexadecimal digits ----------

  function HexDigit(c: Byte): Option<nat> {
    if 48 <= c <= 57 then Some(c - 48)
    else if 65 <= c <= 70 then Some(10 + c - 65)
    else if 97 <= c <= 102 then Some(10 + c - 97)
    else None
  }

  predicate Hex4(c: Bytes, at: nat) {
    at + 4 <= |c| && forall k :: at <= k < at + 4 ==> HexDigit(c[k]).Some?
  }

  /** The number that four digits make; 0 when one of them is none. */
  function Hex4Value(c: Bytes, at: nat): (h: nat)
    requires at + 4 <= |c|
    ensures h < 65536
  {
    if Hex4(c, at) then 4096 * HexDigit(c[at]).value + 256 * HexDigit(c[at + 1]).value +
        16 * HexDigit(c[at + 2]).value + HexDigit(c[at + 3]).value
    else 0
  }

  /** `parse_hex4` */
  method ParseHex4(c: Bytes, at: nat) returns (h: nat)
    requires at + 4 <= |c|
    ensures h == Hex4Value(c, at)
  {
    h := 0;
    var i := 0;
    while i < 4
      invariant 0 <= i <= 4 && forall k :: at <= k < at + i ==> HexDigit(c[k]).Some?
      invariant i == 1 ==> h == 16 * HexDigit(c[at]).value
      invariant i == 2 ==> h == 16 * (16 * HexDigit(c[at]).value + HexDigit(c[at + 1]).value)
      invariant i == 3 ==>
                h == 16 * (16 * (16 * HexDigit(c[at]).value + HexDigit(c[at + 1]).value) + HexDigit(c[at + 2]).value)
      invariant i == 4 ==> (h == 16 * (16 * (16 * HexDigit(c[at]).value + HexDigit(c[at + 1]).value) +
                HexDigit(c[at + 2]).value) + HexDigit(c[at + 3]).value)
      invariant i == 0 ==> h == 0
    {
      var d := HexDigit(c[at + i]);
      if d == None {
        assert !Hex4(c, at);
        return 0;
      }
      h := h + d.value;
      if i < 3 {
        h := 16 * h;
      }
      i := i + 1;
    }
  }

  // ---------- code points ----------

  /** A Unicode scalar value. */
  predicate Scalar(cp: nat) {
    cp <= 0x10FFFF && !(0xD800 <= cp <= 0xDFFF)
  }

  /** The code point that a high and a low surrogate stand for. */
  function Pair(hi: nat, lo: nat): nat {
    0x10000 + 1024 * (hi % 1024) + lo % 1024
  }

  predicate High(u: nat) { 0xD800 <= u <= 0xDBFF }

  predicate Low(u: nat) { 0xDC00 <= u <= 0xDFFF }

  /** What the escape at `p` stands for, and how long it is; `end` is the end of the literal. */
  function Escape(c: Bytes, p: nat, end: nat): Option<(nat, nat)>
    requires p <= end <= |c|
  {
    if end - p < 6 then None else
    var u := Hex4Value(c, p + 2);
    if Low(u) then None
    else if High(u) then
      if end - p < 12 || c[p + 6] != 92 || c[p + 7] != 117 then None else
      var v := Hex4Value(c, p + 8);
      if Low(v) then Some((Pair(u, v), 12)) else None
    else Some((u, 6))
  }

  // ---------- UTF-8 ----------

  /** UTF-8 (section 3 of RFC 3629). */
  function Encode(cp: nat): (r: Bytes)
    requires cp <= 0x10FFFF
    ensures 1 <= |r| <= 4
  {
    if cp < 0x80 then [cp]
    else if cp < 0x800 then [0xC0 + cp / 64, 0x80 + cp % 64]
    else if cp < 0x10000 then [0xE0 + cp / 4096, 0x80 + cp / 64 % 64, 0x80 + cp % 64]
    else [0xF0 + cp / 262144, 0x80 + cp / 4096 % 64, 0x80 + cp / 64 % 64, 0x80 + cp % 64]
  }

  predicate Tail(b: Byte) { 0x80 <= b <= 0xBF }

  /** The syntax of one character in section 4 of RFC 3629. */
  predicate WellFormed(r: Bytes) {
    || (|r| == 1 && r[0] <= 0x7F)
    || (|r| == 2 && 0xC2 <= r[0] <= 0xDF && Tail(r[1]))
    || (|r| == 3 && Tail(r[1]) && Tail(r[2]) && ((r[0] == 0xE0 && r[1] >= 0xA0) || (0xE1 <= r[0] <= 0xEC) ||
        (r[0] == 0xED &&
        r[1] <= 0x9F) || (0xEE <= r[0] <= 0xEF)))
    || (|r| == 4 && Tail(r[1]) && Tail(r[2]) && Tail(r[3]) &&
        ((r[0] == 0xF0 && r[1] >= 0x90) || (0xF1 <= r[0] <= 0xF3) || (r[0] == 0xF4 && r[1] <= 0x8F)))
  }

  /** The number that a character's bytes stand for. */
  function Decode(r: Bytes): nat
    requires WellFormed(r)
  {
    var a: int := r[0];
    if |r| == 1 then a
    else
      var b: int := r[1] - 0x80;
      if |r| == 2 then 64 * (a - 0xC0) + b
      else
        var c: int := r[2] - 0x80;
        if |r| == 3 then 4096 * (a - 0xE0) + 64 * b + c
        else 262144 * (a - 0xF0) + 4096 * b + 64 * c + (r[3] as int - 0x80)
  }

  lemma SplitBase64(cp: nat)
    ensures cp == 64 * (cp / 64) + cp % 64 && cp / 64 == 64 * (cp / 4096) + cp / 64 % 64
    ensures cp / 4096 == 64 * (cp / 262144) + cp / 4096 % 64
  {
    assert cp / 64 / 64 == cp / 4096;
    assert cp / 4096 / 64 == cp / 262144;
  }

  /** Every scalar value has one well-formed form, which says what it is. */
  lemma EncodeDecode(cp: nat)
    requires Scalar(cp)
    ensures WellFormed(Encode(cp)) && Decode(Encode(cp)) == cp
  {
    SplitBase64(cp);
  }

  /** A well-formed character is the form of a scalar value. */
  lemma DecodeEncode(r: Bytes)
    requires WellFormed(r)
    ensures Scalar(Decode(r)) && Encode(Decode(r)) == r
  {
    if |r| == 2 {
      SixBits(r[0] - 0xC0, r[1] - 0x80);
    } else if |r| == 3 {
      BackThree(r);
    } else if |r| == 4 {
      BackFour(r);
    }
  }

  lemma BackThree(r: Bytes)
    requires WellFormed(r) && |r| == 3
    ensures Scalar(Decode(r)) && Encode(Decode(r)) == r
  {
    SixBits(r[0] - 0xE0, r[1] - 0x80);
    SixBits(64 * (r[0] as int - 0xE0) + (r[1] as int - 0x80), r[2] - 0x80);
  }

  lemma BackFour(r: Bytes)
    requires WellFormed(r) && |r| == 4
    ensures Scalar(Decode(r)) && Encode(Decode(r)) == r
  {
    var a, b, c, d := r[0] as int - 0xF0, r[1] as int - 0x80, r[2] as int - 0x80, r[3] as int - 0x80;
    SixBits(a, b);
    SixBits(64 * a + b, c);
    SixBits(4096 * a + 64 * b + c, d);
    FourDigits(a, b, c, d);
  }

  lemma FourDigits(a: int, b: int, c: int, d: int)
    requires 0 <= a && 0 <= b < 64 && 0 <= c < 64 && 0 <= d < 64
    ensures var cp := 262144 * a + 4096 * b + 64 * c + d;
            cp / 262144 == a && cp / 4096 % 64 == b && cp / 64 % 64 == c && cp % 64 == d
  {
  }

  lemma SixBits(a: int, b: int)
    requires 0 <= b < 64
    ensures (64 * a + b) / 64 == a && (64 * a + b) % 64 == b
  {
  }

  /** An accepted escape stands for a scalar value. */
  lemma EscapeScalar(c: Bytes, p: nat, end: nat)
    requires p <= end <= |c| && Escape(c, p, end).Some?
    ensures var (cp, n) := Escape(c, p, end).value; Scalar(cp) && (n == 6 || n == 12) && p + n <= end
  {
  }

  /** `utf16_literal_to_utf8`: writes the character and returns the length of the escape, or 0. */
  method Utf16ToUtf8(c: Bytes, p: nat, end: nat, out: array<Byte>, at: nat) returns (n: nat, at': nat)
    requires p <= end <= |c|
    requires Escape(c, p, end).Some? ==> at + |Encode(Escape(c, p, end).value.0)| <= out.Length
    modifies out
    ensures match Escape(c, p, end)
            case None => n == 0 && at' == at && out[..] == old(out[..])
            case Some((cp, len)) => n == len && at' == at + |Encode(cp)| && out[..at'] == old(out[..at]) + Encode(cp)
  {
    hide Encode;
    n, at' := 0, at;
    if end - p < 6 {
      return;
    }
    var first := ParseHex4(c, p + 2);
    if 0xDC00 <= first <= 0xDFFF {
      return;
    }
    var codepoint, length;
    if 0xD800 <= first <= 0xDBFF {
      length := 12;
      if end - (p + 6) < 6 {
        return;
      }
      if c[p + 6] != 92 || c[p + 7] != 117 {
        return;
      }
      var second := ParseHex4(c, p + 8);
      if second < 0xDC00 || second > 0xDFFF {
        return;
      }
      codepoint := Pair(first, second);
    } else {
      length := 6;
      codepoint := first;
    }
    at' := WriteUtf8(codepoint, out, at);
    n := length;
  }

  /** The encoding loop, from the last byte to the first. */
  method WriteUtf8(cp: nat, out: array<Byte>, at: nat) returns (at': nat)
    requires cp <= 0x10FFFF && at + |Encode(cp)| <= out.Length
    modifies out
    ensures at' == at + |Encode(cp)| && out[..at'] == old(out[..at]) + Encode(cp)
  {
    var length, mark := 1, 0;
    if cp < 0x80 {
    } else if cp < 0x800 {
      length, mark := 2, 0xC0;
    } else if cp < 0x10000 {
      length, mark := 3, 0xE0;
    } else {
      length, mark := 4, 0xF0;
    }
    ghost var before := out[..at];
    var x, position := cp, length - 1;
    while position > 0
      invariant 0 <= position <= length - 1 && out[..at] == before
      invariant x == if length - position == 1 then cp else if length - position == 2 then cp / 64 else
                if length - position == 3 then cp / 4096 else cp / 262144
      invariant forall k :: position < k < length ==> out[at + k] == Encode(cp)[k]
    {
      SplitBase64(cp);
      out[at + position] := 0x80 + x % 64;
      x := x / 64;
      position := position - 1;
    }
    out[at] := x + mark;
    at' := at + length;
    assert out[at..at'] == Encode(cp);
    assert out[..at'] == out[..at] + out[at..at'];
  }
}
