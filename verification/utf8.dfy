/** UTF-8 as Foundation's `String(data:encoding: .utf8)` uses it: a byte string
    decodes to a string of Unicode scalar values, or fails when the bytes are not
    well-formed UTF-8 in the sense of RFC 3629 (no overlong forms, no surrogate
    code points, nothing above U+10FFFF, no truncated sequence).

    Encoding is the partner of decoding: every string encodes to bytes that decode
    back to it, and every byte string that decodes is the encoding of its result. */
module Utf8 {
  import opened Base

  /** A continuation byte, 10xxxxxx. */
  predicate IsContinuation(b: byte) {
    0x80 <= b < 0xC0
  }

  /** The UTF-8 encoding of one scalar value: one to four bytes, the first of
      which says how many follow. */
  function EncodeScalar(c: char): (r: Bytes)
    ensures 1 <= |r| <= 4
    ensures |r| == 1 <==> (c as int) < 0x80
    ensures forall i :: 1 <= i < |r| ==> IsContinuation(r[i])
  {
    var v := c as int;
    if v < 0x80 then [v]
    else if v < 0x800 then [0xC0 + v / 64, 0x80 + v % 64]
    else if v < 0x1_0000 then [0xE0 + v / 4096, 0x80 + (v / 64) % 64, 0x80 + v % 64]
    else [0xF0 + v / 262144, 0x80 + (v / 4096) % 64, 0x80 + (v / 64) % 64, 0x80 + v % 64]
  }

  /** The bits of `b` below the marker `tag` it starts with. */
  function Payload(b: int, tag: int): int {
    b - tag
  }

  /** Decodes the scalar at the front of `b`, together with the number of bytes
      it occupies; None when the front of `b` is not a well-formed sequence. */
  function DecodeScalar(b: Bytes): (r: Option<(char, nat)>)
    ensures r.Some? ==> 1 <= r.value.1 <= |b| && r.value.1 <= 4
  {
    if |b| == 0 then None
    else
      var b0: int := b[0];
      if b0 < 0x80 then Some((b0 as char, 1))
      else if 0xC2 <= b0 < 0xE0 then
        if |b| >= 2 && IsContinuation(b[1]) then
          Some(((Payload(b0, 0xC0) * 64 + Payload(b[1], 0x80)) as char, 2))
        else None
      else if 0xE0 <= b0 < 0xF0 then
        if |b| >= 3 && IsContinuation(b[1]) && IsContinuation(b[2]) then
          var v := Payload(b0, 0xE0) * 4096 + Payload(b[1], 0x80) * 64 + Payload(b[2], 0x80);
          if v < 0x800 || (0xD800 <= v < 0xE000) then None
          else Some((v as char, 3))
        else None
      else if 0xF0 <= b0 < 0xF5 then
        if |b| >= 4 && IsContinuation(b[1]) && IsContinuation(b[2]) && IsContinuation(b[3]) then
          var v := Payload(b0, 0xF0) * 262144 + Payload(b[1], 0x80) * 4096
                   + Payload(b[2], 0x80) * 64 + Payload(b[3], 0x80);
          if v < 0x1_0000 || v >= 0x11_0000 then None
          else Some((v as char, 4))
        else None
      else None
  }

  /** The UTF-8 encoding of a string, scalar by scalar. */
  function Encode(s: string): (r: Bytes)
    ensures |s| <= |r| <= 4 * |s|
  {
    if |s| == 0 then [] else EncodeScalar(s[0]) + Encode(s[1..])
  }

  /** Encoding a string that starts with `c` starts with the encoding of `c`. */
  lemma EncodeCons(c: char, s: string)
    ensures Encode([c] + s) == EncodeScalar(c) + Encode(s)
  {
    assert ([c] + s)[1..] == s;
  }

  /** Decodes a whole byte string; None when any part of it is malformed. A
      decoded string is exactly the one whose encoding is the input. */
  function Decode(b: Bytes): (r: Option<string>)
    ensures r.Some? ==> |r.value| <= |b| && Encode(r.value) == b
    decreases |b|
  {
    if |b| == 0 then Some([])
    else
      match DecodeScalar(b)
      case None => None
      case Some((c, n)) =>
        match Decode(b[n..])
        case None => None
        case Some(s) =>
          DecodeScalarIsEncoding(b);
          EncodeCons(c, s);
          assert b == b[..n] + b[n..];
          Some([c] + s)
  }

  /** The bytes are well-formed UTF-8. */
  predicate IsValid(b: Bytes) {
    Decode(b).Some?
  }

  /** `q * 64 + m` splits back into `q` and `m` when `m` is a six-bit remainder. */
  lemma DivMod64(q: int, m: int)
    requires 0 <= m < 64
    ensures (q * 64 + m) / 64 == q && (q * 64 + m) % 64 == m
  {
  }

  /** Six payload bits after a two-bit tag, as a continuation byte encodes them. */
  lemma ContinuationBits(q: int, p: int)
    requires 0 <= p < 64
    ensures (q * 64 + p) / 64 == q && 0x80 + (q * 64 + p) % 64 == p + 0x80
  {
    DivMod64(q, p);
  }

  /** A two-byte sequence the decoder accepts is the encoding of its scalar. */
  lemma TwoByteIsEncoding(b: Bytes)
    requires DecodeScalar(b).Some? && DecodeScalar(b).value.1 == 2
    ensures b[..2] == EncodeScalar(DecodeScalar(b).value.0)
  {
    var p0, p1 := Payload(b[0], 0xC0), Payload(b[1], 0x80);
    ContinuationBits(p0, p1);
  }

  /** A three-byte sequence the decoder accepts is the encoding of its scalar. */
  lemma ThreeByteIsEncoding(b: Bytes)
    requires DecodeScalar(b).Some? && DecodeScalar(b).value.1 == 3
    ensures b[..3] == EncodeScalar(DecodeScalar(b).value.0)
  {
    var v := DecodeScalar(b).value.0 as int;
    var p0, p1, p2 := Payload(b[0], 0xE0), Payload(b[1], 0x80), Payload(b[2], 0x80);
    var hi := p0 * 64 + p1;
    assert v == hi * 64 + p2;
    ContinuationBits(hi, p2);
    ContinuationBits(p0, p1);
    Shifts(v);
  }

  /** A four-byte sequence the decoder accepts is the encoding of its scalar. */
  lemma FourByteIsEncoding(b: Bytes)
    requires DecodeScalar(b).Some? && DecodeScalar(b).value.1 == 4
    ensures b[..4] == EncodeScalar(DecodeScalar(b).value.0)
  {
    var v := DecodeScalar(b).value.0 as int;
    var p0, p1, p2, p3 := Payload(b[0], 0xF0), Payload(b[1], 0x80), Payload(b[2], 0x80), Payload(b[3], 0x80);
    var h2 := p0 * 64 + p1;
    var h3 := h2 * 64 + p2;
    assert v == h3 * 64 + p3;
    ContinuationBits(h3, p3);
    ContinuationBits(h2, p2);
    ContinuationBits(p0, p1);
    Shifts(v);
  }

  /** Whatever the decoder accepts at the front of `b` is the encoding of the
      scalar it returns. */
  lemma DecodeScalarIsEncoding(b: Bytes)
    requires DecodeScalar(b).Some?
    ensures b[..DecodeScalar(b).value.1] == EncodeScalar(DecodeScalar(b).value.0)
  {
    var n := DecodeScalar(b).value.1;
    if n == 2 {
      TwoByteIsEncoding(b);
    } else if n == 3 {
      ThreeByteIsEncoding(b);
    } else if n == 4 {
      FourByteIsEncoding(b);
    }
  }

  /** Shifting right by six bits twice or three times is shifting by twelve
      or eighteen bits. */
  lemma Shifts(v: nat)
    ensures (v / 64) / 64 == v / 4096
    ensures ((v / 64) / 64) / 64 == v / 262144
  {
  }

  /** The payload bits of an encoding put back together give the scalar. */
  lemma EncodeScalarPayload(c: char)
    ensures var e, v := EncodeScalar(c), c as int;
      && (0x80 <= v < 0x800 ==> Payload(e[0], 0xC0) * 64 + Payload(e[1], 0x80) == v)
      && (0x800 <= v < 0x1_0000 ==>
            Payload(e[0], 0xE0) * 4096 + Payload(e[1], 0x80) * 64 + Payload(e[2], 0x80) == v)
      && (0x1_0000 <= v ==>
            Payload(e[0], 0xF0) * 262144 + Payload(e[1], 0x80) * 4096
            + Payload(e[2], 0x80) * 64 + Payload(e[3], 0x80) == v)
  {
    var v := c as int;
    Shifts(v);
    var q1, r0 := v / 64, v % 64;
    var q2, r1 := q1 / 64, q1 % 64;
    var q3, r2 := q2 / 64, q2 % 64;
    assert v == q1 * 64 + r0;
    assert q1 == q2 * 64 + r1;
    assert q2 == q3 * 64 + r2;
  }

  /** The decoder reads back one encoded scalar and stops exactly at its end. */
  lemma DecodeEncodeScalar(c: char, rest: Bytes)
    ensures DecodeScalar(EncodeScalar(c) + rest) == Some((c, |EncodeScalar(c)|))
  {
    var v := c as int;
    var e := EncodeScalar(c);
    var b := e + rest;
    EncodeScalarPayload(c);
    assert b[..|e|] == e;
    if v < 0x80 {
    } else if v < 0x800 {
      assert b[0] == e[0] && b[1] == e[1];
    } else if v < 0x1_0000 {
      assert b[0] == e[0] && b[1] == e[1] && b[2] == e[2];
    } else {
      assert b[0] == e[0] && b[1] == e[1] && b[2] == e[2] && b[3] == e[3];
    }
  }

  /** Round trip: every string survives encoding followed by decoding. */
  lemma {:induction false} DecodeEncode(s: string)
    ensures Decode(Encode(s)) == Some(s)
  {
    if |s| > 0 {
      var e := EncodeScalar(s[0]);
      DecodeEncodeScalar(s[0], Encode(s[1..]));
      assert (e + Encode(s[1..]))[|e|..] == Encode(s[1..]);
      DecodeEncode(s[1..]);
      assert [s[0]] + s[1..] == s;
    }
  }

  /** Encoding is injective, so two strings with the same bytes are equal. */
  lemma EncodeInjective(s: string, t: string)
    requires Encode(s) == Encode(t)
    ensures s == t
  {
    DecodeEncode(s);
    DecodeEncode(t);
  }
}
