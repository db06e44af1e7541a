/**
 * UTF-8 as defined in section 4 of RFC 3629: the octet grammar (`UTF8-octets`), a decoder into
 * text (a sequence of Unicode scalar values, Dafny's `char`) and the encoder back to octets.
 * Rust's `std::str::from_utf8` accepts exactly the octet strings of that grammar; a `String`
 * is here the text it decodes to.
 */
module Utf8 {
  import opened Wrappers
  import opened Bytes

  /** UTF8-tail = %x80-BF */
  predicate IsTail(b: byte) {
    0x80 <= b <= 0xBF
  }

  /** `c` is exactly one UTF8-char (UTF8-1 / UTF8-2 / UTF8-3 / UTF8-4). */
  predicate IsUtf8Char(c: seq<byte>) {
    (|c| == 1 && c[0] <= 0x7F) ||
    (|c| == 2 && 0xC2 <= c[0] <= 0xDF && IsTail(c[1])) ||
    (|c| == 3 && IsTail(c[2]) &&
      ((c[0] == 0xE0 && 0xA0 <= c[1] <= 0xBF) ||
       (0xE1 <= c[0] <= 0xEC && IsTail(c[1])) ||
       (c[0] == 0xED && 0x80 <= c[1] <= 0x9F) ||
       (0xEE <= c[0] <= 0xEF && IsTail(c[1])))) ||
    (|c| == 4 && IsTail(c[2]) && IsTail(c[3]) &&
      ((c[0] == 0xF0 && 0x90 <= c[1] <= 0xBF) ||
       (0xF1 <= c[0] <= 0xF3 && IsTail(c[1])) ||
       (c[0] == 0xF4 && 0x80 <= c[1] <= 0x8F)))
  }

  /** UTF8-octets = *( UTF8-char ) */
  predicate IsUtf8(s: seq<byte>)
    decreases |s|
  {
    s == [] ||
    exists n :: 1 <= n <= 4 && n <= |s| && IsUtf8Char(s[..n]) && IsUtf8(s[n..])
  }

  /** The scalar value of the character `c` encodes. */
  function ScalarOf(c: seq<byte>): (v: int)
    requires IsUtf8Char(c)
    ensures 0 <= v < 0xD800 || 0xE000 <= v < 0x11_0000
    ensures |c| == 1 <==> v < 0x80
    ensures |c| == 2 <==> 0x80 <= v < 0x800
    ensures |c| == 3 <==> 0x800 <= v < 0x1_0000
    ensures |c| == 4 <==> 0x1_0000 <= v
  {
    var b0 := c[0] as int;
    if |c| == 1 then b0
    else
      var t1 := c[1] as int - 0x80;
      if |c| == 2 then (b0 - 0xC0) * 64 + t1
      else
        var t2 := c[2] as int - 0x80;
        if |c| == 3 then ((b0 - 0xE0) * 64 + t1) * 64 + t2
        else (((b0 - 0xF0) * 64 + t1) * 64 + t2) * 64 + (c[3] as int - 0x80)
  }

  /** The length of a UTF8-char as announced by its first octet. */
  function LeadLength(b: byte): (n: nat)
    ensures 1 <= n <= 4
  {
    if b <= 0x7F then 1 else if b <= 0xDF then 2 else if b <= 0xEF then 3 else 4
  }

  /** A UTF8-char is only ever as long as its first octet announces, so at most one prefix of an
      octet string is a UTF8-char. */
  lemma CharLengthIsLeadLength(s: seq<byte>, n: nat)
    requires 1 <= n <= |s| && IsUtf8Char(s[..n])
    ensures n == LeadLength(s[0])
  {
  }

  /** Re-encoding the scalar value of a UTF8-char gives back its octets. */
  lemma EncodeScalarOf(c: seq<byte>)
    requires IsUtf8Char(c)
    ensures EncodeChar(ScalarOf(c) as char) == c
  {
    if |c| == 2 {
      SplitBase64(c[0] as int - 0xC0, c[1] as int - 0x80);
      assert c == [c[0], c[1]];
    } else if |c| == 3 {
      EncodeScalarOf3(c);
    } else if |c| == 4 {
      EncodeScalarOf4(c);
    }
  }

  lemma EncodeScalarOf3(c: seq<byte>)
    requires |c| == 3 && IsUtf8Char(c)
    ensures EncodeChar(ScalarOf(c) as char) == c
  {
    var a, t1, t2 := c[0] as int - 0xE0, c[1] as int - 0x80, c[2] as int - 0x80;
    var v := (a * 64 + t1) * 64 + t2;
    assert ScalarOf(c) == v;
    SplitBase64(a * 64 + t1, t2);
    SplitBase64(a, t1);
    assert v / 64 / 64 == a && (v / 64) % 64 == t1 && v % 64 == t2;
    assert c == [c[0], c[1], c[2]];
  }

  lemma EncodeScalarOf4(c: seq<byte>)
    requires |c| == 4 && IsUtf8Char(c)
    ensures EncodeChar(ScalarOf(c) as char) == c
  {
    var a, t1, t2, t3 := c[0] as int - 0xF0, c[1] as int - 0x80, c[2] as int - 0x80, c[3] as int - 0x80;
    var v := ((a * 64 + t1) * 64 + t2) * 64 + t3;
    assert ScalarOf(c) == v;
    SplitBase64((a * 64 + t1) * 64 + t2, t3);
    SplitBase64(a * 64 + t1, t2);
    SplitBase64(a, t1);
    assert v / 64 / 64 / 64 == a && (v / 64 / 64) % 64 == t1 && (v / 64) % 64 == t2 && v % 64 == t3;
    assert c == [c[0], c[1], c[2], c[3]];
  }

  lemma SplitBase64(x: int, t: int)
    requires 0 <= x && 0 <= t < 64
    ensures (x * 64 + t) / 64 == x && (x * 64 + t) % 64 == t
  {
  }

  /** The character at the start of `s` and the number of octets it takes, if `s` starts with one. */
  function DecodeChar(s: seq<byte>): (r: Option<(char, nat)>)
    ensures r.None? ==> forall n :: 1 <= n <= 4 && n <= |s| ==> !IsUtf8Char(s[..n])
    ensures r.Some? ==> 1 <= r.value.1 <= 4 && r.value.1 <= |s| && IsUtf8Char(s[..r.value.1])
    ensures r.Some? ==> EncodeChar(r.value.0) == s[..r.value.1]
  {
    if s == [] then None
    else
      var n := LeadLength(s[0]);
      if n <= |s| && IsUtf8Char(s[..n]) then
        EncodeScalarOf(s[..n]);
        Some((ScalarOf(s[..n]) as char, n))
      else
        assert forall m :: 1 <= m <= 4 && m <= |s| && IsUtf8Char(s[..m]) ==> m == n by {
          forall m | 1 <= m <= 4 && m <= |s| && IsUtf8Char(s[..m]) ensures m == n {
            CharLengthIsLeadLength(s, m);
          }
        }
        None
  }

  /** The UTF-8 encoding of one character (the table in section 3 of RFC 3629). */
  function EncodeChar(ch: char): (c: seq<byte>)
    ensures IsUtf8Char(c) && ScalarOf(c) == ch as int
  {
    var v := ch as int;
    var q1, r1 := v / 64, v % 64;
    var q2, r2 := q1 / 64, q1 % 64;
    var q3, r3 := q2 / 64, q2 % 64;
    if v < 0x80 then [v]
    else if v < 0x800 then [0xC0 + q1, 0x80 + r1]
    else if v < 0x1_0000 then [0xE0 + q2, 0x80 + r2, 0x80 + r1]
    else [0xF0 + q3, 0x80 + r3, 0x80 + r2, 0x80 + r1]
  }

  /** `from_utf8`: the text `s` encodes, or None when `s` is not UTF8-octets. */
  function Decode(s: seq<byte>): (r: Option<string>)
    decreases |s|
  {
    if s == [] then Some([])
    else match DecodeChar(s)
      case None => None
      case Some((c, n)) =>
        match Decode(s[n..])
        case None => None
        case Some(t) => Some([c] + t)
  }

  /** `str::as_bytes`: the octets of a text. */
  function Encode(t: string): (s: seq<byte>)
  {
    if t == [] then [] else EncodeChar(t[0]) + Encode(t[1..])
  }

  /** Decoding succeeds exactly on the octet strings of the UTF8-octets grammar. */
  lemma {:induction false} DecodeSucceedsIff(s: seq<byte>)
    ensures Decode(s).Some? <==> IsUtf8(s)
    decreases |s|
  {
    if s != [] {
      match DecodeChar(s)
      case None =>
      case Some((c, n)) =>
        DecodeSucceedsIff(s[n..]);
        forall m | 1 <= m <= 4 && m <= |s| && IsUtf8Char(s[..m]) ensures m == n {
          CharLengthIsLeadLength(s, m);
          CharLengthIsLeadLength(s, n);
        }
    }
  }

  /** The decoded text has exactly the bytes it was decoded from. */
  lemma {:induction false} EncodeDecoded(s: seq<byte>)
    requires Decode(s).Some?
    ensures Encode(Decode(s).value) == s
    decreases |s|
  {
    if s != [] {
      var (c, n) := DecodeChar(s).value;
      var rest := s[n..];
      DecodeStep(s);
      EncodeDecoded(rest);
      EncodeCons(c, Decode(rest).value);
      assert s == s[..n] + rest;
    }
  }

  /** A successful decoding of non-empty bytes is the first character followed by the
      decoding of the bytes after it. */
  lemma DecodeStep(s: seq<byte>)
    requires s != [] && Decode(s).Some?
    ensures DecodeChar(s).Some?
    ensures var n := DecodeChar(s).value.1;
      Decode(s[n..]).Some? && Decode(s).value == [DecodeChar(s).value.0] + Decode(s[n..]).value
  {
  }

  lemma EncodeCons(c: char, t: string)
    ensures Encode([c] + t) == EncodeChar(c) + Encode(t)
  {
    assert ([c] + t)[0] == c && ([c] + t)[1..] == t;
  }

  /** The first character of an encoding is decoded back, with the length of its encoding. */
  lemma DecodeCharOfEncoding(ch: char, rest: seq<byte>)
    ensures DecodeChar(EncodeChar(ch) + rest) == Some((ch, |EncodeChar(ch)|))
  {
    var e := EncodeChar(ch);
    var s := e + rest;
    assert s[..|e|] == e;
    CharLengthIsLeadLength(s, |e|);
  }

  /** Every text survives encoding and decoding unchanged. */
  lemma {:induction false} DecodeEncoded(t: string)
    ensures Decode(Encode(t)) == Some(t)
  {
    if t != [] {
      var e := EncodeChar(t[0]);
      DecodeCharOfEncoding(t[0], Encode(t[1..]));
      assert (e + Encode(t[1..]))[|e|..] == Encode(t[1..]);
      DecodeEncoded(t[1..]);
      assert [t[0]] + t[1..] == t;
    }
  }

  /** The encoding of any text is well-formed UTF-8. */
  lemma EncodingIsUtf8(t: string)
    ensures IsUtf8(Encode(t))
  {
    DecodeEncoded(t);
    DecodeSucceedsIff(Encode(t));
  }

  /** Encoding distributes over concatenation. */
  lemma {:induction false} EncodeConcat(a: string, b: string)
    ensures Encode(a + b) == Encode(a) + Encode(b)
  {
    if a != [] {
      assert (a + b)[0] == a[0] && (a + b)[1..] == a[1..] + b;
      EncodeConcat(a[1..], b);
    } else {
      assert a + b == b;
    }
  }

  /** An ASCII octet occurs in the encoding of a text exactly when its character occurs in the
      text: the octets of every longer encoding are all 0x80 or above. */
  lemma {:induction false} AsciiInEncoding(t: string, b: byte)
    requires b < 0x80
    ensures b in Encode(t) <==> b as char in t
  {
    if t != [] {
      AsciiInEncoding(t[1..], b);
      var e := EncodeChar(t[0]);
      if t[0] as int < 0x80 {
        assert e == [t[0] as int];
      } else {
        assert forall k :: 0 <= k < |e| ==> e[k] >= 0x80;
      }
      assert t == [t[0]] + t[1..];
    }
  }

  /** A text of ASCII characters is encoded one octet per character, each its code. */
  lemma {:induction false} EncodeAscii(t: string)
    requires forall k :: 0 <= k < |t| ==> t[k] as int < 0x80
    ensures |Encode(t)| == |t|
    ensures forall k :: 0 <= k < |t| ==> Encode(t)[k] == t[k] as int
  {
    if t != [] {
      EncodeAscii(t[1..]);
      assert EncodeChar(t[0]) == [t[0] as int];
    }
  }
}
