/**
 * `java.net.URLEncoder.encode(q, "UTF-8")`: the application/x-www-form-urlencoded
 * serialisation of section 17.13.4.1 of HTML 4.01. ASCII letters and digits and
 * `.`, `-`, `*`, `_` are kept, a space becomes `+`, and every other character is
 * written as its UTF-8 bytes, each as `%` and two upper-case hex digits.
 *
 * Dafny's `char` is a Unicode scalar value, so the unpaired surrogates a Java
 * string may hold (which the encoder writes as `%3F`) cannot occur here.
 */
module FormEncoding {
  import opened Wrappers

  type Byte = x: int | 0 <= x < 256

  /** A code point Dafny accepts as a `char`. */
  predicate IsScalar(cp: int) {
    0 <= cp < 0xD800 || 0xE000 <= cp < 0x11_0000
  }

  /** A UTF-8 continuation byte, `10xxxxxx`. */
  predicate IsContinuation(b: Byte) {
    0x80 <= b < 0xC0
  }

  /** The UTF-8 encoding of one character: one to four bytes. */
  function Utf8(c: char): (bs: seq<Byte>)
    ensures 1 <= |bs| <= 4
    ensures |bs| == 1 <==> c as int < 0x80
    ensures |bs| == (if c as int < 0x80 then 1 else if c as int < 0x800 then 2
                     else if c as int < 0x1_0000 then 3 else 4)
    ensures forall i :: 1 <= i < |bs| ==> IsContinuation(bs[i])
  {
    var cp := c as int;
    var q1 := cp / 64;
    var q2 := q1 / 64;
    var q3 := q2 / 64;
    if cp < 0x80 then [cp]
    else if cp < 0x800 then [0xC0 + q1, 0x80 + cp % 64]
    else if cp < 0x1_0000 then [0xE0 + q2, 0x80 + q1 % 64, 0x80 + cp % 64]
    else [0xF0 + q3, 0x80 + q2 % 64, 0x80 + q1 % 64, 0x80 + cp % 64]
  }

  /** The UTF-8 encoding of a string, character by character. */
  function Utf8Encode(s: string): seq<Byte>
    decreases |s|
  {
    if s == "" then [] else Utf8(s[0]) + Utf8Encode(s[1..])
  }

  /** Reads one character from the front of `bs`, with the number of bytes
      used; only the shortest form of each character is accepted. */
  function DecodeOne(bs: seq<Byte>): (r: Option<(char, nat)>)
    requires |bs| > 0
    ensures r.Some? ==> 1 <= r.value.1 <= |bs| && r.value.1 <= 4
  {
    var b0 := bs[0] as int;
    if b0 < 0x80 then Some((b0 as char, 1))
    else if 0xC0 <= b0 < 0xE0 && |bs| >= 2 && IsContinuation(bs[1]) then
      ScalarOf((b0 - 0xC0) * 64 + (bs[1] as int - 0x80), 2, 0x80)
    else if 0xE0 <= b0 < 0xF0 && |bs| >= 3 && IsContinuation(bs[1]) && IsContinuation(bs[2]) then
      ScalarOf(((b0 - 0xE0) * 64 + (bs[1] as int - 0x80)) * 64 + (bs[2] as int - 0x80), 3, 0x800)
    else if 0xF0 <= b0 < 0xF8 && |bs| >= 4 && IsContinuation(bs[1]) && IsContinuation(bs[2])
            && IsContinuation(bs[3]) then
      ScalarOf((((b0 - 0xF0) * 64 + (bs[1] as int - 0x80)) * 64 + (bs[2] as int - 0x80)) * 64 + (bs[3] as int - 0x80), 4, 0x1_0000)
    else None
  }

  /** The character read from `n` bytes, rejected when it is not a scalar or
      when fewer bytes would have encoded it (an overlong form). */
  function ScalarOf(cp: int, n: nat, least: int): Option<(char, nat)> {
    if least <= cp && IsScalar(cp) then Some((cp as char, n)) else None
  }

  /** Decodes UTF-8 bytes; `None` when they are not a sequence of encoded scalars. */
  function Utf8Decode(bs: seq<Byte>): Option<string>
    decreases |bs|
  {
    if bs == [] then Some("")
    else match DecodeOne(bs)
      case None => None
      case Some((c, n)) =>
        match Utf8Decode(bs[n..])
        case None => None
        case Some(rest) => Some([c] + rest)
  }

  /** Characters the encoder copies unchanged. */
  predicate IsUnreserved(c: char) {
    ('a' <= c <= 'z') || ('A' <= c <= 'Z') || ('0' <= c <= '9')
    || c == '.' || c == '-' || c == '*' || c == '_'
  }

  /** Every character the encoder can produce. */
  predicate IsFormSafe(c: char) {
    IsUnreserved(c) || c == '+' || c == '%'
  }

  /** Upper-case hexadecimal digit of `n`. */
  function HexDigit(n: int): char
    requires 0 <= n < 16
  {
    "0123456789ABCDEF"[n]
  }

  predicate IsHexDigit(c: char) {
    ('0' <= c <= '9') || ('A' <= c <= 'F') || ('a' <= c <= 'f')
  }

  function HexValue(c: char): (n: int)
    requires IsHexDigit(c)
    ensures 0 <= n < 16
  {
    if '0' <= c <= '9' then c as int - '0' as int
    else if 'A' <= c <= 'F' then c as int - 'A' as int + 10
    else c as int - 'a' as int + 10
  }

  /** `%XX` for each byte. */
  function PercentEncode(bs: seq<Byte>): (s: string)
    ensures |s| == 3 * |bs|
    decreases |bs|
  {
    if bs == [] then ""
    else ['%', HexDigit(bs[0] / 16), HexDigit(bs[0] % 16)] + PercentEncode(bs[1..])
  }

  function EncodeChar(c: char): string {
    if IsUnreserved(c) then [c]
    else if c == ' ' then "+"
    else PercentEncode(Utf8(c))
  }

  /** `URLEncoder.encode(s, "UTF-8")`. */
  function FormEncode(s: string): (r: string)
    ensures forall i :: 0 <= i < |r| ==> IsFormSafe(r[i])
    ensures |s| <= |r| <= 12 * |s|
    decreases |s|
  {
    if s == "" then ""
    else
      var head := EncodeChar(s[0]);
      AllSafe(s[0]);
      head + FormEncode(s[1..])
  }

  lemma AllSafe(c: char)
    ensures forall i :: 0 <= i < |EncodeChar(c)| ==> IsFormSafe(EncodeChar(c)[i])
    ensures 1 <= |EncodeChar(c)| <= 12
  {
    if !IsUnreserved(c) && c != ' ' {
      PercentSafe(Utf8(c));
    }
  }

  lemma {:induction false} PercentSafe(bs: seq<Byte>)
    ensures forall i :: 0 <= i < |PercentEncode(bs)| ==> IsFormSafe(PercentEncode(bs)[i])
    decreases |bs|
  {
    if bs != [] {
      PercentSafe(bs[1..]);
      var s := PercentEncode(bs);
      forall i | 0 <= i < |s|
        ensures IsFormSafe(s[i])
      {
        if i >= 3 {
          assert s[i] == PercentEncode(bs[1..])[i - 3];
        }
      }
    }
  }

  /** Prepends `bs` to a decoding that may have failed. */
  function Prepend(bs: seq<Byte>, r: Option<seq<Byte>>): Option<seq<Byte>> {
    match r
    case None => None
    case Some(rest) => Some(bs + rest)
  }

  /** The bytes a form-encoded string stands for: `+` is a space, `%XX` a byte,
      any other ASCII character itself; `None` on a malformed escape. */
  function FormBytes(s: string): Option<seq<Byte>>
    decreases |s|
  {
    if s == "" then Some([])
    else if s[0] == '+' then Prepend([0x20], FormBytes(s[1..]))
    else if s[0] == '%' then
      if |s| >= 3 && IsHexDigit(s[1]) && IsHexDigit(s[2]) then
        Prepend([HexValue(s[1]) * 16 + HexValue(s[2])], FormBytes(s[3..]))
      else None
    else if s[0] as int < 0x80 then Prepend([s[0] as int], FormBytes(s[1..]))
    else None
  }

  /** Form decoding: the inverse of `FormEncode`. */
  function FormDecode(s: string): Option<string> {
    match FormBytes(s)
    case None => None
    case Some(bs) => Utf8Decode(bs)
  }

  lemma HexRoundTrip(n: int)
    requires 0 <= n < 16
    ensures IsHexDigit(HexDigit(n)) && HexValue(HexDigit(n)) == n
  {
  }

  /** One `%XX` escape reads back as its byte. */
  lemma FormBytesEscape(b: Byte, t: string)
    ensures FormBytes(['%', HexDigit(b / 16), HexDigit(b % 16)] + t) == Prepend([b], FormBytes(t))
  {
    var s := ['%', HexDigit(b / 16), HexDigit(b % 16)] + t;
    HexRoundTrip(b / 16);
    HexRoundTrip(b % 16);
    assert s[3..] == t;
  }

  lemma PrependTwice(a: seq<Byte>, b: seq<Byte>, r: Option<seq<Byte>>)
    ensures Prepend(a, Prepend(b, r)) == Prepend(a + b, r)
  {
    if r.Some? {
      assert a + (b + r.value) == (a + b) + r.value;
    }
  }

  lemma {:induction false} FormBytesPercent(bs: seq<Byte>, t: string)
    ensures FormBytes(PercentEncode(bs) + t) == Prepend(bs, FormBytes(t))
    decreases |bs|
  {
    if bs == [] {
      assert PercentEncode(bs) + t == t;
      match FormBytes(t)
      case None =>
      case Some(rest) => assert bs + rest == rest;
    } else {
      var head := ['%', HexDigit(bs[0] / 16), HexDigit(bs[0] % 16)];
      assert PercentEncode(bs) + t == head + (PercentEncode(bs[1..]) + t);
      FormBytesEscape(bs[0], PercentEncode(bs[1..]) + t);
      FormBytesPercent(bs[1..], t);
      PrependTwice([bs[0]], bs[1..], FormBytes(t));
      assert [bs[0]] + bs[1..] == bs;
    }
  }

  lemma FormBytesChar(c: char, t: string)
    ensures FormBytes(EncodeChar(c) + t) == Prepend(Utf8(c), FormBytes(t))
  {
    if IsUnreserved(c) || c == ' ' {
      assert (EncodeChar(c) + t)[1..] == t;
    } else {
      FormBytesPercent(Utf8(c), t);
    }
  }

  /** Reading the encoded text back gives exactly the UTF-8 bytes of the input. */
  lemma {:induction false} FormBytesEncode(s: string)
    ensures FormBytes(FormEncode(s)) == Some(Utf8Encode(s))
    decreases |s|
  {
    if s != "" {
      FormBytesChar(s[0], FormEncode(s[1..]));
      FormBytesEncode(s[1..]);
    }
  }

  lemma DecodeOneUtf8(c: char, t: seq<Byte>)
    ensures DecodeOne(Utf8(c) + t) == Some((c, |Utf8(c)|))
  {
    var cp := c as int;
    var q1 := cp / 64;
    var q2 := q1 / 64;
    var q3 := q2 / 64;
    assert cp == q1 * 64 + cp % 64;
    assert q1 == q2 * 64 + q1 % 64;
    assert q2 == q3 * 64 + q2 % 64;
  }

  /** Overlong forms are rejected: `C1 81` is not a second spelling of `A`, nor
      `E0 83 A9` of `é`. */
  lemma OverlongRejected(two: seq<Byte>, three: seq<Byte>)
    requires two == [0xC1, 0x81] && three == [0xE0, 0x83, 0xA9]
    ensures DecodeOne(two) == None && DecodeOne(three) == None
  {
  }

  /** UTF-8 decoding undoes UTF-8 encoding. */
  lemma {:induction false} Utf8RoundTrip(s: string)
    ensures Utf8Decode(Utf8Encode(s)) == Some(s)
    decreases |s|
  {
    if s != "" {
      var bs := Utf8Encode(s);
      DecodeOneUtf8(s[0], Utf8Encode(s[1..]));
      assert bs[|Utf8(s[0])|..] == Utf8Encode(s[1..]);
      Utf8RoundTrip(s[1..]);
      assert s == [s[0]] + s[1..];
    }
  }

  /** Decoding an encoded query gives the query back. */
  lemma FormRoundTrip(s: string)
    ensures FormDecode(FormEncode(s)) == Some(s)
  {
    FormBytesEncode(s);
    Utf8RoundTrip(s);
  }

  /** The encoder is injective: different queries never share an encoding. */
  lemma FormEncodeInjective(s: string, t: string)
    requires FormEncode(s) == FormEncode(t)
    ensures s == t
  {
    FormRoundTrip(s);
    FormRoundTrip(t);
  }
}
