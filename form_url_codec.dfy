/**
 * The application/x-www-form-urlencoded format (HTML 4.01, section 17.13.4.1) as
 * `java.net.URLEncoder.encode` and `java.net.URLDecoder.decode` apply it, on byte
 * strings: each character of a `seq<Byte>` stands for one byte of the name's UTF-8
 * form, and the Java codec's conversion between characters and UTF-8 is left out.
 */
module FormUrlCodec {
  import opened Wrappers
  import opened Strings

  /** A character standing for one byte. */
  type Byte = c: char | c as int < 256 witness 'a'

  predicate IsHexDigit(c: char) {
    '0' <= c <= '9' || 'a' <= c <= 'f' || 'A' <= c <= 'F'
  }

  function HexValue(c: char): (v: nat)
    requires IsHexDigit(c)
    ensures v < 16
  {
    if '0' <= c <= '9' then c as int - '0' as int
    else if 'a' <= c <= 'f' then c as int - 'a' as int + 10
    else c as int - 'A' as int + 10
  }

  /** The digits the encoder writes: `0`-`9` and upper-case `A`-`F`. */
  predicate IsUpperHexDigit(c: char) {
    '0' <= c <= '9' || 'A' <= c <= 'F'
  }

  function UpperHexDigit(v: nat): (c: Byte)
    requires v < 16
    ensures IsUpperHexDigit(c) && IsHexDigit(c) && HexValue(c) == v
  {
    if v < 10 then ('0' as int + v) as char else ('A' as int + v - 10) as char
  }

  /** The characters the encoder leaves as they are. */
  predicate IsUnreserved(c: char) {
    'a' <= c <= 'z' || 'A' <= c <= 'Z' || '0' <= c <= '9' || c == '.' || c == '-' || c == '*' || c == '_'
  }

  /** One byte, encoded: itself when unreserved, `+` for a space, `%XY` otherwise. */
  function EncodeByte(b: Byte): seq<Byte> {
    if IsUnreserved(b) then [b]
    else if b == ' ' then ['+']
    else ['%', UpperHexDigit(b as int / 16), UpperHexDigit(b as int % 16)]
  }

  /** `URLEncoder.encode(s, "UTF-8")`. */
  function Encode(s: seq<Byte>): (r: seq<Byte>)
    ensures |r| >= |s|
  {
    if s == [] then [] else EncodeByte(s[0]) + Encode(s[1..])
  }

  /** The characters an encoding is made of. */
  predicate InEncodedAlphabet(c: char) {
    IsUnreserved(c) || c == '+' || c == '%'
  }

  /** An encoding only uses unreserved characters, `+` and `%`; in particular it has no `/`. */
  lemma {:induction false} EncodeAlphabet(s: seq<Byte>)
    ensures forall k :: 0 <= k < |Encode(s)| ==> InEncodedAlphabet(Encode(s)[k])
  {
    if s != [] {
      EncodeAlphabet(s[1..]);
      var e, rest := EncodeByte(s[0]), Encode(s[1..]);
      assert forall k :: 0 <= k < |e| ==> InEncodedAlphabet(e[k]);
      assert Encode(s) == e + rest;
      assert forall k :: |e| <= k < |e| + |rest| ==> (e + rest)[k] == rest[k - |e|];
    }
  }

  function Prepend(b: Byte, r: Option<seq<Byte>>): Option<seq<Byte>> {
    match r
    case None => None
    case Some(t) => Some([b] + t)
  }

  /**
   * `URLDecoder.decode(s, "UTF-8")`: `+` is a space, `%XY` is the byte with hex value XY,
   * everything else is copied. `None` stands for the IllegalArgumentException the
   * decoder throws when a `%` is not followed by two hex digits.
   */
  function Decode(s: seq<Byte>): Option<seq<Byte>>
    decreases |s|
  {
    if s == [] then Some([])
    else if s[0] == '%' then
      if |s| >= 3 && IsHexDigit(s[1]) && IsHexDigit(s[2]) then
        Prepend((HexValue(s[1]) * 16 + HexValue(s[2])) as char, Decode(s[3..]))
      else None
    else Prepend(if s[0] == '+' then ' ' else s[0], Decode(s[1..]))
  }

  /** The `%` at index k is followed by two hex digits. */
  predicate WellFormedEscapeAt(s: seq<Byte>, k: nat)
    requires k < |s|
  {
    k + 2 < |s| && IsHexDigit(s[k + 1]) && IsHexDigit(s[k + 2])
  }

  /** Some `%` in s does not start a well-formed escape. */
  predicate HasMalformedEscape(s: seq<Byte>) {
    exists k :: 0 <= k < |s| && s[k] == '%' && !WellFormedEscapeAt(s, k)
  }

  lemma {:induction false} HasMalformedEscapeAfter(s: seq<Byte>, n: nat)
    requires n <= |s|
    ensures HasMalformedEscape(s[n..]) <==> exists k :: n <= k < |s| && s[k] == '%' && !WellFormedEscapeAt(s, k)
  {
    var t := s[n..];
    if HasMalformedEscape(t) {
      var k :| 0 <= k < |t| && t[k] == '%' && !WellFormedEscapeAt(t, k);
      assert s[n + k] == '%' && !WellFormedEscapeAt(s, n + k);
    }
    if k :| n <= k < |s| && s[k] == '%' && !WellFormedEscapeAt(s, k) {
      assert t[k - n] == '%' && !WellFormedEscapeAt(t, k - n);
    }
  }

  /** Decoding fails exactly when some `%` is not followed by two hex digits. */
  lemma {:induction false} DecodeFailsIffMalformed(s: seq<Byte>)
    ensures Decode(s).None? <==> HasMalformedEscape(s)
    decreases |s|
  {
    if s == [] {
    } else if s[0] == '%' {
      if |s| >= 3 && IsHexDigit(s[1]) && IsHexDigit(s[2]) {
        DecodeFailsIffMalformed(s[3..]);
        HasMalformedEscapeAfter(s, 3);
        assert HasMalformedEscape(s) <==> exists k :: 3 <= k < |s| && s[k] == '%' && !WellFormedEscapeAt(s, k);
      } else {
        assert !WellFormedEscapeAt(s, 0);
      }
    } else {
      DecodeFailsIffMalformed(s[1..]);
      HasMalformedEscapeAfter(s, 1);
      assert HasMalformedEscape(s) <==> exists k :: 1 <= k < |s| && s[k] == '%' && !WellFormedEscapeAt(s, k);
    }
  }

  lemma {:induction false} DecodeEncodeByte(b: Byte, rest: seq<Byte>)
    ensures Decode(EncodeByte(b) + rest) == Prepend(b, Decode(rest))
  {
    var e := EncodeByte(b) + rest;
    if IsUnreserved(b) {
      assert e[0] == b && e[1..] == rest;
    } else if b == ' ' {
      assert e[0] == '+' && e[1..] == rest;
    } else {
      assert e[0] == '%' && e[3..] == rest;
      assert HexValue(e[1]) * 16 + HexValue(e[2]) == b as int;
    }
  }

  /** Decoding undoes encoding. */
  lemma {:induction false} DecodeEncode(s: seq<Byte>)
    ensures Decode(Encode(s)) == Some(s)
  {
    if s != [] {
      DecodeEncode(s[1..]);
      DecodeEncodeByte(s[0], Encode(s[1..]));
      assert [s[0]] + s[1..] == s;
    }
  }

  lemma {:induction false} EncodeConcat(a: seq<Byte>, b: seq<Byte>)
    ensures Encode(a + b) == Encode(a) + Encode(b)
  {
    if a != [] {
      assert (a + b)[1..] == a[1..] + b;
      EncodeConcat(a[1..], b);
    } else {
      assert a + b == b;
    }
  }

  /** A string of unreserved characters encodes to itself. */
  lemma {:induction false} EncodeUnreserved(s: seq<Byte>)
    requires forall k :: 0 <= k < |s| ==> IsUnreserved(s[k])
    ensures Encode(s) == s
  {
    if s != [] {
      EncodeUnreserved(s[1..]);
    }
  }

  lemma {:induction false} EncodeSingle(b: Byte)
    ensures Encode([b]) == EncodeByte(b)
  {
    assert [b][1..] == [];
  }

  lemma {:induction false} EncodeSnoc(s: seq<Byte>)
    requires s != []
    ensures Encode(s) == Encode(s[..|s| - 1]) + EncodeByte(s[|s| - 1])
  {
    assert s == s[..|s| - 1] + [s[|s| - 1]];
    EncodeConcat(s[..|s| - 1], [s[|s| - 1]]);
    EncodeSingle(s[|s| - 1]);
  }

  /** A non-empty encoding whose last character is unreserved and not a hex digit came from that character. */
  lemma EncodeByteLast(b: Byte, c: char)
    requires IsUnreserved(c) && !IsUpperHexDigit(c)
    requires EncodeByte(b)[|EncodeByte(b)| - 1] == c
    ensures b == c && EncodeByte(b) == [c]
  {
  }

  lemma {:induction false} EncodeKeepsSuffixIf(s: seq<Byte>, w: seq<Byte>)
    requires forall k :: 0 <= k < |w| ==> IsUnreserved(w[k])
    requires EndsWith(s, w)
    ensures EndsWith(Encode(s), w)
  {
    var t := s[..|s| - |w|];
    assert s == t + w;
    EncodeConcat(t, w);
    EncodeUnreserved(w);
    assert Encode(s) == Encode(t) + w;
  }

  /** An encoding that ends in an unreserved, non-hex character c came from a string ending in c. */
  lemma {:induction false} EncodeEndsWithChar(s: seq<Byte>, c: char)
    requires IsUnreserved(c) && !IsUpperHexDigit(c)
    requires Encode(s) != [] && Encode(s)[|Encode(s)| - 1] == c
    ensures s != [] && s[|s| - 1] == c
    ensures Encode(s) == Encode(s[..|s| - 1]) + [c]
  {
    assert s != [];
    EncodeSnoc(s);
    var eb := EncodeByte(s[|s| - 1]);
    assert eb[|eb| - 1] == c;
    EncodeByteLast(s[|s| - 1], c);
  }

  /** A character the encoder copies and that cannot end a `%XY` escape. */
  predicate KeptByEncoding(c: char) {
    IsUnreserved(c) && !IsUpperHexDigit(c)
  }

  /** Every character of w is kept by the encoding. */
  predicate AllKeptByEncoding(w: seq<Byte>)
    decreases |w|
  {
    w == [] || (KeptByEncoding(w[|w| - 1]) && AllKeptByEncoding(w[..|w| - 1]))
  }

  lemma {:induction false} AllKeptUnreserved(w: seq<Byte>)
    requires AllKeptByEncoding(w)
    ensures forall k :: 0 <= k < |w| ==> IsUnreserved(w[k])
    decreases |w|
  {
    if w != [] {
      AllKeptUnreserved(w[..|w| - 1]);
      assert forall k :: 0 <= k < |w| - 1 ==> w[..|w| - 1][k] == w[k];
    }
  }

  /** Peeling one character off a suffix of an encoding peels it off the original too. */
  lemma {:induction false} EncodeSuffixStep(s: seq<Byte>, w: seq<Byte>)
    requires w != [] && KeptByEncoding(w[|w| - 1])
    requires EndsWith(Encode(s), w)
    ensures s != [] && s[|s| - 1] == w[|w| - 1]
    ensures EndsWith(Encode(s[..|s| - 1]), w[..|w| - 1])
  {
    EndsWithLast(Encode(s), w);
    EncodeEndsWithChar(s, w[|w| - 1]);
    assert Encode(s)[..|Encode(s)| - 1] == Encode(s[..|s| - 1]);
  }

  lemma {:induction false} EncodeKeepsSuffixOnlyIf(s: seq<Byte>, w: seq<Byte>)
    requires AllKeptByEncoding(w)
    requires EndsWith(Encode(s), w)
    ensures EndsWith(s, w)
    decreases |w|
  {
    if w != [] {
      EncodeSuffixStep(s, w);
      var c, w', s' := w[|w| - 1], w[..|w| - 1], s[..|s| - 1];
      EncodeKeepsSuffixOnlyIf(s', w');
      assert s == s' + [c] && w == w' + [c];
      EndsWithSnoc(s', w', c);
    }
  }

  /**
   * For a suffix w of unreserved characters none of which is an upper-case hex digit
   * (such as `.kpm`), the encoded string ends in w exactly when the original does.
   */
  lemma EncodeKeepsSuffix(s: seq<Byte>, w: seq<Byte>)
    requires AllKeptByEncoding(w)
    ensures EndsWith(Encode(s), w) <==> EndsWith(s, w)
  {
    if EndsWith(s, w) {
      AllKeptUnreserved(w);
      EncodeKeepsSuffixIf(s, w);
    }
    if EndsWith(Encode(s), w) {
      EncodeKeepsSuffixOnlyIf(s, w);
    }
  }
}
