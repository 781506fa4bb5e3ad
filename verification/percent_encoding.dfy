/**
 * Percent-encoding of one path segment, as the channels client does it with
 * Python's `urllib.parse.quote(s)` and its default `safe='/'`: every byte in the
 * unreserved set of section 2.3 of RFC 3986, and the byte '/', is written as the
 * character it stands for; every other byte becomes a triple "%XX" as in
 * section 2.1 of RFC 3986, with upper-case hexadecimal digits.
 *
 * The encoder works on the bytes of the text (its UTF-8 form); turning a Python
 * text string into those bytes is not part of this model.
 */
module PercentEncoding {
  import opened Wrappers

  type Byte = b: int | 0 <= b < 256

  /** The byte of '/', which `quote` leaves alone by default. */
  const Slash: Byte := 0x2F

  /** ALPHA / DIGIT / "-" / "." / "_" / "~" (section 2.3 of RFC 3986). */
  predicate IsUnreserved(b: Byte) {
    || 'A' as int <= b <= 'Z' as int
    || 'a' as int <= b <= 'z' as int
    || '0' as int <= b <= '9' as int
    || b == '-' as int || b == '.' as int || b == '_' as int || b == '~' as int
  }

  /** The bytes `quote` passes through: the unreserved ones and its default safe set "/". */
  predicate IsSafe(b: Byte) {
    IsUnreserved(b) || b == Slash
  }

  predicate IsSafeChar(c: char) {
    c as int < 256 && IsSafe(c as int)
  }

  predicate IsUpperHexDigit(c: char) {
    '0' <= c <= '9' || 'A' <= c <= 'F'
  }

  /** The upper-case hexadecimal digit of a nibble. */
  function HexDigit(n: int): (c: char)
    requires 0 <= n < 16
    ensures IsUpperHexDigit(c)
    ensures HexValue(c) == Some(n)
  {
    if n < 10 then ('0' as int + n) as char else ('A' as int + n - 10) as char
  }

  /** The value of a hexadecimal digit of either case, or None for any other character. */
  function HexValue(c: char): (r: Option<nat>)
    ensures r.Some? ==> r.value < 16
    ensures r.Some? <==> IsUpperHexDigit(c) || 'a' <= c <= 'f'
  {
    if '0' <= c <= '9' then Some(c as int - '0' as int)
    else if 'A' <= c <= 'F' then Some(c as int - 'A' as int + 10)
    else if 'a' <= c <= 'f' then Some(c as int - 'a' as int + 10)
    else None
  }

  /** The characters whose code points are the given bytes, one for one. */
  function AsChars(s: seq<Byte>): (r: string)
    ensures |r| == |s|
  {
    seq(|s|, i requires 0 <= i < |s| => s[i] as char)
  }

  /** The encoding of one byte. */
  function QuoteByte(b: Byte): (r: string)
  {
    if IsSafe(b) then [b as char] else ['%', HexDigit(b / 16), HexDigit(b % 16)]
  }

  /** `quote(s)` with `safe='/'`. */
  function Quote(s: seq<Byte>): (r: string)
    ensures |s| <= |r| <= 3 * |s|
  {
    if s == [] then [] else QuoteByte(s[0]) + Quote(s[1..])
  }

  /**
   * `Quote` leaves its input unchanged exactly when every byte is safe, and
   * otherwise lengthens it.
   */
  lemma {:induction false} QuoteIdentity(s: seq<Byte>)
    ensures |Quote(s)| == |s| <==> forall i :: 0 <= i < |s| ==> IsSafe(s[i])
    ensures (forall i :: 0 <= i < |s| ==> IsSafe(s[i])) ==> Quote(s) == AsChars(s)
  {
    if s != [] {
      QuoteIdentity(s[1..]);
      assert forall i :: 1 <= i < |s| ==> s[i] == s[1..][i - 1];
      if forall i :: 0 <= i < |s| ==> IsSafe(s[i]) {
        assert AsChars(s) == [s[0] as char] + AsChars(s[1..]);
      }
    }
  }

  /**
   * The shape of `quote`'s output: only unreserved characters, '/', and
   * triples '%' followed by two upper-case hexadecimal digits.
   */
  predicate Encoded(t: string)
    decreases |t|
  {
    if t == [] then true
    else if IsSafeChar(t[0]) then Encoded(t[1..])
    else |t| >= 3 && t[0] == '%' && IsUpperHexDigit(t[1]) && IsUpperHexDigit(t[2]) && Encoded(t[3..])
  }

  /**
   * The inverse of `Quote`: reads safe characters and "%XX" triples (either
   * case of hexadecimal digit) back into bytes, and rejects everything else.
   */
  function Decode(t: string): (r: Option<seq<Byte>>)
    decreases |t|
  {
    if t == [] then Some([])
    else if t[0] == '%' then
      if |t| >= 3 && HexValue(t[1]).Some? && HexValue(t[2]).Some? then
        match Decode(t[3..])
        case None => None
        case Some(rest) => Some([HexValue(t[1]).value * 16 + HexValue(t[2]).value] + rest)
      else None
    else if IsSafeChar(t[0]) then
      match Decode(t[1..])
      case None => None
      case Some(rest) => Some([t[0] as int] + rest)
    else None
  }

  lemma DecodeQuoteByte(b: Byte, t: string)
    ensures Decode(QuoteByte(b) + t) ==
      match Decode(t)
      case None => None
      case Some(rest) => Some([b] + rest)
  {
    var u := QuoteByte(b) + t;
    if IsSafe(b) {
      assert u[0] == b as char && u[1..] == t;
    } else {
      assert u[0] == '%' && u[1] == HexDigit(b / 16) && u[2] == HexDigit(b % 16) && u[3..] == t;
    }
  }

  /** Round trip: decoding what `Quote` produced gives back the bytes. */
  lemma {:induction false} DecodeQuote(s: seq<Byte>)
    ensures Decode(Quote(s)) == Some(s)
  {
    if s != [] {
      DecodeQuote(s[1..]);
      DecodeQuoteByte(s[0], Quote(s[1..]));
      assert [s[0]] + s[1..] == s;
    }
  }

  /** Distinct byte strings never encode to the same segment. */
  lemma QuoteInjective(a: seq<Byte>, b: seq<Byte>)
    requires Quote(a) == Quote(b)
    ensures a == b
  {
    DecodeQuote(a);
    DecodeQuote(b);
  }

  lemma EncodedQuoteByte(b: Byte, t: string)
    ensures Encoded(QuoteByte(b) + t) <==> Encoded(t)
  {
    var u := QuoteByte(b) + t;
    if IsSafe(b) {
      assert u[0] == b as char && u[1..] == t;
    } else {
      assert u[0] == '%' && u[1] == HexDigit(b / 16) && u[2] == HexDigit(b % 16) && u[3..] == t;
    }
  }

  /** Every output of `Quote` is made of unreserved characters, '/' and "%XX" triples. */
  lemma {:induction false} QuoteEncoded(s: seq<Byte>)
    ensures Encoded(Quote(s))
  {
    if s != [] {
      QuoteEncoded(s[1..]);
      EncodedQuoteByte(s[0], Quote(s[1..]));
    }
  }

  /** Encoded text stays encoded when put side by side. */
  lemma {:induction false} EncodedAppend(a: string, b: string)
    requires Encoded(a) && Encoded(b)
    ensures Encoded(a + b)
    decreases |a|
  {
    if a == [] {
      assert a + b == b;
    } else {
      assert (a + b)[0] == a[0];
      if IsSafeChar(a[0]) {
        assert (a + b)[1..] == a[1..] + b;
        EncodedAppend(a[1..], b);
      } else {
        assert (a + b)[1] == a[1] && (a + b)[2] == a[2] && (a + b)[3..] == a[3..] + b;
        EncodedAppend(a[3..], b);
      }
    }
  }

  /** `Quote` works byte by byte, so it distributes over concatenation. */
  lemma {:induction false} QuoteAppend(a: seq<Byte>, b: seq<Byte>)
    ensures Quote(a + b) == Quote(a) + Quote(b)
  {
    if a != [] {
      assert (a + b)[0] == a[0] && (a + b)[1..] == a[1..] + b;
      QuoteAppend(a[1..], b);
    } else {
      assert a + b == b;
    }
  }

  /** A '/' appears in the encoding exactly when the byte '/' appears in the input: it is never escaped. */
  lemma {:induction false} QuoteKeepsSlash(s: seq<Byte>)
    ensures '/' in Quote(s) <==> Slash in s
  {
    if s != [] {
      QuoteKeepsSlash(s[1..]);
      var q := QuoteByte(s[0]);
      assert '/' in q <==> s[0] == Slash;
      assert '/' in q + Quote(s[1..]) <==> '/' in q || '/' in Quote(s[1..]);
      assert Slash in s <==> s[0] == Slash || Slash in s[1..] by {
        assert s == [s[0]] + s[1..];
      }
    }
  }

  /** The bytes of an ASCII string, which are also its UTF-8 bytes. */
  function AsciiBytes(t: string): (r: seq<Byte>)
    requires forall i :: 0 <= i < |t| ==> t[i] as int < 128
    ensures |r| == |t|
    ensures forall i :: 0 <= i < |t| ==> r[i] == t[i] as int
  {
    seq(|t|, i requires 0 <= i < |t| => t[i] as int)
  }

  /** Text made of safe characters only has the shape of an encoding. */
  lemma {:induction false} SafeTextEncoded(t: string)
    requires forall i :: 0 <= i < |t| ==> IsSafeChar(t[i])
    ensures Encoded(t)
  {
    if t != [] {
      assert forall i :: 1 <= i < |t| ==> t[1..][i - 1] == t[i];
      SafeTextEncoded(t[1..]);
    }
  }

  /** Text made of safe characters only is its own encoding. */
  lemma QuoteSafeText(t: string)
    requires forall i :: 0 <= i < |t| ==> IsSafeChar(t[i])
    ensures forall i :: 0 <= i < |t| ==> t[i] as int < 128
    ensures Quote(AsciiBytes(t)) == t
    ensures Encoded(t)
  {
    var b := AsciiBytes(t);
    forall i | 0 <= i < |t|
      ensures t[i] as int < 128 && IsSafe(b[i]) && AsChars(b)[i] == t[i]
    {
      assert IsSafeChar(t[i]);
    }
    assert AsChars(b) == t;
    QuoteIdentity(b);
    SafeTextEncoded(t);
  }
}
