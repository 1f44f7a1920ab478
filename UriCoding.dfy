/** The decoding `transcodeOnUpload` applies to the object key of an S3 record:
    every `+` becomes a space, then ECMAScript's `decodeURIComponent` (section
    19.2.6.2 of ECMA-262, 2024 edition, which runs the abstract operation
    Decode of section 19.2.6.6 with an empty set of preserved characters)
    undoes the percent-encoding of section 2.1 of RFC 3986, including the
    UTF-8 sequences of RFC 3629 that the escapes carry.

    Strings are sequences of Unicode scalar values; JavaScript strings are
    UTF-16 code units, so a four-octet sequence yields one `char` here where
    JavaScript yields a surrogate pair. */
module UriCoding {
  import opened Wrappers

  /** An octet, the value of one `%XY` escape. */
  newtype byte = x: int | 0 <= x < 256

  /** The one error decoding raises: ECMAScript's URIError. */
  datatype UriError = URIError

  // ---------------------------------------------------------------------
  // `key.replace(/\+/g, " ")`
  // ---------------------------------------------------------------------

  /** Every `+` becomes a space; every other character is kept in place. */
  function ReplacePlus(s: string): (r: string)
    ensures |r| == |s|
    ensures forall i :: 0 <= i < |s| ==> r[i] == (if s[i] == '+' then ' ' else s[i])
    ensures '+' !in r
  {
    if s == [] then [] else [if s[0] == '+' then ' ' else s[0]] + ReplacePlus(s[1..])
  }

  lemma {:induction false} ReplacePlusAppend(s: string, t: string)
    ensures ReplacePlus(s + t) == ReplacePlus(s) + ReplacePlus(t)
  {
    var l, r := ReplacePlus(s + t), ReplacePlus(s) + ReplacePlus(t);
    assert |l| == |r|;
    forall i | 0 <= i < |l| ensures l[i] == r[i] {
      if i < |s| {
        assert (s + t)[i] == s[i];
      } else {
        assert (s + t)[i] == t[i - |s|];
      }
    }
  }

  // ---------------------------------------------------------------------
  // Hexadecimal octets
  // ---------------------------------------------------------------------

  predicate IsHexDigit(c: char) {
    '0' <= c <= '9' || 'a' <= c <= 'f' || 'A' <= c <= 'F'
  }

  function HexValue(c: char): (v: nat)
    requires IsHexDigit(c)
    ensures v < 16
  {
    if c <= '9' then c as int - '0' as int
    else if 'a' <= c then c as int - 'a' as int + 10
    else c as int - 'A' as int + 10
  }

  /** The upper-case digit that RFC 3986 recommends for producers. */
  function HexDigit(v: nat): (c: char)
    requires v < 16
    ensures IsHexDigit(c) && HexValue(c) == v
  {
    if v < 10 then ('0' as int + v) as char else ('A' as int + v - 10) as char
  }

  /** ParseHexOctet of ECMA-262: the two hex digits at `i`, or nothing. */
  function ParseHexOctet(s: string, i: nat): (r: Option<byte>)
    requires i + 2 <= |s|
    ensures r.Some? <==> IsHexDigit(s[i]) && IsHexDigit(s[i + 1])
  {
    if IsHexDigit(s[i]) && IsHexDigit(s[i + 1])
    then Some((16 * HexValue(s[i]) + HexValue(s[i + 1])) as byte)
    else None
  }

  /** The escape `%XY` of one octet. */
  function EscapeOctet(b: byte): (s: string)
    ensures |s| == 3 && s[0] == '%'
  {
    ['%', HexDigit(b as int / 16), HexDigit(b as int % 16)]
  }

  function EscapeOctets(o: seq<byte>): (s: string)
    ensures |s| == 3 * |o|
  {
    if o == [] then [] else EscapeOctet(o[0]) + EscapeOctets(o[1..])
  }

  /** Reads `count` consecutive escapes from the start of `s`. */
  function ReadOctets(s: string, count: nat): (r: Option<seq<byte>>)
    ensures r.Some? ==> |r.value| == count && 3 * count <= |s|
    decreases count
  {
    if count == 0 then Some([])
    else if |s| < 3 || s[0] != '%' then None
    else match ParseHexOctet(s, 1)
      case None => None
      case Some(b) =>
        match ReadOctets(s[3..], count - 1)
        case None => None
        case Some(bs) => Some([b] + bs)
  }

  lemma {:induction false} ParseEscapeOctet(b: byte, rest: string)
    ensures ParseHexOctet(EscapeOctet(b) + rest, 1) == Some(b)
  {
    var s := EscapeOctet(b) + rest;
    assert s[1] == HexDigit(b as int / 16) && s[2] == HexDigit(b as int % 16);
  }

  /** Reading back escaped octets yields the octets, whatever follows them. */
  lemma {:induction false} ReadEscapedOctets(o: seq<byte>, rest: string)
    ensures ReadOctets(EscapeOctets(o) + rest, |o|) == Some(o)
  {
    if o != [] {
      var tail := EscapeOctets(o[1..]) + rest;
      var s := EscapeOctets(o) + rest;
      assert s == EscapeOctet(o[0]) + tail;
      ParseEscapeOctet(o[0], tail);
      assert s[3..] == tail;
      ReadEscapedOctets(o[1..], rest);
      assert ReadOctets(s, |o|) == Some([o[0]] + o[1..]);
      assert [o[0]] + o[1..] == o;
    }
  }

  /** Reading succeeds on a prefix only if it succeeds alike on any extension. */
  lemma {:induction false} ReadOctetsAppend(s: string, t: string, count: nat)
    requires ReadOctets(s, count).Some?
    ensures ReadOctets(s + t, count) == ReadOctets(s, count)
    decreases count
  {
    if count > 0 {
      assert (s + t)[3..] == s[3..] + t;
      ReadOctetsAppend(s[3..], t, count - 1);
    }
  }

  // ---------------------------------------------------------------------
  // UTF-8 (RFC 3629)
  // ---------------------------------------------------------------------

  /** The number of leading 1 bits of an octet. */
  function LeadingOnes(b: byte): (n: nat)
    ensures n <= 8
  {
    if b < 0x80 then 0 else if b < 0xC0 then 1 else if b < 0xE0 then 2
    else if b < 0xF0 then 3 else if b < 0xF8 then 4 else if b < 0xFC then 5
    else if b < 0xFE then 6 else if b < 0xFF then 7 else 8
  }

  predicate IsContinuation(b: byte) {
    0x80 <= b < 0xC0
  }

  /** The character with code point `cp`, if `cp` is a Unicode scalar value. */
  function ScalarValue(cp: int): (r: Option<char>)
    ensures r.Some? ==> r.value as int == cp
  {
    if 0 <= cp < 0xD800 || 0xE000 <= cp < 0x11_0000 then Some(cp as char) else None
  }

  /** The shortest-form UTF-8 encoding of one scalar value. */
  function Utf8Encode(c: char): (o: seq<byte>)
    ensures 1 <= |o| <= 4
  {
    var cp := c as int;
    if cp < 0x80 then [cp as byte]
    else if cp < 0x800 then [(0xC0 + cp / 64) as byte, (0x80 + cp % 64) as byte]
    else if cp < 0x1_0000 then
      [(0xE0 + cp / 4096) as byte, (0x80 + cp / 64 % 64) as byte, (0x80 + cp % 64) as byte]
    else
      [(0xF0 + cp / 262144) as byte, (0x80 + cp / 4096 % 64) as byte,
       (0x80 + cp / 64 % 64) as byte, (0x80 + cp % 64) as byte]
  }

  /** The code point that `o` is a valid UTF-8 encoding of, if it is one:
      the right number of continuation octets for the lead octet, no
      overlong form, no surrogate, nothing above U+10FFFF. */
  function Utf8Decode(o: seq<byte>): (r: Option<char>)
  {
    if |o| == 1 && o[0] < 0x80 then
      Some(o[0] as char)
    else if |o| == 2 && 0xC0 <= o[0] < 0xE0 && IsContinuation(o[1]) then
      var cp := (o[0] as int - 0xC0) * 64 + (o[1] as int - 0x80);
      if cp < 0x80 then None else ScalarValue(cp)
    else if |o| == 3 && 0xE0 <= o[0] < 0xF0 && IsContinuation(o[1]) && IsContinuation(o[2]) then
      var cp := (o[0] as int - 0xE0) * 4096 + (o[1] as int - 0x80) * 64 + (o[2] as int - 0x80);
      if cp < 0x800 then None else ScalarValue(cp)
    else if |o| == 4 && 0xF0 <= o[0] < 0xF8 && IsContinuation(o[1]) && IsContinuation(o[2])
            && IsContinuation(o[3]) then
      var cp := (o[0] as int - 0xF0) * 262144 + (o[1] as int - 0x80) * 4096
                + (o[2] as int - 0x80) * 64 + (o[3] as int - 0x80);
      if cp < 0x1_0000 then None else ScalarValue(cp)
    else
      None
  }

  /** Decoding an encoding gives the character back, and the lead octet
      announces the length of the sequence as ECMA-262 reads it. */
  lemma Utf8RoundTrip(c: char)
    ensures Utf8Decode(Utf8Encode(c)) == Some(c)
    ensures var o := Utf8Encode(c);
      LeadingOnes(o[0]) == (if |o| == 1 then 0 else |o|)
  {
    var cp := c as int;
    if cp < 0x80 {
    } else if cp < 0x800 {
      Split64(cp);
    } else if cp < 0x1_0000 {
      Split64(cp);
      Split64(cp / 64);
      assert cp / 4096 == cp / 64 / 64;
    } else {
      Split64(cp);
      Split64(cp / 64);
      Split64(cp / 64 / 64);
      assert cp / 4096 == cp / 64 / 64;
      assert cp / 262144 == cp / 64 / 64 / 64;
    }
  }

  /** The only octets that decode to `c` are its shortest-form encoding. */
  lemma Utf8Unique(o: seq<byte>, c: char)
    requires Utf8Decode(o) == Some(c)
    ensures o == Utf8Encode(c)
  {
    var cp := c as int;
    if |o| == 2 {
      var hi, lo := o[0] as int - 0xC0, o[1] as int - 0x80;
      assert cp == hi * 64 + lo;
      Unsplit64(cp, hi, lo);
    } else if |o| == 3 {
      var a, b, d := o[0] as int - 0xE0, o[1] as int - 0x80, o[2] as int - 0x80;
      assert cp == (a * 64 + b) * 64 + d;
      Unsplit64(cp, a * 64 + b, d);
      Unsplit64(cp / 64, a, b);
      assert cp / 4096 == cp / 64 / 64;
    } else if |o| == 4 {
      var a, b, d, e := o[0] as int - 0xF0, o[1] as int - 0x80, o[2] as int - 0x80, o[3] as int - 0x80;
      assert cp == ((a * 64 + b) * 64 + d) * 64 + e;
      Unsplit64(cp, (a * 64 + b) * 64 + d, e);
      Unsplit64(cp / 64, a * 64 + b, d);
      Unsplit64(cp / 64 / 64, a, b);
      assert cp / 4096 == cp / 64 / 64;
      assert cp / 262144 == cp / 64 / 64 / 64;
    }
  }

  lemma Split64(x: int)
    ensures x == (x / 64) * 64 + x % 64 && 0 <= x % 64 < 64
  {
  }

  lemma Unsplit64(x: int, q: int, r: int)
    requires 0 <= r < 64 && x == q * 64 + r
    ensures x / 64 == q && x % 64 == r
  {
  }

  // ---------------------------------------------------------------------
  // decodeURIComponent
  // ---------------------------------------------------------------------

  /** Decodes the escape group at the start of `s`, which starts with `%`:
      one escape for an ASCII character, or the two to four escapes of one
      UTF-8 sequence. Yields the character and the number of characters
      the group spans. */
  function DecodeEscape(s: string): (r: Result<(char, nat), UriError>)
    requires |s| > 0 && s[0] == '%'
    ensures r.Ok? ==> 3 <= r.value.1 <= |s|
  {
    if |s| < 3 then Err(URIError)
    else match ParseHexOctet(s, 1)
      case None => Err(URIError)
      case Some(b) =>
        var n := LeadingOnes(b);
        if n == 0 then Ok((b as char, 3))
        else if n == 1 || n > 4 then Err(URIError)
        else
          match ReadOctets(s[3..], n - 1)
          case None => Err(URIError)
          case Some(more) =>
            match Utf8Decode([b] + more)
            case None => Err(URIError)
            case Some(c) => Ok((c, 3 * n))
  }

  function Prepend(c: char, r: Result<string, UriError>): Result<string, UriError> {
    match r
    case Ok(s) => Ok([c] + s)
    case Err(e) => Err(e)
  }

  /** `decodeURIComponent(s)`: every escape group is replaced by the
      character it encodes; anything malformed throws URIError. */
  function PercentDecode(s: string): (r: Result<string, UriError>)
    ensures '%' !in s ==> r == Ok(s)
    ensures r.Ok? ==> |r.value| <= |s|
    decreases |s|
  {
    if s == [] then Ok([])
    else if s[0] != '%' then
      assert s == [s[0]] + s[1..];
      Prepend(s[0], PercentDecode(s[1..]))
    else
      match DecodeEscape(s)
      case Err(e) => Err(e)
      case Ok((c, n)) => Prepend(c, PercentDecode(s[n..]))
  }

  /** What a group decodes to does not depend on what follows it. */
  lemma DecodeEscapeAppend(s: string, t: string)
    requires |s| > 0 && s[0] == '%' && DecodeEscape(s).Ok?
    ensures DecodeEscape(s + t) == DecodeEscape(s)
  {
    var st := s + t;
    assert st[1] == s[1] && st[2] == s[2];
    var b := ParseHexOctet(s, 1).value;
    var n := LeadingOnes(b);
    if 2 <= n <= 4 {
      assert st[3..] == s[3..] + t;
      ReadOctetsAppend(s[3..], t, n - 1);
    }
  }

  /** A group that decodes to `c` followed by anything decodes as `c`
      followed by the decoding of the rest. */
  lemma DecodeGroupThen(g: string, c: char, rest: string)
    requires |g| > 0 && g[0] == '%' && DecodeEscape(g) == Ok((c, |g|))
    ensures PercentDecode(g + rest) == Prepend(c, PercentDecode(rest))
  {
    DecodeEscapeAppend(g, rest);
    assert (g + rest)[|g|..] == rest;
  }

  /** A character other than `%` stands for itself. */
  lemma DecodeLiteralThen(c: char, rest: string)
    requires c != '%'
    ensures PercentDecode([c] + rest) == Prepend(c, PercentDecode(rest))
  {
    assert ([c] + rest)[1..] == rest;
  }

  function Concat(r1: Result<string, UriError>, r2: Result<string, UriError>): Result<string, UriError> {
    match r1
    case Err(e) => Err(e)
    case Ok(a) => match r2 case Err(e) => Err(e) case Ok(b) => Ok(a + b)
  }

  lemma ConcatPrepend(c: char, r1: Result<string, UriError>, r2: Result<string, UriError>)
    ensures Concat(Prepend(c, r1), r2) == Prepend(c, Concat(r1, r2))
  {
    if r1.Ok? && r2.Ok? {
      assert [c] + (r1.value + r2.value) == ([c] + r1.value) + r2.value;
    }
  }

  /** Decoding is compositional at the end of a well-formed string: a
      completely decoded prefix decodes the same before anything. */
  lemma {:induction false} DecodeAppend(s: string, t: string)
    requires PercentDecode(s).Ok?
    ensures PercentDecode(s + t) == Concat(PercentDecode(s), PercentDecode(t))
    decreases |s|
  {
    if s == [] {
      assert s + t == t;
      if PercentDecode(t).Ok? {
        assert [] + PercentDecode(t).value == PercentDecode(t).value;
      }
    } else {
      var c, n;
      if s[0] != '%' {
        c, n := s[0], 1;
        assert s + t == [c] + (s[1..] + t);
        DecodeLiteralThen(c, s[1..] + t);
      } else {
        c, n := DecodeEscape(s).value.0, DecodeEscape(s).value.1;
        DecodeEscapeAppend(s, t);
      }
      assert PercentDecode(s) == Prepend(c, PercentDecode(s[n..]));
      assert (s + t)[n..] == s[n..] + t;
      assert PercentDecode(s + t) == Prepend(c, PercentDecode(s[n..] + t));
      DecodeAppend(s[n..], t);
      ConcatPrepend(c, PercentDecode(s[n..]), PercentDecode(t));
    }
  }

  /** Each of `count` escapes read from `u` is a `%` and two hex digits. */
  lemma {:induction false} ReadOctetsShape(u: string, count: nat, j: nat)
    requires ReadOctets(u, count).Some? && j < count
    ensures 3 * j + 2 < |u| && u[3 * j] == '%' && IsHexDigit(u[3 * j + 1]) && IsHexDigit(u[3 * j + 2])
    decreases count
  {
    if j > 0 {
      ReadOctetsShape(u[3..], count - 1, j - 1);
    }
  }

  /** Inside a group that decodes, every third character from the start is
      a `%` followed by two hex digits, and every other one is a hex digit. */
  lemma GroupShape(x: string, p: nat)
    requires |x| > 0 && x[0] == '%' && DecodeEscape(x).Ok? && p < DecodeEscape(x).value.1
    ensures p % 3 == 0 ==> p + 2 < |x| && x[p] == '%' && IsHexDigit(x[p + 1]) && IsHexDigit(x[p + 2])
    ensures p % 3 != 0 ==> IsHexDigit(x[p])
  {
    var b := ParseHexOctet(x, 1).value;
    var n := LeadingOnes(b);
    if p >= 3 {
      assert 2 <= n <= 4 && DecodeEscape(x).value.1 == 3 * n;
      ContinuationShape(x, n - 1, p);
    }
  }

  /** The same for the continuation escapes that follow the first one. */
  lemma ContinuationShape(x: string, count: nat, p: nat)
    requires |x| >= 3 && ReadOctets(x[3..], count).Some? && 3 <= p < 3 + 3 * count
    ensures p % 3 == 0 ==> p + 2 < |x| && x[p] == '%' && IsHexDigit(x[p + 1]) && IsHexDigit(x[p + 2])
    ensures p % 3 != 0 ==> IsHexDigit(x[p])
  {
    var u, j, r := x[3..], (p - 3) / 3, (p - 3) % 3;
    assert p == 3 + 3 * j + r && p % 3 == r && j < count;
    ReadOctetsShape(u, count, j);
    if r == 0 {
      assert x[p] == u[3 * j] && x[p + 1] == u[3 * j + 1] && x[p + 2] == u[3 * j + 2];
    } else if r == 1 {
      assert x[p] == u[3 * j + 1];
    } else {
      assert x[p] == u[3 * j + 2];
    }
  }

  /** A group that decodes cannot cover the start of a malformed escape
      that follows it: that `%` would have to be a hex digit, or the `%` of
      a well-formed escape. */
  lemma GroupStaysInPrefix(s: string, t: string)
    requires |s| > 0 && s[0] == '%'
    requires |t| > 0 && t[0] == '%' && (|t| < 3 || !IsHexDigit(t[1]) || !IsHexDigit(t[2]))
    requires DecodeEscape(s + t).Ok?
    ensures DecodeEscape(s + t).value.1 <= |s|
  {
    if |s| < DecodeEscape(s + t).value.1 {
      GroupShape(s + t, |s|);
      assert false;
    }
  }

  /** A `%` not followed by two hex digits makes the whole decoding throw,
      whatever text precedes it. */
  lemma {:induction false} MalformedEscapeThrows(s: string, t: string)
    requires |t| > 0 && t[0] == '%' && (|t| < 3 || !IsHexDigit(t[1]) || !IsHexDigit(t[2]))
    ensures PercentDecode(s + t) == Err(URIError)
    decreases |s|
  {
    if s == [] {
      assert s + t == t;
    } else if s[0] != '%' {
      assert (s + t)[0] == s[0] && (s + t)[1..] == s[1..] + t;
      MalformedEscapeThrows(s[1..], t);
    } else {
      assert (s + t)[0] == '%';
      match DecodeEscape(s + t)
      case Err(_) =>
      case Ok((c, n)) =>
        GroupStaysInPrefix(s, t);
        assert (s + t)[n..] == s[n..] + t;
        MalformedEscapeThrows(s[n..], t);
    }
  }

  // ---------------------------------------------------------------------
  // The key decoding of transcodeOnUpload
  // ---------------------------------------------------------------------

  /** `decodeURIComponent(rawKey.replace(/\+/g, " "))`. */
  function DecodeKey(rawKey: string): (r: Result<string, UriError>)
    ensures '%' !in rawKey ==> r == Ok(ReplacePlus(rawKey)) && '+' !in r.value
  {
    var spaced := ReplacePlus(rawKey);
    assert '%' !in rawKey ==> '%' !in spaced by {
      if '%' in spaced {
        var i :| 0 <= i < |spaced| && spaced[i] == '%';
        assert rawKey[i] == '%';
      }
    }
    PercentDecode(spaced)
  }

  // ---------------------------------------------------------------------
  // The encoding S3 applies to keys in event notifications
  // ---------------------------------------------------------------------

  /** Form encoding of one character: a space becomes `+`, a character the
      encoder keeps stands for itself, any other is percent-encoded as its
      UTF-8 octets. Which characters are kept is the encoder's choice. */
  function FormEncodeChar(keep: char -> bool, c: char): string {
    if c == ' ' then "+" else if keep(c) then [c] else EscapeOctets(Utf8Encode(c))
  }

  function FormEncode(keep: char -> bool, key: string): string {
    if key == [] then [] else FormEncodeChar(keep, key[0]) + FormEncode(keep, key[1..])
  }

  lemma {:induction false} EscapedHasNoPlus(o: seq<byte>)
    ensures '+' !in EscapeOctets(o)
  {
    if o != [] {
      EscapedHasNoPlus(o[1..]);
    }
  }

  /** The escapes of a character's UTF-8 octets decode to that character. */
  lemma DecodeEscapedChar(c: char)
    ensures var g := EscapeOctets(Utf8Encode(c));
      |g| > 0 && g[0] == '%' && DecodeEscape(g) == Ok((c, |g|))
  {
    var o := Utf8Encode(c);
    var g := EscapeOctets(o);
    Utf8RoundTrip(c);
    assert g == EscapeOctet(o[0]) + EscapeOctets(o[1..]);
    ParseEscapeOctet(o[0], EscapeOctets(o[1..]));
    if |o| > 1 {
      assert g[3..] == EscapeOctets(o[1..]) + [];
      ReadEscapedOctets(o[1..], []);
      assert [o[0]] + o[1..] == o;
    }
  }

  /** One encoded character, after `+` replacement, decodes to itself. */
  lemma DecodeEncodedChar(keep: char -> bool, c: char, rest: string)
    requires forall x :: keep(x) ==> x != '%' && x != '+'
    ensures PercentDecode(ReplacePlus(FormEncodeChar(keep, c)) + rest) == Prepend(c, PercentDecode(rest))
  {
    if c == ' ' {
      DecodeLiteralThen(' ', rest);
    } else if keep(c) {
      DecodeLiteralThen(c, rest);
    } else {
      var g := EscapeOctets(Utf8Encode(c));
      EscapedHasNoPlus(Utf8Encode(c));
      assert ReplacePlus(g) == g;
      DecodeEscapedChar(c);
      DecodeGroupThen(g, c, rest);
    }
  }

  /** The key decoding recovers the stored key from its form encoding, for
      any encoder that keeps neither `%` nor `+` literal. */
  lemma {:induction false} DecodeKeyRoundTrip(keep: char -> bool, key: string)
    requires forall x :: keep(x) ==> x != '%' && x != '+'
    ensures DecodeKey(FormEncode(keep, key)) == Ok(key)
    decreases |key|
  {
    if key != [] {
      var head, tail := FormEncodeChar(keep, key[0]), FormEncode(keep, key[1..]);
      ReplacePlusAppend(head, tail);
      DecodeEncodedChar(keep, key[0], ReplacePlus(tail));
      DecodeKeyRoundTrip(keep, key[1..]);
      assert [key[0]] + key[1..] == key;
    }
  }

  /** A key with neither `%` nor `+` decodes to itself. */
  lemma PlainKeyUnchanged(s: string)
    requires '%' !in s && '+' !in s
    ensures DecodeKey(s) == Ok(s)
  {
    assert ReplacePlus(s) == s;
  }

  /** `%2B` is the escape of `+`. */
  lemma PlusEscape()
    ensures DecodeEscape("%2B") == Ok(('+', 3))
  {
    assert HexValue('2') == 2 && HexValue('B') == 11;
    assert ParseHexOctet("%2B", 1) == Some(0x2B);
    assert LeadingOnes(0x2B) == 0;
  }

  /** Between two stretches without escapes, a group decoding to `c`
      stands for `c`. */
  lemma GroupBetween(a: string, g: string, c: char, b: string)
    requires '%' !in a && '%' !in b
    requires |g| > 0 && g[0] == '%' && DecodeEscape(g) == Ok((c, |g|))
    ensures PercentDecode(a + g + b) == Ok(a + [c] + b)
  {
    DecodeGroupThen(g, c, b);
    DecodeAppend(a, g + b);
    assert a + g + b == a + (g + b);
    assert a + ([c] + b) == a + [c] + b;
  }

  /** In a key whose only escape is one group `g`, the group decodes to
      its character and every literal `+` around it to a space. */
  lemma GroupInKey(s: string, g: string, c: char, t: string)
    requires '%' !in s && '%' !in t && '+' !in g
    requires |g| > 0 && g[0] == '%' && DecodeEscape(g) == Ok((c, |g|))
    ensures DecodeKey(s + g + t) == Ok(ReplacePlus(s) + [c] + ReplacePlus(t))
  {
    ReplacePlusAppend(s + g, t);
    ReplacePlusAppend(s, g);
    assert ReplacePlus(g) == g;
    assert DecodeKey(s) == Ok(ReplacePlus(s)) && DecodeKey(t) == Ok(ReplacePlus(t));
    GroupBetween(ReplacePlus(s), g, c, ReplacePlus(t));
  }

  /** A literal `+` in a key is a space, while the escape `%2B` is a plus:
      only the second survives decoding as `+`. */
  lemma EscapedPlusDecodes(s: string, t: string)
    requires '%' !in s && '%' !in t
    ensures DecodeKey(s + "%2B" + t) == Ok(ReplacePlus(s) + "+" + ReplacePlus(t))
  {
    PlusEscape();
    GroupInKey(s, "%2B", '+', t);
  }

  // ---------------------------------------------------------------------
  // Where a `+` in a decoded key comes from
  // ---------------------------------------------------------------------

  /** `s` holds no escape of `+`, `%2B` or `%2b`. */
  predicate NoPlusEscape(s: string) {
    forall i :: 0 <= i < |s| - 2 && s[i] == '%' ==> !(s[i + 1] == '2' && (s[i + 2] == 'B' || s[i + 2] == 'b'))
  }

  /** A multi-octet UTF-8 sequence never decodes to an ASCII character. */
  lemma WideDecode(o: seq<byte>)
    requires |o| >= 2 && Utf8Decode(o).Some?
    ensures Utf8Decode(o).value as int >= 0x80
  {
  }

  /** The only groups that decode to `+` are `%2B` and `%2b`. */
  lemma PlusGroup(x: string)
    requires |x| > 0 && x[0] == '%' && DecodeEscape(x).Ok? && DecodeEscape(x).value.0 == '+'
    ensures x[1] == '2' && (x[2] == 'B' || x[2] == 'b')
  {
    var b := ParseHexOctet(x, 1).value;
    if LeadingOnes(b) != 0 {
      var more := ReadOctets(x[3..], LeadingOnes(b) - 1).value;
      WideDecode([b] + more);
    }
    assert 16 * HexValue(x[1]) + HexValue(x[2]) == 0x2B;
  }

  /** Decoding text without `+` and without an escape of `+` yields no `+`. */
  lemma {:induction false} NoPlusDecoded(s: string)
    requires '+' !in s && NoPlusEscape(s) && PercentDecode(s).Ok?
    ensures '+' !in PercentDecode(s).value
    decreases |s|
  {
    if s != [] {
      var n := if s[0] == '%' then DecodeEscape(s).value.1 else 1;
      var rest := s[n..];
      assert NoPlusEscape(rest) by {
        forall i | 0 <= i < |rest| - 2 && rest[i] == '%'
          ensures !(rest[i + 1] == '2' && (rest[i + 2] == 'B' || rest[i + 2] == 'b'))
        {
          assert s[n + i] == rest[i] && s[n + i + 1] == rest[i + 1] && s[n + i + 2] == rest[i + 2];
        }
      }
      assert '+' !in rest by {
        forall i | 0 <= i < |rest| ensures rest[i] != '+' {
          assert rest[i] == s[n + i];
        }
      }
      NoPlusDecoded(rest);
      if s[0] == '%' {
        if DecodeEscape(s).value.0 == '+' {
          PlusGroup(s);
          assert false;
        }
      }
    }
  }

  /** A `+` in a decoded key always comes from an escape `%2B` or `%2b` of
      the raw key: every literal `+` has become a space. */
  lemma NoPlusInDecodedKey(rawKey: string)
    requires NoPlusEscape(rawKey) && DecodeKey(rawKey).Ok?
    ensures '+' !in DecodeKey(rawKey).value
  {
    var spaced := ReplacePlus(rawKey);
    assert NoPlusEscape(spaced) by {
      forall i | 0 <= i < |spaced| - 2 && spaced[i] == '%'
        ensures !(spaced[i + 1] == '2' && (spaced[i + 2] == 'B' || spaced[i + 2] == 'b'))
      {
        assert rawKey[i] == '%';
      }
    }
    NoPlusDecoded(spaced);
  }
}
