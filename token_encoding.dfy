/** The text form of a refresh token: the random bytes written in base64
    (section 4 of RFC 4648), after which every '+' becomes '-' and every
    '/' becomes '_'.  The result is the URL- and filename-safe base64 of
    section 5 of RFC 4648, with its '=' padding kept. */
module TokenEncoding {
  import opened Wrappers

  newtype byte = x: int | 0 <= x < 256

  /** The value of one base64 digit. */
  type Sextet = k: int | 0 <= k < 64

  /** Number of random bytes behind one refresh token. */
  const TokenByteCount: nat := 64

  /** Length of the text of one refresh token: 4 characters per started
      group of 3 bytes. */
  const TokenLength: nat := 88

  /** Table 1 of RFC 4648 (section 4, base64) when `urlSafe` is false, Table 2
      (RFC 4648 section 5, base64url) when it is true; the two differ only in digits 62 and 63. */
  function Digit(k: Sextet, urlSafe: bool): char
  {
    if k < 26 then ('A' as int + k) as char
    else if k < 52 then ('a' as int + (k - 26)) as char
    else if k < 62 then ('0' as int + (k - 52)) as char
    else if k == 62 then (if urlSafe then '-' else '+')
    else (if urlSafe then '_' else '/')
  }

  /** The characters of the RFC 4648 section 5 (base64url) alphabet. */
  predicate IsUrlSafeDigit(c: char)
  {
    ('A' <= c <= 'Z') || ('a' <= c <= 'z') || ('0' <= c <= '9') || c == '-' || c == '_'
  }

  /** Inverse of `Digit(_, true)`: the value of an RFC 4648 section 5 (base64url) digit. */
  function UrlSafeDigitValue(c: char): (r: Option<Sextet>)
    ensures r.Some? <==> IsUrlSafeDigit(c)
  {
    if 'A' <= c <= 'Z' then Some(c as int - 'A' as int)
    else if 'a' <= c <= 'z' then Some(c as int - 'a' as int + 26)
    else if '0' <= c <= '9' then Some(c as int - '0' as int + 52)
    else if c == '-' then Some(62)
    else if c == '_' then Some(63)
    else None
  }

  /** One group of one to three bytes as four characters, padded with '='. */
  function Quad(g: seq<byte>, urlSafe: bool): string
    requires 1 <= |g| <= 3
  {
    var b0 := g[0] as int;
    var b1 := if |g| > 1 then g[1] as int else 0;
    var b2 := if |g| > 2 then g[2] as int else 0;
    [Digit(b0 / 4, urlSafe),
     Digit(b0 % 4 * 16 + b1 / 16, urlSafe),
     if |g| > 1 then Digit(b1 % 16 * 4 + b2 / 64, urlSafe) else '=',
     if |g| > 2 then Digit(b2 % 64, urlSafe) else '=']
  }

  /** Base64 of `b`, over Table 1 or Table 2 of RFC 4648. */
  function Encode(b: seq<byte>, urlSafe: bool): string
    decreases |b|
  {
    if |b| == 0 then ""
    else if |b| <= 3 then Quad(b, urlSafe)
    else Quad(b[..3], urlSafe) + Encode(b[3..], urlSafe)
  }

  /** Every occurrence of `from` in `s` replaced by `to`, as
      `string.Replace` does for one-character strings. */
  function Replace(s: string, from: char, to: char): (r: string)
    ensures |r| == |s|
    ensures forall i :: 0 <= i < |s| ==> r[i] == (if s[i] == from then to else s[i])
  {
    if s == [] then [] else [if s[0] == from then to else s[0]] + Replace(s[1..], from, to)
  }

  /** The text of the refresh token generated from `random`, computed as
      the service does: standard base64, then the two substitutions. */
  function RefreshTokenText(random: seq<byte>): string
  {
    Replace(Replace(Encode(random, false), '+', '-'), '/', '_')
  }

  /** Decodes base64url (RFC 4648 section 5) with '=' padding; `None` on malformed text. */
  function Decode(s: string): Option<seq<byte>>
    decreases |s|
  {
    if |s| == 0 then Some([])
    else if |s| < 4 then None
    else
      match DecodeQuad(s[..4], |s| == 4)
      case None => None
      case Some(g) =>
        match Decode(s[4..])
        case None => None
        case Some(rest) => Some(g + rest)
  }

  /** Decodes one group of four characters; padding is accepted only in
      the `last` group. */
  function DecodeQuad(q: string, last: bool): Option<seq<byte>>
    requires |q| == 4
  {
    var d0 := UrlSafeDigitValue(q[0]);
    var d1 := UrlSafeDigitValue(q[1]);
    if d0.None? || d1.None? then None
    else
      var c0, c1 := d0.value, d1.value;
      var b0 := (c0 * 4 + c1 / 16) as byte;
      if q[2] == '=' then
        if last && q[3] == '=' then Some([b0]) else None
      else
        match UrlSafeDigitValue(q[2])
        case None => None
        case Some(c2) =>
          var b1 := (c1 % 16 * 16 + c2 / 4) as byte;
          if q[3] == '=' then
            if last then Some([b0, b1]) else None
          else
            match UrlSafeDigitValue(q[3])
            case None => None
            case Some(c3) => Some([b0, b1, (c2 % 4 * 64 + c3) as byte])
  }

  /** Number of '=' characters that pad the encoding of `n` bytes. */
  function Padding(n: nat): nat
  {
    if n % 3 == 0 then 0 else 3 - n % 3
  }

  // ---------------------------------------------------------------------
  // Properties

  lemma DigitValueRoundTrip(k: Sextet)
    ensures UrlSafeDigitValue(Digit(k, true)) == Some(k)
  {
  }

  lemma QuadRoundTrip(g: seq<byte>)
    requires 1 <= |g| <= 3
    ensures DecodeQuad(Quad(g, true), true) == Some(g)
    ensures |g| == 3 ==> DecodeQuad(Quad(g, true), false) == Some(g)
  {
    var q := Quad(g, true);
    var b0 := g[0] as int;
    var b1 := if |g| > 1 then g[1] as int else 0;
    var b2 := if |g| > 2 then g[2] as int else 0;
    DigitValueRoundTrip(b0 / 4);
    DigitValueRoundTrip(b0 % 4 * 16 + b1 / 16);
    if |g| > 1 { DigitValueRoundTrip(b1 % 16 * 4 + b2 / 64); }
    if |g| > 2 { DigitValueRoundTrip(b2 % 64); }
    assert ((b0 / 4) * 4 + (b0 % 4 * 16 + b1 / 16) / 16) as byte == g[0];
    if |g| > 1 {
      assert ((b0 % 4 * 16 + b1 / 16) % 16 * 16 + (b1 % 16 * 4 + b2 / 64) / 4) as byte == g[1];
    }
    if |g| > 2 {
      assert ((b1 % 16 * 4 + b2 / 64) % 4 * 64 + b2 % 64) as byte == g[2];
      assert [g[0], g[1], g[2]] == g;
    } else if |g| == 2 {
      assert [g[0], g[1]] == g;
    } else {
      assert [g[0]] == g;
    }
  }

  /** Decoding the RFC 4648 section 5 (base64url) encoding gives the bytes back: distinct
      random bytes never give the same token text. */
  lemma {:induction false} DecodeEncode(b: seq<byte>)
    ensures Decode(Encode(b, true)) == Some(b)
    decreases |b|
  {
    if |b| == 0 {
    } else if |b| <= 3 {
      var s := Encode(b, true);
      assert s[..4] == s && s[4..] == [];
      QuadRoundTrip(b);
      assert b + [] == b;
    } else {
      var q := Quad(b[..3], true);
      var rest := Encode(b[3..], true);
      var s := q + rest;
      assert Encode(b, true) == s;
      EncodeLength(b[3..], true);
      assert s[..4] == q && s[4..] == rest;
      QuadRoundTrip(b[..3]);
      DecodeEncode(b[3..]);
      assert b[..3] + b[3..] == b;
    }
  }

  lemma EncodeInjective(a: seq<byte>, b: seq<byte>)
    requires Encode(a, true) == Encode(b, true)
    ensures a == b
  {
    DecodeEncode(a);
    DecodeEncode(b);
  }

  lemma {:induction false} EncodeLength(b: seq<byte>, urlSafe: bool)
    ensures |Encode(b, urlSafe)| == 4 * ((|b| + 2) / 3)
    decreases |b|
  {
    if |b| > 3 {
      EncodeLength(b[3..], urlSafe);
    }
  }

  /** Each character of the RFC 4648 section 5 (base64url) encoding is the RFC 4648 section 4 (base64) character
      with '+' read as '-' and '/' read as '_'. */
  lemma {:induction false} EncodeUrlSafeIsSubstituted(b: seq<byte>)
    ensures |Encode(b, true)| == |Encode(b, false)|
    ensures forall i :: 0 <= i < |Encode(b, true)| ==>
              Encode(b, true)[i] == Substituted(Encode(b, false)[i])
    decreases |b|
  {
    if |b| == 0 {
    } else if |b| <= 3 {
      QuadSubstituted(b);
    } else {
      QuadSubstituted(b[..3]);
      EncodeUrlSafeIsSubstituted(b[3..]);
    }
  }

  function Substituted(c: char): char
  {
    if c == '+' then '-' else if c == '/' then '_' else c
  }

  lemma QuadSubstituted(g: seq<byte>)
    requires 1 <= |g| <= 3
    ensures forall i :: 0 <= i < 4 ==> Quad(g, true)[i] == Substituted(Quad(g, false)[i])
  {
  }

  /** The two substitutions the service applies turn standard base64 into
      URL-safe base64. */
  lemma RefreshTokenTextIsUrlSafeBase64(random: seq<byte>)
    ensures RefreshTokenText(random) == Encode(random, true)
  {
    EncodeUrlSafeIsSubstituted(random);
    var s := Encode(random, false);
    var t := RefreshTokenText(random);
    assert |t| == |Encode(random, true)|;
    forall i | 0 <= i < |t| ensures t[i] == Encode(random, true)[i] {
    }
  }

  /** `s` ends in exactly `p` characters '=' and has no other '='. */
  predicate PaddedEnd(s: string, p: nat)
  {
    forall i :: 0 <= i < |s| ==> (s[i] == '=' <==> i >= |s| - p)
  }

  /** The padding of one group sits at its end and nothing else is '='. */
  lemma QuadShape(g: seq<byte>, urlSafe: bool)
    requires 1 <= |g| <= 3
    ensures PaddedEnd(Quad(g, urlSafe), Padding(|g|))
    ensures forall i :: 0 <= i < 4 && Quad(g, true)[i] != '=' ==> IsUrlSafeDigit(Quad(g, true)[i])
  {
  }

  /** Where the encoding has digits and where it has padding. */
  lemma {:induction false} EncodeShape(b: seq<byte>, urlSafe: bool)
    ensures PaddedEnd(Encode(b, urlSafe), Padding(|b|))
    decreases |b|
  {
    if |b| == 0 {
    } else if |b| <= 3 {
      QuadShape(b, urlSafe);
    } else {
      var q, rest := Quad(b[..3], urlSafe), Encode(b[3..], urlSafe);
      var p := Padding(|b|);
      assert p == Padding(|b[3..]|) by {
        assert |b| % 3 == |b[3..]| % 3;
      }
      assert PaddedEnd(q, 0) by {
        QuadShape(b[..3], urlSafe);
      }
      assert PaddedEnd(rest, p) by {
        EncodeShape(b[3..], urlSafe);
      }
      EncodeNonEmpty(b[3..], urlSafe);
      PaddedConcat(q, rest, p);
      EncodeSplit(b, urlSafe);
    }
  }

  lemma EncodeSplit(b: seq<byte>, urlSafe: bool)
    requires |b| > 3
    ensures Encode(b, urlSafe) == Quad(b[..3], urlSafe) + Encode(b[3..], urlSafe)
  {
  }

  lemma PaddedConcat(q: string, rest: string, p: nat)
    requires |q| == 4 && |rest| >= 4 && p <= 4
    requires PaddedEnd(q, 0)
    requires PaddedEnd(rest, p)
    ensures PaddedEnd(q + rest, p)
  {
    forall i | 0 <= i < |q + rest|
      ensures (q + rest)[i] == '=' <==> i >= |q + rest| - p
    {
      if i >= 4 { assert (q + rest)[i] == rest[i - 4]; }
    }
  }

  lemma EncodeNonEmpty(b: seq<byte>, urlSafe: bool)
    requires |b| > 0
    ensures |Encode(b, urlSafe)| >= 4
  {
  }

  /** Every character of the RFC 4648 section 5 (base64url) encoding is a digit of its
      alphabet or '='. */
  lemma {:induction false} EncodeUrlSafeDigits(b: seq<byte>)
    ensures forall i :: 0 <= i < |Encode(b, true)| && Encode(b, true)[i] != '=' ==>
              IsUrlSafeDigit(Encode(b, true)[i])
    decreases |b|
  {
    if |b| == 0 {
    } else if |b| <= 3 {
      QuadShape(b, true);
    } else {
      QuadShape(b[..3], true);
      EncodeUrlSafeDigits(b[3..]);
    }
  }

  /** The text of every refresh token: 88 characters of the RFC 4648 section 5 (base64url)
      alphabet, ending in the two '=' of padding that 64 bytes need, with
      no '+' and no '/', and decodable back to the random bytes. */
  lemma RefreshTokenShape(random: seq<byte>)
    requires |random| == TokenByteCount
    ensures var t := RefreshTokenText(random);
      && |t| == TokenLength
      && t[TokenLength - 2] == '=' && t[TokenLength - 1] == '='
      && (forall i :: 0 <= i < TokenLength - 2 ==> IsUrlSafeDigit(t[i]))
      && '+' !in t && '/' !in t
      && Decode(t) == Some(random)
  {
    RefreshTokenTextIsUrlSafeBase64(random);
    EncodeLength(random, true);
    EncodeShape(random, true);
    EncodeUrlSafeDigits(random);
    DecodeEncode(random);
    var t := RefreshTokenText(random);
    assert Padding(|random|) == 2;
    forall i | 0 <= i < |t| ensures t[i] != '+' && t[i] != '/' {
      if t[i] != '=' { assert IsUrlSafeDigit(t[i]); }
    }
  }
}
