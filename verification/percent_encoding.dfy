/**
 Percent-encoding as defined in section 2.1 of RFC 3986, with the behaviour of
 Python's `urllib.parse.quote(..., safe='')`: every byte outside the
 unreserved set of section 2.3 of RFC 3986 (ASCII letters, digits, `-`, `.`,
 `_`, `~`) becomes `%` followed by two UPPERCASE hex digits; nothing else is
 treated as safe, so `/`, space and `+` are escaped too.

 The decoder is the lenient one applied to URL paths (Python's
 `unquote_to_bytes`): a `%` followed by two hex digits of either case becomes
 that byte, and every other byte, including a stray `%`, passes through.
 */
module PercentEncoding {
  import opened Text

  const PERCENT: byte := '%' as int

  /** The unreserved characters of section 2.3 of RFC 3986. */
  predicate IsUnreserved(b: byte) {
    || ('A' as int <= b <= 'Z' as int)
    || ('a' as int <= b <= 'z' as int)
    || ('0' as int <= b <= '9' as int)
    || b == '-' as int
    || b == '.' as int
    || b == '_' as int
    || b == '~' as int
  }

  /** A hex digit as the encoder writes it: `0`-`9` or `A`-`F`. */
  predicate IsUpperHex(c: byte) {
    ('0' as int <= c <= '9' as int) || ('A' as int <= c <= 'F' as int)
  }

  /** A hex digit as the decoder accepts it: either case. */
  predicate IsHexDigit(c: byte) {
    IsUpperHex(c) || ('a' as int <= c <= 'f' as int)
  }

  function HexDigit(n: int): (c: byte)
    requires 0 <= n < 16
    ensures IsUpperHex(c)
  {
    if n < 10 then '0' as int + n else 'A' as int + (n - 10)
  }

  function HexValue(c: byte): (n: int)
    requires IsHexDigit(c)
    ensures 0 <= n < 16
  {
    if c <= '9' as int then c - '0' as int
    else if c <= 'F' as int then c - 'A' as int + 10
    else c - 'a' as int + 10
  }

  /** The byte written by the escape `%` `hi` `lo`. */
  function EscapedByte(hi: byte, lo: byte): byte
    requires IsHexDigit(hi) && IsHexDigit(lo)
  {
    HexValue(hi) * 16 + HexValue(lo)
  }

  /** Writing a value as a digit and reading it back are inverse. */
  lemma HexDigitValue(n: int)
    requires 0 <= n < 16
    ensures HexValue(HexDigit(n)) == n
  {
  }

  lemma HexValueDigit(c: byte)
    requires IsUpperHex(c)
    ensures HexDigit(HexValue(c)) == c
  {
  }

  /** The encoding of a single byte. */
  function Escape(b: byte): (r: Bytes)
    ensures IsUnreserved(b) ==> r == [b]
    ensures !IsUnreserved(b) ==>
              && |r| == 3 && r[0] == PERCENT && IsUpperHex(r[1]) && IsUpperHex(r[2])
              && EscapedByte(r[1], r[2]) == b
  {
    if IsUnreserved(b) then [b]
    else
      HexDigitValue(b / 16);
      HexDigitValue(b % 16);
      [PERCENT, HexDigit(b / 16), HexDigit(b % 16)]
  }

  /**
   The shape of every encoder output: a run of unreserved bytes and of
   `%HH` triples with uppercase hex, each triple standing for a byte that
   is NOT unreserved (the encoder never escapes an unreserved byte).
   */
  predicate Canonical(s: Bytes)
    decreases |s|
  {
    if s == [] then true
    else if IsUnreserved(s[0]) then Canonical(s[1..])
    else
      && |s| >= 3
      && s[0] == PERCENT
      && IsUpperHex(s[1])
      && IsUpperHex(s[2])
      && !IsUnreserved(EscapedByte(s[1], s[2]))
      && Canonical(s[3..])
  }

  /** A canonical string extended by the encoding of one more byte in front. */
  lemma CanonicalEscapePrefix(b: byte, rest: Bytes)
    requires Canonical(rest)
    ensures Canonical(Escape(b) + rest)
  {
    var s := Escape(b) + rest;
    if IsUnreserved(b) {
      assert s[1..] == rest;
    } else {
      assert !IsUnreserved(s[0]);
      assert s[3..] == rest;
    }
  }

  /** `urllib.parse.quote(bs, safe='')`. */
  function Quote(bs: Bytes): (r: Bytes)
    ensures |bs| <= |r| <= 3 * |bs|
    ensures Canonical(r)
    decreases |bs|
  {
    if bs == [] then []
    else
      var rest := Quote(bs[1..]);
      CanonicalEscapePrefix(bs[0], rest);
      Escape(bs[0]) + rest
  }

  /** The decoding applied to a URL path segment. */
  function Unquote(s: Bytes): (r: Bytes)
    ensures |r| <= |s|
    decreases |s|
  {
    if s == [] then []
    else if |s| >= 3 && s[0] == PERCENT && IsHexDigit(s[1]) && IsHexDigit(s[2]) then
      [EscapedByte(s[1], s[2])] + Unquote(s[3..])
    else
      [s[0]] + Unquote(s[1..])
  }

  /** Encoding works byte by byte, so it distributes over concatenation. */
  lemma {:induction false} QuoteConcat(a: Bytes, b: Bytes)
    ensures Quote(a + b) == Quote(a) + Quote(b)
    decreases |a|
  {
    if a == [] {
      assert a + b == b;
    } else {
      assert (a + b)[1..] == a[1..] + b;
      QuoteConcat(a[1..], b);
    }
  }

  /** Decoding the encoding of one byte in front of anything yields that byte first. */
  lemma UnquoteEscapePrefix(b: byte, rest: Bytes)
    ensures Unquote(Escape(b) + rest) == [b] + Unquote(rest)
  {
    var s := Escape(b) + rest;
    if IsUnreserved(b) {
      assert s[1..] == rest;
    } else {
      assert s[3..] == rest;
    }
  }

  /** Round trip: decoding an encoded byte string gives back the original bytes. */
  lemma {:induction false} UnquoteQuote(bs: Bytes)
    ensures Unquote(Quote(bs)) == bs
    decreases |bs|
  {
    if bs != [] {
      UnquoteEscapePrefix(bs[0], Quote(bs[1..]));
      UnquoteQuote(bs[1..]);
    }
  }

  /** The encoder is injective: different bytes never get the same encoding. */
  lemma QuoteInjective(a: Bytes, b: Bytes)
    ensures Quote(a) == Quote(b) <==> a == b
  {
    if Quote(a) == Quote(b) {
      UnquoteQuote(a);
      UnquoteQuote(b);
    }
  }

  /** Encoding a byte string with a given first byte. */
  lemma QuoteCons(b: byte, rest: Bytes)
    ensures Quote([b] + rest) == Escape(b) + Quote(rest)
  {
    assert ([b] + rest)[1..] == rest;
  }

  /** One step of the fixpoint proof: a leading unreserved byte. */
  lemma FixpointUnreservedStep(s: Bytes)
    requires s != [] && IsUnreserved(s[0])
    requires Quote(Unquote(s[1..])) == s[1..]
    ensures Quote(Unquote(s)) == s
  {
    assert s[0] != PERCENT;
    assert Unquote(s) == [s[0]] + Unquote(s[1..]);
    QuoteCons(s[0], Unquote(s[1..]));
    assert s == [s[0]] + s[1..];
  }

  /** One step of the fixpoint proof: a leading `%HH` triple. */
  lemma FixpointEscapeStep(s: Bytes)
    requires |s| >= 3 && s[0] == PERCENT && IsUpperHex(s[1]) && IsUpperHex(s[2])
    requires !IsUnreserved(EscapedByte(s[1], s[2]))
    requires Quote(Unquote(s[3..])) == s[3..]
    ensures Quote(Unquote(s)) == s
  {
    var b := EscapedByte(s[1], s[2]);
    HexValueDigit(s[1]);
    HexValueDigit(s[2]);
    assert b / 16 == HexValue(s[1]) && b % 16 == HexValue(s[2]);
    assert Escape(b) == [s[0], s[1], s[2]];
    assert Unquote(s) == [b] + Unquote(s[3..]);
    QuoteCons(b, Unquote(s[3..]));
    assert s == [s[0], s[1], s[2]] + s[3..];
  }

  /**
   Re-encoding a decoded string gives it back exactly when it is in the
   encoder's canonical form; in particular re-encoding the decoding of an
   encoder output reproduces that output.
   */
  lemma {:induction false} CanonicalIffFixpoint(s: Bytes)
    ensures Canonical(s) <==> Quote(Unquote(s)) == s
    decreases |s|
  {
    if s != [] && Canonical(s) {
      if IsUnreserved(s[0]) {
        CanonicalIffFixpoint(s[1..]);
        FixpointUnreservedStep(s);
      } else {
        CanonicalIffFixpoint(s[3..]);
        FixpointEscapeStep(s);
      }
    }
    // Conversely, every output of Quote is canonical.
  }

  /** Re-encoding after decoding is the identity on encoder outputs. */
  lemma QuoteUnquoteQuote(bs: Bytes)
    ensures Quote(Unquote(Quote(bs))) == Quote(bs)
  {
    UnquoteQuote(bs);
  }

  /**
   Every byte of a canonical string is unreserved, `%` or an uppercase hex
   digit; in particular no `/`, space or `+` survives encoding.
   */
  lemma {:induction false} CanonicalAlphabet(s: Bytes)
    requires Canonical(s)
    ensures forall i :: 0 <= i < |s| ==> IsUnreserved(s[i]) || s[i] == PERCENT || IsUpperHex(s[i])
    ensures forall i :: 0 <= i < |s| ==> s[i] != '/' as int && s[i] != ' ' as int && s[i] != '+' as int
    decreases |s|
  {
    if s != [] {
      var k := if IsUnreserved(s[0]) then 1 else 3;
      CanonicalAlphabet(s[k..]);
      forall i | k <= i < |s|
        ensures IsUnreserved(s[i]) || s[i] == PERCENT || IsUpperHex(s[i])
      {
        assert s[i] == s[k..][i - k];
      }
    }
  }

  lemma QuoteAlphabet(bs: Bytes)
    ensures forall i :: 0 <= i < |Quote(bs)| ==>
              IsUnreserved(Quote(bs)[i]) || Quote(bs)[i] == PERCENT || IsUpperHex(Quote(bs)[i])
    ensures forall i :: 0 <= i < |Quote(bs)| ==>
              Quote(bs)[i] != '/' as int && Quote(bs)[i] != ' ' as int && Quote(bs)[i] != '+' as int
  {
    CanonicalAlphabet(Quote(bs));
  }

  /** The encoder leaves a byte string alone exactly when all its bytes are unreserved. */
  lemma {:induction false} QuoteIdentityIffUnreserved(bs: Bytes)
    ensures Quote(bs) == bs <==> forall i :: 0 <= i < |bs| ==> IsUnreserved(bs[i])
    decreases |bs|
  {
    if bs != [] {
      QuoteIdentityIffUnreserved(bs[1..]);
      if IsUnreserved(bs[0]) {
        assert bs == [bs[0]] + bs[1..];
        assert forall i :: 1 <= i < |bs| ==> bs[i] == bs[1..][i - 1];
        if Quote(bs) == bs {
          assert Quote(bs[1..]) == bs[1..];
        }
      } else {
        assert |Quote(bs)| >= 3 + |bs[1..]| > |bs|;
      }
    }
  }

  /**
   The library routine as it is written: a fast path that returns the input
   when every byte is safe, otherwise a byte-by-byte escape loop.
   */
  method QuoteFromBytes(bs: Bytes) returns (out: Bytes)
    ensures out == Quote(bs)
  {
    if forall i :: 0 <= i < |bs| ==> IsUnreserved(bs[i]) {
      QuoteIdentityIffUnreserved(bs);
      return bs;
    }
    out := [];
    var i := 0;
    while i < |bs|
      invariant 0 <= i <= |bs|
      invariant out == Quote(bs[..i])
    {
      assert bs[..i + 1] == bs[..i] + [bs[i]];
      QuoteConcat(bs[..i], [bs[i]]);
      out := out + Escape(bs[i]);
      i := i + 1;
    }
    assert bs[..i] == bs;
  }
}
