/**
 * Python's `urllib.parse.quote` (with its default `safe="/"`) and `unquote`,
 * on the UTF-8 bytes of the text: percent-encoding as in section 2.1 of
 * RFC 3986, leaving the unreserved characters of section 2.3 and `/` as they
 * are.
 */
module PercentEncoding {
  import opened Bytes

  /** ALPHA / DIGIT / "-" / "." / "_" / "~" (section 2.3 of RFC 3986). */
  predicate IsUnreserved(b: byte)
  {
    || 0x41 <= b <= 0x5A   // A-Z
    || 0x61 <= b <= 0x7A   // a-z
    || 0x30 <= b <= 0x39   // 0-9
    || b == 0x2D || b == 0x2E || b == 0x5F || b == 0x7E
  }

  /** The bytes `quote` leaves as they are: the unreserved ones and `/`. */
  predicate IsSafe(b: byte)
  {
    IsUnreserved(b) || b == Slash
  }

  /** A hexadecimal digit in either case, as `unquote` accepts it. */
  predicate IsHexDigit(b: byte)
  {
    (0x30 <= b <= 0x39) || (0x41 <= b <= 0x46) || (0x61 <= b <= 0x66)
  }

  function HexValue(b: byte): (v: int)
    requires IsHexDigit(b)
    ensures 0 <= v < 16
  {
    if b <= 0x39 then (b - 0x30) as int
    else if b <= 0x46 then (b - 0x41) as int + 10
    else (b - 0x61) as int + 10
  }

  /** The upper-case digit `quote` writes for a nibble. */
  function UpperHexDigit(n: int): (d: byte)
    requires 0 <= n < 16
    ensures IsHexDigit(d) && IsUnreserved(d) && HexValue(d) == n
  {
    if n < 10 then (0x30 + n) as byte else (0x41 + n - 10) as byte
  }

  /** One byte as `quote` writes it: itself, or `%` and two hex digits. */
  function QuoteByte(b: byte): (r: seq<byte>)
  {
    if IsSafe(b) then [b]
    else [PercentSign, UpperHexDigit(b as int / 16), UpperHexDigit(b as int % 16)]
  }

  /** `quote(s)`: every byte outside the safe set becomes `%XY`. The output
      holds only safe bytes and `%`, and contains a `/` iff `s` does. */
  function Quote(s: seq<byte>): (r: seq<byte>)
    ensures forall i :: 0 <= i < |r| ==> IsSafe(r[i]) || r[i] == PercentSign
    ensures Slash in r <==> Slash in s
    ensures |s| <= |r|
  {
    if s == [] then [] else QuoteByte(s[0]) + Quote(s[1..])
  }

  /** `quote` works byte by byte, so it distributes over concatenation. */
  lemma {:induction false} QuoteAppend(a: seq<byte>, b: seq<byte>)
    ensures Quote(a + b) == Quote(a) + Quote(b)
  {
    if a == [] {
      assert a + b == b;
    } else {
      assert (a + b)[1..] == a[1..] + b;
      QuoteAppend(a[1..], b);
    }
  }

  /** Each `/` of the input stays in place: quoting `a/b` quotes `a` and `b`
      and keeps the `/` between them. */
  lemma QuoteAroundSlash(a: seq<byte>, b: seq<byte>)
    ensures Quote(a + [Slash] + b) == Quote(a) + [Slash] + Quote(b)
  {
    QuoteAppend(a + [Slash], b);
    QuoteAppend(a, [Slash]);
    assert Quote([Slash]) == [Slash] by {
      assert [Slash][1..] == [];
    }
  }

  /** `unquote(s)`: reading left to right, `%` followed by two hex digits
      (either case) becomes that byte; any other byte, a lone `%` included,
      is kept. Text without `%` is returned as it is. */
  function Unquote(s: seq<byte>): (r: seq<byte>)
    ensures |r| <= |s|
    ensures PercentSign !in s ==> r == s
  {
    if s == [] then []
    else if s[0] == PercentSign && |s| >= 3 && IsHexDigit(s[1]) && IsHexDigit(s[2]) then
      [(HexValue(s[1]) * 16 + HexValue(s[2])) as byte] + Unquote(s[3..])
    else
      [s[0]] + Unquote(s[1..])
  }

  /** `unquote` reads back one quoted byte, whatever follows it. */
  lemma UnquoteQuoteByte(b: byte, rest: seq<byte>)
    ensures Unquote(QuoteByte(b) + rest) == [b] + Unquote(rest)
  {
  }

  /** One escape `%XY` followed by plain text decodes to its byte and that
      text. */
  lemma UnquoteEscape(hi: byte, lo: byte, rest: seq<byte>)
    requires IsHexDigit(hi) && IsHexDigit(lo) && PercentSign !in rest
    ensures Unquote([PercentSign, hi, lo] + rest)
         == [(HexValue(hi) * 16 + HexValue(lo)) as byte] + rest
  {
  }

  /** Round trip: `unquote` recovers every byte string `quote` encoded. */
  lemma {:induction false} UnquoteQuote(s: seq<byte>)
    ensures Unquote(Quote(s)) == s
  {
    if s != [] {
      UnquoteQuote(s[1..]);
      UnquoteQuoteByte(s[0], Quote(s[1..]));
    }
  }

  /** `quote` never maps two byte strings to the same text. */
  lemma QuoteInjective(s: seq<byte>, t: seq<byte>)
    requires Quote(s) == Quote(t)
    ensures s == t
  {
    UnquoteQuote(s);
    UnquoteQuote(t);
  }

  /** `unquote` works piecewise across a byte that cannot be a hex digit (a
      `/` for instance): no escape reaches over it. */
  lemma {:induction false} UnquoteAppend(a: seq<byte>, b: seq<byte>)
    requires b != [] && !IsHexDigit(b[0])
    ensures Unquote(a + b) == Unquote(a) + Unquote(b)
  {
    if a != [] {
      var s := a + b;
      if |a| >= 3 {
        assert s[0] == a[0] && s[1] == a[1] && s[2] == a[2];
      } else if |s| >= 3 {
        assert s[|a|] == b[0];
      }
      if s[0] == PercentSign && |s| >= 3 && IsHexDigit(s[1]) && IsHexDigit(s[2]) {
        assert s[3..] == a[3..] + b;
        UnquoteAppend(a[3..], b);
      } else {
        assert s[1..] == a[1..] + b;
        UnquoteAppend(a[1..], b);
      }
    } else {
      assert a + b == b;
    }
  }
}
