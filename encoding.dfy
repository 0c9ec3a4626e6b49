/** The text encodings the server's routes are built from: `urllib.parse.quote`
    (percent-encoding of UTF-8 bytes with `/` kept) for file names and passwords,
    and the decimal form of page numbers written by `str.format` and read back by `int()`. */
module Encoding {
  import opened Wrappers

  /** Characters `quote` leaves alone: ASCII letters and digits, `_ . - ~`, and the
      default extra safe character `/`. */
  predicate SafeChar(c: char) {
    ('a' <= c <= 'z') || ('A' <= c <= 'Z') || ('0' <= c <= '9')
    || c == '_' || c == '.' || c == '-' || c == '~' || c == '/'
  }

  /** Upper-case hexadecimal digits, as `quote` writes them. */
  predicate UpperHexDigit(c: char) {
    ('0' <= c <= '9') || ('A' <= c <= 'F')
  }

  /** Characters that can appear in the output of `quote`. */
  predicate QuotedChar(c: char) {
    SafeChar(c) || c == '%' || UpperHexDigit(c)
  }

  function HexDigit(d: nat): (c: char)
    requires d < 16
    ensures UpperHexDigit(c)
  {
    if d < 10 then '0' + (d as char) else 'A' + ((d - 10) as char)
  }

  /** The UTF-8 encoding of one Unicode scalar value. */
  function Utf8(c: char): (bytes: seq<nat>)
    ensures 1 <= |bytes| <= 4
    ensures forall k :: 0 <= k < |bytes| ==> bytes[k] < 256
  {
    var v := c as int;
    if v < 0x80 then [v]
    else if v < 0x800 then [0xC0 + v / 64, 0x80 + v % 64]
    else if v < 0x10000 then [0xE0 + v / 4096, 0x80 + (v / 64) % 64, 0x80 + v % 64]
    else [0xF0 + v / 262144, 0x80 + (v / 4096) % 64, 0x80 + (v / 64) % 64, 0x80 + v % 64]
  }

  /** `%XX` for each byte. */
  function PercentBytes(bytes: seq<nat>): (r: string)
    requires forall k :: 0 <= k < |bytes| ==> bytes[k] < 256
    ensures |r| == 3 * |bytes|
    ensures forall k :: 0 <= k < |r| ==> r[k] == '%' || UpperHexDigit(r[k])
  {
    if bytes == [] then []
    else ['%', HexDigit(bytes[0] / 16), HexDigit(bytes[0] % 16)] + PercentBytes(bytes[1..])
  }

  /** `quote(s)`: each safe character kept, every other one written as the `%XX`
      escapes of its UTF-8 bytes. */
  function Quote(s: string): string
  {
    if s == [] then []
    else
      (if SafeChar(s[0]) then [s[0]] else PercentBytes(Utf8(s[0]))) + Quote(s[1..])
  }

  /** Text made only of safe characters is quoted as itself. */
  lemma {:induction false} QuoteOfSafeText(s: string)
    requires forall k :: 0 <= k < |s| ==> SafeChar(s[k])
    ensures Quote(s) == s
  {
    if s != [] {
      QuoteOfSafeText(s[1..]);
    }
  }

  /** Quoted text holds only safe characters, `%` and hexadecimal digits: no quote mark,
      `&`, `<`, `>`, `?`, `=` or space can come out of it. */
  lemma {:induction false} QuoteOutputIsUrlSafe(s: string)
    ensures forall k :: 0 <= k < |Quote(s)| ==> QuotedChar(Quote(s)[k])
  {
    if s != [] {
      QuoteOutputIsUrlSafe(s[1..]);
      var head := if SafeChar(s[0]) then [s[0]] else PercentBytes(Utf8(s[0]));
      assert Quote(s) == head + Quote(s[1..]);
      forall k | 0 <= k < |Quote(s)| ensures QuotedChar(Quote(s)[k]) {
        if k >= |head| {
          assert Quote(s)[k] == Quote(s[1..])[k - |head|];
        }
      }
    }
  }

  predicate DecimalDigit(c: char) {
    '0' <= c <= '9'
  }

  /** The decimal digits of a natural number, most significant first, without leading zeros. */
  function NatDigits(n: nat): (r: string)
    ensures |r| >= 1 && AllDigits(r)
  {
    if n < 10 then ['0' + (n as char)] else NatDigits(n / 10) + ['0' + ((n % 10) as char)]
  }

  /** `str(n)` / `'{}'.format(n)` for an integer. */
  function IntToString(n: int): string
  {
    if n < 0 then "-" + NatDigits(-n) else NatDigits(n)
  }

  predicate AllDigits(s: string) {
    forall k :: 0 <= k < |s| ==> DecimalDigit(s[k])
  }

  /** The number a run of decimal digits denotes. */
  function DigitsValue(s: string): nat
    requires AllDigits(s)
  {
    if s == [] then 0
    else DigitsValue(s[..|s| - 1]) * 10 + ((s[|s| - 1] as int) - ('0' as int))
  }

  /** `int(s)` for an optional sign followed by ASCII digits; `None` where Python raises. */
  function ParseInt(s: string): Option<int>
  {
    var sign := if |s| > 0 && (s[0] == '-' || s[0] == '+') then 1 else 0;
    var digits := s[sign..];
    if |digits| == 0 || !AllDigits(digits) then None
    else
      var v: int := DigitsValue(digits);
      Some(if sign == 1 && s[0] == '-' then -v else v)
  }

  lemma {:induction false} DigitsValueOfNatDigits(n: nat)
    ensures DigitsValue(NatDigits(n)) == n
  {
    if n >= 10 {
      DigitsValueOfNatDigits(n / 10);
      var r := NatDigits(n);
      assert r[..|r| - 1] == NatDigits(n / 10);
    }
  }

  /** A page number written into a route is read back by `int()` as the same number. */
  lemma IntToStringRoundTrip(n: int)
    ensures ParseInt(IntToString(n)) == Some(n)
  {
    if n < 0 {
      DigitsValueOfNatDigits(-n);
      assert IntToString(n)[1..] == NatDigits(-n);
    } else {
      DigitsValueOfNatDigits(n);
      assert IntToString(n)[0..] == NatDigits(n);
    }
  }
}
