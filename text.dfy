/** The Python text conversions the reader relies on: `str()` of an int and of
    None, the two-digit lower-case hex of `'{:02x}'.format`, and `str()` of a
    bytes value. Each comes with the parser that inverts it. */
module Text {
  import opened Bytes

  predicate IsDigit(c: char) { '0' <= c <= '9' }

  predicate IsHexDigit(c: char) { '0' <= c <= '9' || 'a' <= c <= 'f' }

  function DigitChar(d: nat): (c: char)
    requires d < 10
    ensures IsDigit(c)
  {
    (48 + d) as char
  }

  function DigitValue(c: char): nat
    requires IsDigit(c)
  {
    c as int - 48
  }

  /** `str(n)` for an int n >= 0: decimal digits without leading zeros */
  function NatToString(n: nat): (s: string)
    ensures |s| >= 1
    ensures forall i :: 0 <= i < |s| ==> IsDigit(s[i])
    ensures |s| > 1 ==> s[0] != '0'
    decreases n
  {
    if n < 10 then [DigitChar(n)] else NatToString(n / 10) + [DigitChar(n % 10)]
  }

  /** The value of a string of decimal digits */
  function ParseDecimal(s: string): nat
    requires forall i :: 0 <= i < |s| ==> IsDigit(s[i])
  {
    if s == [] then 0 else 10 * ParseDecimal(s[..|s| - 1]) + DigitValue(s[|s| - 1])
  }

  lemma {:induction false} DecimalRoundTrip(n: nat)
    ensures ParseDecimal(NatToString(n)) == n
    decreases n
  {
    if n >= 10 {
      DecimalRoundTrip(n / 10);
      var s := NatToString(n);
      assert s[..|s| - 1] == NatToString(n / 10);
    }
  }

  lemma NatToStringInjective(a: nat, b: nat)
    ensures NatToString(a) == NatToString(b) ==> a == b
  {
    DecimalRoundTrip(a);
    DecimalRoundTrip(b);
  }

  /** `str(x)` where x is an int, or None when a decode failed */
  function OptText(o: Option<nat>): string
  {
    match o
    case None => "None"
    case Some(n) => NatToString(n)
  }

  function HexDigit(d: nat): (c: char)
    requires d < 16
    ensures IsHexDigit(c)
  {
    if d < 10 then (48 + d) as char else (87 + d) as char
  }

  function HexValue(c: char): (d: nat)
    requires IsHexDigit(c)
    ensures d < 16
  {
    if c <= '9' then c as int - 48 else c as int - 87
  }

  /** `'{:02x}'.format(b)` */
  function HexPair(b: Byte): string
  {
    [HexDigit(b / 16), HexDigit(b % 16)]
  }

  /** `''.join('{:02x}'.format(char) for char in m)` */
  function HexName(m: seq<Byte>): (s: string)
    ensures |s| == 2 * |m|
    ensures forall i :: 0 <= i < |s| ==> IsHexDigit(s[i])
  {
    if m == [] then "" else HexPair(m[0]) + HexName(m[1..])
  }

  function ParseHex(s: string): seq<Byte>
    requires |s| % 2 == 0
    requires forall i :: 0 <= i < |s| ==> IsHexDigit(s[i])
  {
    if s == [] then [] else [16 * HexValue(s[0]) + HexValue(s[1])] + ParseHex(s[2..])
  }

  lemma {:induction false} HexRoundTrip(m: seq<Byte>)
    ensures ParseHex(HexName(m)) == m
  {
    if m != [] {
      HexRoundTrip(m[1..]);
      var s := HexName(m);
      assert s[2..] == HexName(m[1..]);
    }
  }

  lemma HexNameInjective(a: seq<Byte>, b: seq<Byte>)
    ensures HexName(a) == HexName(b) ==> a == b
  {
    HexRoundTrip(a);
    HexRoundTrip(b);
  }

  /** The quote `repr` of a bytes value uses: a double quote only when the
      bytes hold a single quote and no double quote, so a double quote is
      never chosen when it would need escaping inside the literal */
  function ReprQuote(b: seq<Byte>): (q: char)
    ensures q == '\'' || q == '"'
    ensures q == '"' ==> 0x22 !in b
    ensures 0x27 in b && 0x22 !in b ==> q == '"'
    ensures 0x27 !in b || 0x22 in b ==> q == '\''
  {
    if 0x27 in b && 0x22 !in b then '"' else '\''
  }

  /** How one byte appears inside `str(b)` */
  function ReprByte(c: Byte, quote: char): string
  {
    if c == quote as int || c == 0x5C then ['\\', c as char]
    else if c == 0x09 then "\\t"
    else if c == 0x0A then "\\n"
    else if c == 0x0D then "\\r"
    else if c < 0x20 || c >= 0x7F then "\\x" + HexPair(c)
    else [c as char]
  }

  function ReprBody(b: seq<Byte>, quote: char): string
  {
    if b == [] then "" else ReprByte(b[0], quote) + ReprBody(b[1..], quote)
  }

  /** `str(b)` of a Python bytes value b, such as b'Exif\x00\x00' */
  function BytesRepr(b: seq<Byte>): string
  {
    var q := ReprQuote(b);
    "b" + [q] + ReprBody(b, q) + [q]
  }

  /** Reads the escapes of a repr body back into bytes */
  function UnreprBody(s: string): seq<Byte>
    decreases |s|
  {
    if s == [] then []
    else if s[0] == '\\' && |s| >= 2 then
      if s[1] == 't' then [0x09] + UnreprBody(s[2..])
      else if s[1] == 'n' then [0x0A] + UnreprBody(s[2..])
      else if s[1] == 'r' then [0x0D] + UnreprBody(s[2..])
      else if s[1] == 'x' && |s| >= 4 && IsHexDigit(s[2]) && IsHexDigit(s[3]) then
        [16 * HexValue(s[2]) + HexValue(s[3])] + UnreprBody(s[4..])
      else [(s[1] as int) % 256] + UnreprBody(s[2..])
    else [(s[0] as int) % 256] + UnreprBody(s[1..])
  }

  lemma UnreprByte(c: Byte, quote: char, rest: string)
    requires quote == '\'' || quote == '"'
    ensures UnreprBody(ReprByte(c, quote) + rest) == [c] + UnreprBody(rest)
  {
    var s := ReprByte(c, quote) + rest;
    if c == quote as int || c == 0x5C {
      assert s[2..] == rest;
    } else if c == 0x09 || c == 0x0A || c == 0x0D {
      assert s[2..] == rest;
    } else if c < 0x20 || c >= 0x7F {
      assert s[4..] == rest;
    } else {
      assert s[1..] == rest;
    }
  }

  /** `str(b)` loses nothing: the bytes can be read back from between the quotes */
  lemma {:induction false} BytesReprRoundTrip(b: seq<Byte>)
    ensures var s := BytesRepr(b); |s| >= 3 && s[0] == 'b' && s[1] == s[|s| - 1] == ReprQuote(b)
    ensures var s := BytesRepr(b); UnreprBody(s[2..|s| - 1]) == b
  {
    var q := ReprQuote(b);
    var s := BytesRepr(b);
    assert s[2..|s| - 1] == ReprBody(b, q);
    ReprBodyRoundTrip(b, q);
  }

  lemma {:induction false} ReprBodyRoundTrip(b: seq<Byte>, quote: char)
    requires quote == '\'' || quote == '"'
    ensures UnreprBody(ReprBody(b, quote)) == b
  {
    if b != [] {
      UnreprByte(b[0], quote, ReprBody(b[1..], quote));
      ReprBodyRoundTrip(b[1..], quote);
    }
  }
}
