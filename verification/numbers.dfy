/** Decimal text: `numtoa_str(10, ..)` rendering, `str::parse::<u8>()`, and
    IPv4 addresses in dotted-quad form (`Ipv4Addr::octets`, `Ipv4Addr::from_str`). */
module Numbers {
  import opened Common
  import Utf8
  import Str

  predicate IsDigit(c: char) {
    '0' <= c <= '9'
  }

  predicate AllDigits(s: string) {
    forall i | 0 <= i < |s| :: IsDigit(s[i])
  }

  lemma DigitsAreAscii(s: string)
    requires AllDigits(s)
    ensures Utf8.AllAscii(s) && '.' !in s && ',' !in s && ':' !in s && '\n' !in s
  {
    assert forall i | 0 <= i < |s| :: s[i] != '.' && s[i] != ',' && s[i] != ':' && s[i] != '\n';
  }

  /** Rendered numbers are ASCII, one byte per digit. */
  lemma DecimalBytes(n: nat)
    ensures Utf8.AllAscii(Decimal(n)) && Utf8.Len(Decimal(n)) == |Decimal(n)|
  {
    DigitsAreAscii(Decimal(n));
    Utf8.EncodeAllAscii(Decimal(n));
  }

  function DigitValue(c: char): (d: nat)
    requires IsDigit(c)
    ensures d < 10
  {
    c as int - '0' as int
  }

  function DigitChar(d: nat): (c: char)
    requires d < 10
    ensures IsDigit(c) && DigitValue(c) == d
  {
    ('0' as int + d) as char
  }

  /** `n.numtoa_str(10, ..)`: decimal digits, no sign, no leading zero. */
  function Decimal(n: nat): (r: string)
    ensures 1 <= |r| && AllDigits(r)
    ensures r[0] == '0' ==> n == 0
    decreases n
  {
    if n < 10 then [DigitChar(n)] else Decimal(n / 10) + [DigitChar(n % 10)]
  }

  /** The value of a string of decimal digits, most significant first. */
  function DigitsValue(s: string): nat
    requires AllDigits(s)
  {
    if s == [] then 0 else DigitsValue(s[..|s| - 1]) * 10 + DigitValue(s[|s| - 1])
  }

  /** Reading back a rendered number gives the number. */
  lemma {:induction false} DigitsValueDecimal(n: nat)
    ensures DigitsValue(Decimal(n)) == n
    decreases n
  {
    if n >= 10 {
      var d := Decimal(n);
      assert d[..|d| - 1] == Decimal(n / 10);
      DigitsValueDecimal(n / 10);
    }
  }

  /** 10^k, the bound on numbers of k digits. */
  function Pow10(k: nat): (r: nat)
    ensures r >= 1
  {
    if k == 0 then 1 else 10 * Pow10(k - 1)
  }

  /** A number below 10^k needs at most k digits, and one of at least
      10^(k-1) needs at least k. */
  lemma {:induction false} DecimalLength(n: nat, k: nat)
    requires 1 <= k
    ensures n < Pow10(k) ==> |Decimal(n)| <= k
    ensures Pow10(k - 1) <= n ==> k <= |Decimal(n)|
    decreases k
  {
    if k > 1 {
      DecimalLength(n / 10, k - 1);
      if n >= 10 {
        assert n < Pow10(k) ==> n / 10 < Pow10(k - 1);
      }
    }
  }

  /** The widths that bound the rendered `u8` and `u16` values. */
  lemma DecimalWidths(n: nat)
    ensures n < 0x100 ==> |Decimal(n)| <= 3
    ensures n < 0x1_0000 ==> |Decimal(n)| <= 5
    ensures n == 255 ==> |Decimal(n)| == 3
    ensures n == 65535 ==> |Decimal(n)| == 5
  {
    DecimalLength(n, 3);
    DecimalLength(n, 5);
  }

  /** `s.parse::<u8>()`: an optional '+', then at least one digit, value
      below 256 (leading zeros allowed). */
  function ParseU8(s: string): (r: Option<byte>)
    ensures r.Some? ==> var t := if s != [] && s[0] == '+' then s[1..] else s;
                        t != [] && AllDigits(t) && DigitsValue(t) == r.value
  {
    var t := if s != [] && s[0] == '+' then s[1..] else s;
    if t != [] && AllDigits(t) && DigitsValue(t) < 0x100 then Some(DigitsValue(t)) else None
  }

  /** An IPv4 address (`no_std_net::Ipv4Addr`). */
  datatype Ipv4Addr = Ipv4Addr(a: byte, b: byte, c: byte, d: byte) {
    /** `Ipv4Addr::octets`. */
    function Octets(): (r: seq<byte>)
      ensures |r| == 4
    {
      [a, b, c, d]
    }
  }

  const Unspecified := Ipv4Addr(0, 0, 0, 0)

  /** The dotted-quad text of an address, octets rendered by `Decimal`. */
  function DottedQuad(ip: Ipv4Addr): string {
    Decimal(ip.a) + "." + Decimal(ip.b) + "." + Decimal(ip.c) + "." + Decimal(ip.d)
  }

  /** One dotted-quad field: one to three digits, value at most 255. */
  function ParseOctet(s: string): (r: Option<byte>)
    ensures r.Some? ==> 1 <= |s| <= 3 && AllDigits(s) && DigitsValue(s) == r.value
  {
    if 1 <= |s| <= 3 && AllDigits(s) && DigitsValue(s) < 0x100 then Some(DigitsValue(s)) else None
  }

  /** `s.parse::<Ipv4Addr>()`: exactly four '.'-separated fields. */
  function ParseIpv4(s: string): (r: Option<Ipv4Addr>)
    ensures r.Some? ==> var parts := Str.Split(s, '.');
                        |parts| == 4 && forall i | 0 <= i < 4 :: ParseOctet(parts[i]) == Some(r.value.Octets()[i])
  {
    var parts := Str.Split(s, '.');
    if |parts| != 4 then None
    else
      match (ParseOctet(parts[0]), ParseOctet(parts[1]), ParseOctet(parts[2]), ParseOctet(parts[3]))
      case (Some(a), Some(b), Some(c), Some(d)) => Some(Ipv4Addr(a, b, c, d))
      case _ => None
  }

  lemma ParseOctetDecimal(n: byte)
    ensures ParseOctet(Decimal(n)) == Some(n)
  {
    DecimalWidths(n);
    DigitsValueDecimal(n);
  }

  lemma SplitFour(a: string, b: string, c: string, d: string)
    requires '.' !in a && '.' !in b && '.' !in c && '.' !in d
    ensures Str.Split(a + "." + b + "." + c + "." + d, '.') == [a, b, c, d]
  {
    Regroup(a, b, c, d);
    var r3 := c + ['.'] + d;
    SplitTwo(c, d);
    var r2 := b + ['.'] + r3;
    Str.SplitCons(b, '.', r3);
    Str.SplitCons(a, '.', r2);
  }

  lemma SplitTwo(c: string, d: string)
    requires '.' !in c && '.' !in d
    ensures Str.Split(c + ['.'] + d, '.') == [c, d]
  {
    Str.SplitCons(c, '.', d);
  }

  /** Regrouping step for the solver. */
  lemma Regroup(a: string, b: string, c: string, d: string)
    ensures a + "." + b + "." + c + "." + d == a + ['.'] + (b + ['.'] + (c + ['.'] + d))
  {
  }

  lemma SplitDottedQuad(ip: Ipv4Addr)
    ensures Str.Split(DottedQuad(ip), '.') == [Decimal(ip.a), Decimal(ip.b), Decimal(ip.c), Decimal(ip.d)]
  {
    DigitsAreAscii(Decimal(ip.a));
    DigitsAreAscii(Decimal(ip.b));
    DigitsAreAscii(Decimal(ip.c));
    DigitsAreAscii(Decimal(ip.d));
    SplitFour(Decimal(ip.a), Decimal(ip.b), Decimal(ip.c), Decimal(ip.d));
  }

  /** Parsing the dotted-quad text of an address gives the address back. */
  lemma ParseIpv4DottedQuad(ip: Ipv4Addr)
    ensures ParseIpv4(DottedQuad(ip)) == Some(ip)
  {
    SplitDottedQuad(ip);
    ParseOctetDecimal(ip.a);
    ParseOctetDecimal(ip.b);
    ParseOctetDecimal(ip.c);
    ParseOctetDecimal(ip.d);
  }

  lemma UnspecifiedText()
    ensures DottedQuad(Unspecified) == "0.0.0.0"
  {
  }
}
