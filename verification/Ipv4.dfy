/** Decimal numbers, dotted IPv4 addresses and the `ip:port` keys built from them. */
module Ipv4 {
  import opened Text

  // ------------------------------------------------------------------ decimals

  predicate IsDigit(c: char) {
    '0' <= c <= '9'
  }

  predicate AllDigits(s: string) {
    forall k :: 0 <= k < |s| ==> IsDigit(s[k])
  }

  /** What `%d` prints for a non-negative number. */
  function Decimal(n: nat): (r: string)
    ensures Canonical(r)
  {
    if n < 10 then [('0' as int + n) as char] else Decimal(n / 10) + [('0' as int + n % 10) as char]
  }

  /** Digits with no leading zero. */
  predicate Canonical(s: string) {
    s != "" && AllDigits(s) && (|s| == 1 || s[0] != '0')
  }

  /** The ten digits, most significant first. */
  lemma DecimalDigits(n: nat)
    ensures n < 10 ==> Decimal(n) == [DIGITS[n]]
    ensures n >= 10 ==> Decimal(n) == Decimal(n / 10) + [DIGITS[n % 10]]
  {
    DigitInOrder(n % 10);
  }

  lemma DigitInOrder(d: nat)
    requires d < 10
    ensures DIGITS[d] == ('0' as int + d) as char
  {
  }

  function Value(s: string): nat
    requires AllDigits(s)
  {
    if s == "" then 0 else 10 * Value(s[..|s| - 1]) + (s[|s| - 1] as int - '0' as int)
  }

  lemma {:induction false} ValueOfDecimal(n: nat)
    ensures Value(Decimal(n)) == n
  {
    if n >= 10 {
      ValueOfDecimal(n / 10);
      assert Decimal(n)[..|Decimal(n)| - 1] == Decimal(n / 10);
    }
  }

  lemma {:induction false} DecimalOfValue(s: string)
    requires Canonical(s)
    ensures Decimal(Value(s)) == s
    ensures |s| > 1 ==> Value(s) >= 10
  {
    var front, d := s[..|s| - 1], s[|s| - 1] as int - '0' as int;
    if |s| == 1 {
      assert front == "";
    } else {
      DecimalOfValue(front);
      if |front| == 1 {
        assert front[..0] == "" && Value(front) == front[0] as int - '0' as int;
      }
      assert Value(s) == 10 * Value(front) + d && Value(s) / 10 == Value(front);
    }
  }

  // ----------------------------------------------------------------- addresses

  type octet = x: nat | x < 256

  datatype Addr = Addr(a: octet, b: octet, c: octet, d: octet)

  function Octets(x: Addr): seq<string> {
    [Decimal(x.a), Decimal(x.b), Decimal(x.c), Decimal(x.d)]
  }

  function Format(x: Addr): string {
    Join(Octets(x), '.')
  }

  predicate IsOctet(s: string) {
    Canonical(s) && Value(s) < 256
  }

  /** The addresses for which `netip.ParseAddr` succeeds with `Is4`: exactly four
      decimal octets without leading zeros. */
  function ParseIPv4(s: string): Option<Addr> {
    var p := Split(s, '.');
    if |p| == 4 && IsOctet(p[0]) && IsOctet(p[1]) && IsOctet(p[2]) && IsOctet(p[3]) then
      Some(Addr(Value(p[0]), Value(p[1]), Value(p[2]), Value(p[3])))
    else None
  }

  predicate IsLoopback(x: Addr) {
    x.a == 127
  }

  lemma ParseOfFormat(x: Addr)
    ensures ParseIPv4(Format(x)) == Some(x)
  {
    SplitOfJoin(Octets(x), '.');
    ValueOfDecimal(x.a);
    ValueOfDecimal(x.b);
    ValueOfDecimal(x.c);
    ValueOfDecimal(x.d);
  }

  /** Accepted text is the one canonical spelling of its address. */
  lemma FormatOfParse(s: string)
    requires ParseIPv4(s).Some?
    ensures Format(ParseIPv4(s).value) == s
  {
    var p := Split(s, '.');
    forall k | 0 <= k < 4 ensures Decimal(Value(p[k])) == p[k] {
      DecimalOfValue(p[k]);
    }
    assert Octets(ParseIPv4(s).value) == p;
    JoinOfSplit(s, '.');
  }

  lemma FormatExpanded(x: Addr)
    ensures Format(x) == Decimal(x.a) + "." + (Decimal(x.b) + "." + (Decimal(x.c) + "." + Decimal(x.d)))
  {
    var o := Octets(x);
    assert Join(o[1..], '.') == o[1] + "." + Join(o[2..], '.');
    assert Join(o[2..], '.') == o[2] + "." + Join(o[3..], '.');
    assert Join(o[3..], '.') == o[3];
  }

  predicate AddressChar(c: char) {
    IsDigit(c) || c == '.'
  }

  lemma FormatAlphabet(x: Addr)
    ensures Format(x) != "" && forall c :: c in Format(x) ==> AddressChar(c)
  {
    FormatExpanded(x);
  }

  // ---------------------------------------------------------------------- keys

  function Key(ip: string, port: nat): string {
    ip + ":" + Decimal(port)
  }

  lemma SplitKey(ip: string, port: nat)
    requires ':' !in ip
    ensures Split(Key(ip, port), ':') == [ip, Decimal(port)]
  {
    SplitAtFirst(ip, Decimal(port), ':');
    SplitNone(Decimal(port), ':');
  }

  /** Equal keys mean equal numeric addresses and equal ports, and conversely. */
  lemma KeyIsNumeric(ip1: string, port1: nat, ip2: string, port2: nat)
    requires ParseIPv4(ip1).Some? && ParseIPv4(ip2).Some?
    ensures Key(ip1, port1) == Key(ip2, port2)
       <==> ParseIPv4(ip1) == ParseIPv4(ip2) && port1 == port2
  {
    FormatOfParse(ip1);
    FormatOfParse(ip2);
    FormatAlphabet(ParseIPv4(ip1).value);
    FormatAlphabet(ParseIPv4(ip2).value);
    SplitKey(ip1, port1);
    SplitKey(ip2, port2);
    ValueOfDecimal(port1);
    ValueOfDecimal(port2);
  }
}
