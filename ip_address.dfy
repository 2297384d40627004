/** Rendering of a 32-bit address as a dotted quad (`FlowDataCollector.int_to_ip`)
    and the parser that inverts it. */
module IpAddress {
  import opened Wrappers
  import opened Decimal

  const TWO_POW_32: int := 0x1_0000_0000

  /** Byte `k` of `x`, counting from the most significant (k = 0) to the least
      significant (k = 3) byte of the low 32 bits: Python's `(x >> s) & 0xFF`
      with s = 24, 16, 8, 0. For a positive divisor Dafny's `/` floors, as
      Python's `>>` does, and `%` gives the low byte of the two's-complement
      value, as `& 0xFF` does, so negative and wider inputs behave as in Python. */
  function Octet(x: int, k: nat): int
    requires k < 4
  {
    var shifted := if k == 0 then x / 0x100_0000 else if k == 1 then x / 0x1_0000 else if k == 2 then x / 0x100 else x;
    shifted % 0x100
  }

  /** `int_to_ip`: four decimal octets joined by dots. */
  function IntToIp(x: int): string {
    NatToString(Octet(x, 0)) + "." + NatToString(Octet(x, 1)) + "." +
    NatToString(Octet(x, 2)) + "." + NatToString(Octet(x, 3))
  }

  /** `s` split at every dot, like Python's `s.split('.')`. */
  function SplitDots(s: string): (parts: seq<string>)
    ensures |parts| >= 1
  {
    if s == [] then [""]
    else
      var rest := SplitDots(s[1..]);
      if s[0] == '.' then [""] + rest else [[s[0]] + rest[0]] + rest[1..]
  }

  /** One octet of a dotted quad: a non-empty run of digits worth at most 255. */
  predicate IsOctetText(p: string) {
    |p| >= 1 && AllDigits(p) && ParseDigits(p) < 0x100
  }

  /** The address a dotted quad denotes, or None when the text is not one. */
  function ParseIp(s: string): Option<int> {
    var parts := SplitDots(s);
    if |parts| == 4 && IsOctetText(parts[0]) && IsOctetText(parts[1])
       && IsOctetText(parts[2]) && IsOctetText(parts[3])
    then Some(ParseDigits(parts[0]) * 0x100_0000 + ParseDigits(parts[1]) * 0x1_0000
              + ParseDigits(parts[2]) * 0x100 + ParseDigits(parts[3]))
    else None
  }

  lemma {:induction false} SplitDotsNoDot(a: string)
    requires '.' !in a
    ensures SplitDots(a) == [a]
  {
    if a != [] {
      assert '.' !in a[1..];
      SplitDotsNoDot(a[1..]);
      assert [a[0]] + a[1..] == a;
    }
  }

  lemma {:induction false} SplitDotsAfter(a: string, b: string)
    requires '.' !in a
    ensures SplitDots(a + "." + b) == [a] + SplitDots(b)
  {
    var s := a + "." + b;
    if a == [] {
      assert s[1..] == b;
    } else {
      assert s[0] == a[0] && s[0] != '.';
      assert s[1..] == a[1..] + "." + b;
      assert '.' !in a[1..];
      SplitDotsAfter(a[1..], b);
      assert [a[0]] + a[1..] == a;
    }
  }

  lemma DigitsHaveNoDot(s: string)
    requires AllDigits(s)
    ensures '.' !in s
  {
  }

  /** Joining by a dot regroups freely. */
  lemma DotJoinRegroup(a: string, rest: string, more: string)
    ensures a + "." + rest + "." + more == a + "." + (rest + "." + more)
  {
  }

  /** Three digit strings joined by dots split back into the same three strings. */
  lemma SplitTriple(b: string, c: string, d: string)
    requires AllDigits(b) && AllDigits(c) && AllDigits(d)
    ensures SplitDots(b + "." + c + "." + d) == [b, c, d]
  {
    DigitsHaveNoDot(b);
    DigitsHaveNoDot(c);
    DigitsHaveNoDot(d);
    SplitDotsNoDot(d);
    SplitDotsAfter(c, d);
    SplitDotsAfter(b, c + "." + d);
    DotJoinRegroup(b, c, d);
  }

  /** Four digit strings joined by dots split back into the same four strings. */
  lemma SplitQuad(a: string, b: string, c: string, d: string)
    requires AllDigits(a) && AllDigits(b) && AllDigits(c) && AllDigits(d)
    ensures SplitDots(a + "." + b + "." + c + "." + d) == [a, b, c, d]
  {
    var bcd := b + "." + c + "." + d;
    SplitTriple(b, c, d);
    DigitsHaveNoDot(a);
    SplitDotsAfter(a, bcd);
    DotJoinRegroup(a + "." + b, c, d);
    DotJoinRegroup(a, b, c + "." + d);
    DotJoinRegroup(b, c, d);
  }

  /** The four octets of `x`, weighted back, give the low 32 bits of `x`. */
  lemma OctetsRecombine(x: int)
    ensures Octet(x, 0) * 0x100_0000 + Octet(x, 1) * 0x1_0000 + Octet(x, 2) * 0x100 + Octet(x, 3)
            == x % TWO_POW_32
  {
    var q1 := x / 0x100;
    var q2 := x / 0x1_0000;
    var q3 := x / 0x100_0000;
    assert q1 / 0x100 == q2;
    assert q2 / 0x100 == q3;
  }

  /** Every octet is one byte: 0..255. */
  lemma OctetInByteRange(x: int, k: nat)
    requires k < 4
    ensures 0 <= Octet(x, k) <= 255
  {
  }

  /** Round trip: the dotted quad of `x` parses back to the low 32 bits of `x`,
      and its four dot-separated parts are the decimal texts of the octets from
      the most to the least significant. */
  lemma IntToIpRoundTrip(x: int)
    ensures SplitDots(IntToIp(x)) == [NatToString(Octet(x, 0)), NatToString(Octet(x, 1)),
                                      NatToString(Octet(x, 2)), NatToString(Octet(x, 3))]
    ensures ParseIp(IntToIp(x)) == Some(x % TWO_POW_32)
  {
    var a, b, c, d := NatToString(Octet(x, 0)), NatToString(Octet(x, 1)), NatToString(Octet(x, 2)), NatToString(Octet(x, 3));
    SplitQuad(a, b, c, d);
    ParseNatToString(Octet(x, 0));
    ParseNatToString(Octet(x, 1));
    ParseNatToString(Octet(x, 2));
    ParseNatToString(Octet(x, 3));
    OctetsRecombine(x);
  }

  /** Addresses that agree in their low 32 bits render the same. */
  lemma IntToIpLow32(x: int)
    ensures IntToIp(x) == IntToIp(x % TWO_POW_32)
  {
    var y := x % TWO_POW_32;
    ShiftLow32By24(x);
    ShiftLow32By16(x);
    ShiftLow32By8(x);
    LowByteLow32(x);
  }

  lemma LowByteLow32(x: int)
    ensures Octet(x, 3) == Octet(x % TWO_POW_32, 3)
  {
    var y, q := x % TWO_POW_32, x / TWO_POW_32;
    assert x == q * 0x100_0000 * 0x100 + y;
    LowByteOfMultiple(q * 0x100_0000, y);
  }

  /** Adding a multiple of 256 leaves the low byte alone. */
  lemma LowByteOfMultiple(a: int, t: int)
    ensures (a * 0x100 + t) % 0x100 == t % 0x100
  {
  }

  lemma ShiftLow32By24(x: int)
    ensures Octet(x, 0) == Octet(x % TWO_POW_32, 0)
  {
    var y, q := x % TWO_POW_32, x / TWO_POW_32;
    var t, r := y / 0x100_0000, y % 0x100_0000;
    assert x == (q * 0x100 + t) * 0x100_0000 + r;
    assert x / 0x100_0000 == q * 0x100 + t;
    LowByteOfMultiple(q, t);
  }

  lemma ShiftLow32By16(x: int)
    ensures Octet(x, 1) == Octet(x % TWO_POW_32, 1)
  {
    var y, q := x % TWO_POW_32, x / TWO_POW_32;
    var t, r := y / 0x1_0000, y % 0x1_0000;
    assert x == (q * 0x1_0000 + t) * 0x1_0000 + r;
    assert x / 0x1_0000 == q * 0x1_0000 + t;
    LowByteOfMultiple(q * 0x100, t);
  }

  lemma ShiftLow32By8(x: int)
    ensures Octet(x, 2) == Octet(x % TWO_POW_32, 2)
  {
    var y, q := x % TWO_POW_32, x / TWO_POW_32;
    var t, r := y / 0x100, y % 0x100;
    assert x == (q * 0x100_0000 + t) * 0x100 + r;
    assert x / 0x100 == q * 0x100_0000 + t;
    LowByteOfMultiple(q * 0x1_0000, t);
  }

  /** The two addresses used in the collector's example digest. */
  lemma IntToIpExamples()
    ensures IntToIp(0xC0A80164) == "192.168.1.100"
    ensures IntToIp(0x0A000032) == "10.0.0.50"
  {
    SourceAddressText();
    DestinationAddressText();
  }

  lemma SourceAddressText()
    ensures IntToIp(0xC0A80164) == "192.168.1.100"
  {
    assert Octet(0xC0A80164, 0) == 192 && Octet(0xC0A80164, 1) == 168;
    assert Octet(0xC0A80164, 2) == 1 && Octet(0xC0A80164, 3) == 100;
    assert NatToString(19) == "19" && NatToString(16) == "16" && NatToString(10) == "10";
    assert NatToString(192) == "192" && NatToString(168) == "168";
    assert NatToString(1) == "1" && NatToString(100) == "100";
  }

  lemma DestinationAddressText()
    ensures IntToIp(0x0A000032) == "10.0.0.50"
  {
    assert Octet(0x0A000032, 0) == 10 && Octet(0x0A000032, 1) == 0;
    assert Octet(0x0A000032, 2) == 0 && Octet(0x0A000032, 3) == 50;
    assert NatToString(10) == "10" && NatToString(0) == "0" && NatToString(50) == "50";
  }
}
