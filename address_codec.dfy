/**
 * IPv4 text <-> 32-bit number, and the private-address test of `GeoIP::isLocal`.
 *
 * `ip2long` is PHP's built-in; it accepts exactly what `inet_pton(AF_INET, ...)` accepts:
 * four decimal fields separated by dots, each without a leading zero and at most 255.
 * The first field is the most significant byte.
 */
module AddressCodec {
  import opened Wrappers
  import opened Strings

  /** The number of IPv4 addresses, 2^32. */
  const ADDRESS_SPACE: nat := 0x1_0000_0000

  /** A field of a dotted quad that `inet_pton` accepts. */
  predicate IsOctetText(t: string) {
    IsCanonicalDecimal(t) && ParseDecimal(t) < 256
  }

  /** The address whose bytes, most significant first, are a, b, c, d. */
  function FromOctets(a: nat, b: nat, c: nat, d: nat): (n: nat)
    requires a < 256 && b < 256 && c < 256 && d < 256
    ensures n < ADDRESS_SPACE
  {
    ((a * 256 + b) * 256 + c) * 256 + d
  }

  /** The four bytes of an address, most significant first. */
  function Octets(n: nat): (o: seq<nat>)
    requires n < ADDRESS_SPACE
    ensures |o| == 4 && forall i :: 0 <= i < 4 ==> o[i] < 256
  {
    [n / 0x100_0000, n / 0x1_0000 % 256, n / 256 % 256, n % 256]
  }

  lemma FromOctetsOfOctets(n: nat)
    requires n < ADDRESS_SPACE
    ensures var o := Octets(n); FromOctets(o[0], o[1], o[2], o[3]) == n
  {
    var q1 := n / 256;
    var q2 := q1 / 256;
    assert n == q1 * 256 + n % 256;
    assert q1 == q2 * 256 + q1 % 256;
    assert q2 == q2 / 256 * 256 + q2 % 256;
    assert n / 0x1_0000 == q2;
    assert n / 0x100_0000 == q2 / 256;
  }

  lemma OctetsOfFromOctets(a: nat, b: nat, c: nat, d: nat)
    requires a < 256 && b < 256 && c < 256 && d < 256
    ensures Octets(FromOctets(a, b, c, d)) == [a, b, c, d]
  {
    var n := FromOctets(a, b, c, d);
    var q1 := (a * 256 + b) * 256 + c;
    assert n / 256 == q1 && n % 256 == d;
    assert q1 / 256 == a * 256 + b && q1 % 256 == c;
    assert (a * 256 + b) / 256 == a && (a * 256 + b) % 256 == b;
    assert n / 0x1_0000 == q1 / 256;
    assert n / 0x100_0000 == (q1 / 256) / 256;
  }

  /** PHP `ip2long(s)`: the address denoted by dotted-quad text, or None (PHP's `false`). */
  function Ip2Long(s: string): (r: Option<nat>)
    ensures r.Some? ==> r.value < ADDRESS_SPACE
  {
    var fields := Split(s, '.');
    if |fields| == 4 && forall i :: 0 <= i < 4 ==> IsOctetText(fields[i]) then
      Some(FromOctets(ParseDecimal(fields[0]), ParseDecimal(fields[1]),
                      ParseDecimal(fields[2]), ParseDecimal(fields[3])))
    else
      None
  }

  /** The dotted-quad text of an address (PHP `long2ip`); the inverse of `Ip2Long`. */
  function FormatIPv4(n: nat): string
    requires n < ADDRESS_SPACE
  {
    var o := Octets(n);
    Join([Decimal(o[0]), Decimal(o[1]), Decimal(o[2]), Decimal(o[3])], '.')
  }

  /** Every address has a text form that `ip2long` reads back as that address. */
  lemma {:induction false} Ip2LongOfFormat(n: nat)
    requires n < ADDRESS_SPACE
    ensures Ip2Long(FormatIPv4(n)) == Some(n)
  {
    var o := Octets(n);
    var fields := [Decimal(o[0]), Decimal(o[1]), Decimal(o[2]), Decimal(o[3])];
    forall i | 0 <= i < 4
      ensures '.' !in fields[i] && IsOctetText(fields[i]) && ParseDecimal(fields[i]) == o[i]
    {
      ParseDecimalOfDecimal(o[i]);
    }
    SplitJoin(fields, '.');
    FromOctetsOfOctets(n);
  }

  /** Text that `ip2long` accepts is exactly the text form of the address it yields. */
  lemma {:induction false} FormatOfIp2Long(s: string)
    requires Ip2Long(s).Some?
    ensures FormatIPv4(Ip2Long(s).value) == s
  {
    var fields := Split(s, '.');
    var a, b, c, d := ParseDecimal(fields[0]), ParseDecimal(fields[1]),
                      ParseDecimal(fields[2]), ParseDecimal(fields[3]);
    OctetsOfFromOctets(a, b, c, d);
    forall i | 0 <= i < 4 ensures Decimal(ParseDecimal(fields[i])) == fields[i] {
      DecimalOfParse(fields[i]);
    }
    assert [Decimal(a), Decimal(b), Decimal(c), Decimal(d)] == fields;
    JoinSplit(s, '.');
  }

  /** `s` holds the text `lit` starting at position `i`. */
  predicate HasAt(s: string, i: nat, lit: string) {
    i + |lit| <= |s| && s[i..i + |lit|] == lit
  }

  /** The alternative `172\.(1[6-9]|2|3[01])` matches at position `i`. */
  predicate Class172At(s: string, i: nat) {
    HasAt(s, i, "172.") && i + 4 < |s| &&
    ((s[i + 4] == '1' && i + 5 < |s| && '6' <= s[i + 5] <= '9') ||
     s[i + 4] == '2' ||
     (s[i + 4] == '3' && i + 5 < |s| && (s[i + 5] == '0' || s[i + 5] == '1')))
  }

  /**
   * One of the four alternatives of the pattern `^127\.|10\.|192\.168|172\.(1[6-9]|2|3[01])`
   * matches at position `i`. Only the first alternative is anchored to the start.
   */
  predicate AlternativeAt(s: string, i: nat) {
    (i == 0 && HasAt(s, 0, "127.")) || HasAt(s, i, "10.") || HasAt(s, i, "192.168") || Class172At(s, i)
  }

  /** The regular-expression search from position `i` on: try each start position in turn. */
  function MatchFrom(s: string, i: nat): (r: bool)
    requires i <= |s|
    ensures r <==> exists j :: i <= j < |s| && AlternativeAt(s, j)
    decreases |s| - i
  {
    i < |s| && (AlternativeAt(s, i) || MatchFrom(s, i + 1))
  }

  /** `GeoIP::isLocal(ip)`: `preg_match` of the pattern above finds a match somewhere in `ip`. */
  function IsLocal(ip: string): (r: bool)
    ensures r <==> exists j :: 0 <= j < |ip| && AlternativeAt(ip, j)
  {
    MatchFrom(ip, 0)
  }

  /** Membership in 127.0.0.0/8, 10.0.0.0/8, 172.16.0.0/12 or 192.168.0.0/16. */
  predicate IsPrivate(n: nat)
    requires n < ADDRESS_SPACE
  {
    var o := Octets(n);
    o[0] == 127 || o[0] == 10 || (o[0] == 172 && 16 <= o[1] < 32) || (o[0] == 192 && o[1] == 168)
  }

  /** Every loopback and RFC 1918 address is local by `isLocal`'s pattern. */
  lemma PrivateIsLocal(n: nat)
    requires n < ADDRESS_SPACE && IsPrivate(n)
    ensures IsLocal(FormatIPv4(n))
  {
    var o := Octets(n);
    var s := FormatIPv4(n);
    var fields := [Decimal(o[0]), Decimal(o[1]), Decimal(o[2]), Decimal(o[3])];
    var rest := Join(fields[2..], '.');
    assert fields[1..][1..] == fields[2..];
    assert Join(fields[1..], '.') == Decimal(o[1]) + "." + rest;
    assert s == Decimal(o[0]) + "." + Join(fields[1..], '.');
    if o[0] == 127 {
      assert Decimal(127) == "127";
      assert s[0..4] == "127.";
      assert AlternativeAt(s, 0);
    } else if o[0] == 10 {
      assert Decimal(10) == "10";
      assert s[0..3] == "10.";
      assert AlternativeAt(s, 0);
    } else if o[0] == 172 {
      assert Decimal(172) == "172";
      var b := o[1];
      assert Decimal(b) == Decimal(b / 10) + [DigitChar(b % 10)];
      assert Decimal(b / 10) == [DigitChar(b / 10)];
      assert s[0..4] == "172.";
      assert s[4] == DigitChar(b / 10) && s[5] == DigitChar(b % 10);
      assert Class172At(s, 0);
    } else {
      assert Decimal(192) == "192" && Decimal(168) == "168";
      assert s[0..7] == "192.168";
      assert AlternativeAt(s, 0);
    }
  }

  /** The text form of 110.0.0.1. */
  lemma FormatExample()
    ensures FormatIPv4(110 * 0x100_0000 + 1) == "110.0.0.1"
  {
    var n := 110 * 0x100_0000 + 1;
    assert Octets(n) == [110, 0, 0, 1];
    assert Decimal(110) == "110" && Decimal(0) == "0" && Decimal(1) == "1";
    var fields := ["110", "0", "0", "1"];
    assert fields[1..] == ["0", "0", "1"] && fields[2..] == ["0", "1"] && fields[3..] == ["1"];
    assert Join(fields[2..], '.') == "0.1";
    assert Join(fields[1..], '.') == "0.0.1";
  }

  /**
   * The pattern's unanchored alternatives also match public addresses: 110.0.0.1 contains
   * "10." and is not private, yet `isLocal` holds for its text.
   */
  lemma UnanchoredAlternativeMatchesPublicAddress()
    ensures !IsPrivate(110 * 0x100_0000 + 1)
    ensures IsLocal(FormatIPv4(110 * 0x100_0000 + 1))
  {
    FormatExample();
    assert "110.0.0.1"[1..4] == "10.";
    assert AlternativeAt("110.0.0.1", 1);
  }
}
