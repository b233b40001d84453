/**
 * The per-row work of the block import: CIDR text to `[long_start, long_end]`, the geoname
 * fallback to the registered country, and the test that routes a row to the China table.
 */
module BlockNormalizer {
  import opened Wrappers
  import opened Strings
  import opened AddressCodec
  import opened Records

  function Pow2(k: nat): (r: nat)
    ensures r >= 1
  {
    if k == 0 then 1 else 2 * Pow2(k - 1)
  }

  /**
   * `ip2long(base) & (-1 << 32 - prefix)`, rendered arithmetically: on PHP's 64-bit integers the
   * mask has every bit set except the low `32 - prefix`, so the value is `base` with those low
   * bits cleared, which is `base` rounded down to a multiple of `2^(32 - prefix)`.
   */
  function LongStart(base: nat, prefix: nat): nat
    requires prefix <= 32
  {
    var size := Pow2(32 - prefix);
    base / size * size
  }

  /** `ip2long(base) + pow(2, 32 - prefix) - 1`, from the base as written, not the masked one. */
  function LongEnd(base: nat, prefix: nat): (r: int)
    requires prefix <= 32
    ensures r >= base
  {
    base + Pow2(32 - prefix) - 1
  }

  lemma {:induction false} MulMonotone(a: nat, b: nat, d: nat)
    requires a <= b
    ensures a * d <= b * d
  {
    if a < b {
      MulMonotone(a, b - 1, d);
      assert b * d == (b - 1) * d + d;
    }
  }

  lemma DivModParts(x: nat, d: nat)
    requires d >= 1
    ensures x == x / d * d + x % d && 0 <= x % d < d
  {
  }

  /** `x / d == q` exactly when `x` lies in the `q`-th window of width `d`. */
  lemma DivWindow(x: nat, d: nat, q: nat)
    requires d >= 1
    ensures x / d == q <==> q * d <= x < q * d + d
  {
    var r := x / d;
    DivModParts(x, d);
    MulStrict(r, q, d);
    MulStrict(q, r, d);
  }

  /** A smaller factor gives a product at least one whole `d` smaller. */
  lemma MulStrict(a: nat, b: nat, d: nat)
    ensures a < b ==> a * d + d <= b * d
  {
    if a < b {
      MulMonotone(a + 1, b, d);
      assert (a + 1) * d == a * d + d;
    }
  }

  /**
   * The interval of a block: `long_start` is a multiple of the block size at or below the base,
   * less than one block below it, and the interval spans one block plus however far the base
   * sits above `long_start`.
   */
  lemma CidrInterval(base: nat, prefix: nat)
    requires prefix <= 32
    ensures var size := Pow2(32 - prefix);
      var s := LongStart(base, prefix);
      s % size == 0 && s <= base < s + size && base <= LongEnd(base, prefix) &&
      LongEnd(base, prefix) - s + 1 == size + base % size
  {
    var size := Pow2(32 - prefix);
    var q := base / size;
    var s := q * size;
    assert LongStart(base, prefix) == s;
    DivModParts(base, size);
    var m := base % size;
    assert base == s + m;
    DivWindow(s, size, q);
    DivModParts(s, size);
    assert s % size == 0;
  }

  /**
   * For a base aligned to its prefix, as CIDR blocks are, the interval is exactly the block:
   * it starts at the base, holds `2^(32 - prefix)` addresses, and contains just the addresses
   * that share the base's leading `prefix` bits.
   */
  lemma AlignedCidr(base: nat, prefix: nat, x: nat)
    requires prefix <= 32 && base % Pow2(32 - prefix) == 0
    ensures LongStart(base, prefix) == base
    ensures LongEnd(base, prefix) - LongStart(base, prefix) + 1 == Pow2(32 - prefix)
    ensures LongStart(base, prefix) <= x <= LongEnd(base, prefix) <==>
            x / Pow2(32 - prefix) == base / Pow2(32 - prefix)
  {
    var size := Pow2(32 - prefix);
    var q := base / size;
    DivModParts(base, size);
    DivWindow(x, size, q);
  }

  /** The first two '/'-separated pieces of a network, as `explode('/', ...)` gives them, parsed. */
  function ParseCidr(network: string): (r: Option<(nat, nat)>)
    ensures r.Some? ==> r.value.0 < ADDRESS_SPACE && r.value.1 <= 32
  {
    var parts := Split(network, '/');
    if |parts| < 2 then None
    else
      match Ip2Long(parts[0])
      case None => None
      case Some(base) =>
        var p := parts[1];
        if |p| >= 1 && AllDigits(p) && ParseDecimal(p) <= 32 then Some((base, ParseDecimal(p))) else None
  }

  lemma {:induction false} JoinAvoids(parts: seq<string>, sep: char, c: char)
    requires |parts| >= 1 && c != sep
    requires forall i :: 0 <= i < |parts| ==> c !in parts[i]
    ensures c !in Join(parts, sep)
  {
    if |parts| > 1 {
      JoinAvoids(parts[1..], sep, c);
    }
  }

  /** The text `a.b.c.d/p` of every block parses back to its base and prefix. */
  lemma ParseCidrOfFormat(base: nat, prefix: nat)
    requires base < ADDRESS_SPACE && prefix <= 32
    ensures ParseCidr(FormatIPv4(base) + "/" + Decimal(prefix)) == Some((base, prefix))
  {
    var o := Octets(base);
    var fields := [Decimal(o[0]), Decimal(o[1]), Decimal(o[2]), Decimal(o[3])];
    forall i | 0 <= i < 4 ensures '/' !in fields[i] {
      assert AllDigits(fields[i]);
    }
    JoinAvoids(fields, '.', '/');
    assert '/' !in Decimal(prefix);
    SplitJoin([FormatIPv4(base), Decimal(prefix)], '/');
    assert [FormatIPv4(base), Decimal(prefix)][1..] == [Decimal(prefix)];
    Ip2LongOfFormat(base);
    ParseDecimalOfDecimal(prefix);
  }

  /**
   * The geoname a block row is stored under: its own `geoname_id`, unless that trims to a value
   * PHP's `empty` accepts, in which case the trimmed `registered_country_geoname_id`.
   */
  function ResolveGeoname(geonameId: string, registered: string): (r: string)
    ensures r == geonameId || r == Trim(registered)
  {
    if IsEmptyValue(Trim(geonameId)) then Trim(registered) else geonameId
  }

  /**
   * The fallback fills every gap it can: the stored geoname is missing only when both the row's
   * own and its registered country's are, and a present own geoname is kept as written.
   */
  lemma GeonameFallback(geonameId: string, registered: string)
    ensures var r := ResolveGeoname(geonameId, registered);
      (IsEmptyValue(Trim(r)) <==> IsEmptyValue(Trim(geonameId)) && IsEmptyValue(Trim(registered))) &&
      (!IsEmptyValue(Trim(geonameId)) ==> r == geonameId) &&
      (IsEmptyValue(Trim(geonameId)) ==> r == Trim(registered))
  {
    TrimIdempotent(registered);
  }

  /** The geonames whose blocks also go to `country_blocks_china`. */
  const CHINA_GEONAMES: seq<string> := ["1814991"]

  predicate IsChinaGeoname(g: string) {
    g in CHINA_GEONAMES
  }

  /** The record a block row becomes, or the error that aborts the import. */
  function NormalizeBlock(row: BlockRow): (r: Result<BlockRecord, GeoError>)
    ensures r.Failure? <==> ParseCidr(row.network).None?
    ensures r.Failure? ==> r.error == InvalidBlock(row.network)
  {
    match ParseCidr(row.network)
    case None => Failure(InvalidBlock(row.network))
    case Some((base, prefix)) =>
      Success(BlockRecord(LongStart(base, prefix), LongEnd(base, prefix),
                          ResolveGeoname(row.geonameId, row.registeredCountryGeonameId)))
  }

  /**
   * A normalised row covers its base address, spans one block plus the base's offset in it, and
   * carries the resolved geoname; for an aligned base the interval is exactly the block.
   */
  lemma NormalizedRecord(row: BlockRow)
    requires ParseCidr(row.network).Some?
    ensures var (base, prefix) := ParseCidr(row.network).value;
      var rec := NormalizeBlock(row).value;
      var size := Pow2(32 - prefix);
      rec.longStart <= base <= rec.longEnd && rec.longStart % size == 0 &&
      rec.longEnd - rec.longStart + 1 == size + base % size &&
      rec.geonameId == ResolveGeoname(row.geonameId, row.registeredCountryGeonameId)
  {
    var (base, prefix) := ParseCidr(row.network).value;
    CidrInterval(base, prefix);
  }
}
