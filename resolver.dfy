/**
 * The query `lookup` runs once it has a database:
 *   SELECT <location fields> FROM <table> AS cb INNER JOIN country_locations AS cl
 *   ON cb.geoname_id = cl.geoname_id WHERE long_start <= :long AND long_end >= :long LIMIT 1
 * over tables held as sequences of rows. Without ORDER BY the row SQLite returns is not
 * specified; the model takes the first joined row in table order, and the properties proved
 * here (soundness and completeness) hold whichever row is returned.
 */
module Resolver {
  import opened Wrappers
  import opened Records
  import opened AddressCodec
  import opened BlockNormalizer
  import opened Import

  function BlocksOf(ds: Dataset, table: Table): seq<BlockRecord> {
    match table
    case World => ds.world
    case China => ds.china
  }

  /** The WHERE clause: the record's interval contains the point. */
  predicate Covers(b: BlockRecord, x: int) {
    b.longStart <= x <= b.longEnd
  }

  /** The point bound to `:long`: `ip2long`'s value, or 0 where it returned false. */
  function PointOf(ip: string): (x: nat)
    ensures Ip2Long(ip).Some? ==> x == Ip2Long(ip).value
    ensures Ip2Long(ip).None? ==> x == 0
    ensures x < ADDRESS_SPACE
  {
    Ip2Long(ip).GetOr(0)
  }

  /** A location row that joins with geoname `g`, if there is one. */
  function FindLocation(locations: seq<Location>, g: string): (r: Option<Location>)
    ensures r.Some? ==> r.value in locations && r.value.geonameId == g
    ensures r.None? <==> forall j :: 0 <= j < |locations| ==> locations[j].geonameId != g
  {
    if |locations| == 0 then None
    else if locations[0].geonameId == g then Some(locations[0])
    else FindLocation(locations[1..], g)
  }

  /**
   * The row `LIMIT 1` yields: a block covering `x` together with a location row of its geoname;
   * None exactly when no covering block has a location row.
   */
  function Select(blocks: seq<BlockRecord>, locations: seq<Location>, x: int): (r: Option<(BlockRecord, Location)>)
    ensures r.Some? ==> r.value.0 in blocks && Covers(r.value.0, x) &&
                        r.value.1 in locations && r.value.1.geonameId == r.value.0.geonameId
    ensures r.None? <==> forall i, j :: 0 <= i < |blocks| && 0 <= j < |locations| && Covers(blocks[i], x) ==>
                                        locations[j].geonameId != blocks[i].geonameId
  {
    if |blocks| == 0 then None
    else
      var b := blocks[0];
      var l := if Covers(b, x) then FindLocation(locations, b.geonameId) else None;
      if l.Some? then Some((b, l.value))
      else
        var rest := Select(blocks[1..], locations, x);
        assert forall i :: 1 <= i < |blocks| ==> blocks[i] == blocks[1..][i - 1];
        rest
  }

  /** The object `lookup` returns for a joined location: its five fields and the queried text. */
  function ResultOf(l: Location, ip: string): LookupResult {
    LookupResult(l.localeCode, l.continentCode, l.continentName, l.countryIsoCode, l.countryName, ip)
  }

  /**
   * The query `lookup(ip, table)` runs once the address is not local and a database is open:
   * a result carries the queried text and the
   * fields of a location row joined to a row of `table` that contains the address; there is no
   * result exactly when no such pair of rows exists.
   */
  function Resolve(ds: Dataset, table: Table, ip: string): (r: Option<LookupResult>)
    ensures r.Some? ==> r.value.ipAddress == ip
    ensures r.Some? ==>
      exists i, j :: 0 <= i < |BlocksOf(ds, table)| && 0 <= j < |ds.locations| &&
                     Covers(BlocksOf(ds, table)[i], PointOf(ip)) &&
                     ds.locations[j].geonameId == BlocksOf(ds, table)[i].geonameId &&
                     r.value == ResultOf(ds.locations[j], ip)
    ensures r.None? <==>
      forall i, j :: 0 <= i < |BlocksOf(ds, table)| && 0 <= j < |ds.locations| &&
                     Covers(BlocksOf(ds, table)[i], PointOf(ip)) ==>
                     ds.locations[j].geonameId != BlocksOf(ds, table)[i].geonameId
  {
    match Select(BlocksOf(ds, table), ds.locations, PointOf(ip))
    case None => None
    case Some((b, l)) => Some(ResultOf(l, ip))
  }

  /** Every record of the China table is a record of the world table. */
  predicate ChinaWithinWorld(ds: Dataset) {
    forall r :: r in ds.china ==> r in ds.world
  }

  /** When the China table is part of the world table, a China hit is also a world hit. */
  lemma ChinaHitIsWorldHit(ds: Dataset, ip: string)
    requires ChinaWithinWorld(ds)
    ensures Resolve(ds, China, ip).Some? ==> Resolve(ds, World, ip).Some?
  {
    if Resolve(ds, China, ip).Some? {
      var i, j :| 0 <= i < |ds.china| && 0 <= j < |ds.locations| &&
                  Covers(ds.china[i], PointOf(ip)) && ds.locations[j].geonameId == ds.china[i].geonameId;
      assert ds.china[i] in ds.world;
      var k :| 0 <= k < |ds.world| && ds.world[k] == ds.china[i];
      assert Covers(ds.world[k], PointOf(ip)) && ds.locations[j].geonameId == ds.world[k].geonameId;
    }
  }

  /** The China table holds exactly the world records with China's geoname. */
  ghost predicate ChinaIsFiltered(ds: Dataset) {
    forall r :: r in ds.china <==> r in ds.world && IsChinaGeoname(r.geonameId)
  }

  /** A covering world record with China's geoname and a location row. */
  predicate ChinaWitness(ds: Dataset, x: int, i: int, j: int) {
    0 <= i < |ds.world| && 0 <= j < |ds.locations| &&
    Covers(ds.world[i], x) && IsChinaGeoname(ds.world[i].geonameId) &&
    ds.locations[j].geonameId == ds.world[i].geonameId
  }

  lemma ChinaHitHasWitness(ds: Dataset, ip: string)
    requires ChinaIsFiltered(ds) && Resolve(ds, China, ip).Some?
    ensures exists i, j :: ChinaWitness(ds, PointOf(ip), i, j)
  {
    var x := PointOf(ip);
    var i, j :| 0 <= i < |ds.china| && 0 <= j < |ds.locations| &&
                Covers(ds.china[i], x) && ds.locations[j].geonameId == ds.china[i].geonameId;
    assert ds.china[i] in ds.china;
    var k :| 0 <= k < |ds.world| && ds.world[k] == ds.china[i];
    assert ChinaWitness(ds, x, k, j);
  }

  lemma WitnessGivesChinaHit(ds: Dataset, ip: string, i: int, j: int)
    requires ChinaIsFiltered(ds) && ChinaWitness(ds, PointOf(ip), i, j)
    ensures Resolve(ds, China, ip).Some?
  {
    var x := PointOf(ip);
    assert ds.world[i] in ds.world;
    var k :| 0 <= k < |ds.china| && ds.china[k] == ds.world[i];
    assert Covers(ds.china[k], x) && ds.locations[j].geonameId == ds.china[k].geonameId;
  }

  /**
   * When the China table is the China part of the world table, the China query finds an address
   * exactly when some world record with China's geoname covers it and has a location row; it
   * never answers for a block of another geoname.
   */
  lemma ChinaQueryExact(ds: Dataset, ip: string)
    requires ChinaIsFiltered(ds)
    ensures Resolve(ds, China, ip).Some? <==> exists i, j :: ChinaWitness(ds, PointOf(ip), i, j)
  {
    if Resolve(ds, China, ip).Some? {
      ChinaHitHasWitness(ds, ip);
    }
    if exists i, j :: ChinaWitness(ds, PointOf(ip), i, j) {
      var i, j :| ChinaWitness(ds, PointOf(ip), i, j);
      WitnessGivesChinaHit(ds, ip, i, j);
    }
  }

  /** An imported dataset has its China table inside its world table, filtered by geoname. */
  lemma ImportedChinaTable(blockRows: seq<BlockRow>, locationRows: seq<Location>)
    requires Build(blockRows, locationRows).Success?
    ensures ChinaWithinWorld(Build(blockRows, locationRows).value)
    ensures ChinaIsFiltered(Build(blockRows, locationRows).value)
  {
    BuildTables(blockRows, locationRows);
  }

  /** No two records of `blocks` share an address. */
  predicate Disjoint(blocks: seq<BlockRecord>) {
    forall i, j :: 0 <= i < j < |blocks| ==>
      blocks[i].longEnd < blocks[j].longStart || blocks[j].longEnd < blocks[i].longStart
  }

  /** No two location rows have the same geoname. */
  predicate UniqueGeonames(locations: seq<Location>) {
    forall i, j :: 0 <= i < j < |locations| ==> locations[i].geonameId != locations[j].geonameId
  }

  /** With disjoint blocks and one location row per geoname, the query's answer is determined. */
  lemma SelectOfCovered(blocks: seq<BlockRecord>, locations: seq<Location>, x: int, k: nat, j: nat)
    requires Disjoint(blocks) && UniqueGeonames(locations)
    requires k < |blocks| && j < |locations|
    requires Covers(blocks[k], x) && locations[j].geonameId == blocks[k].geonameId
    ensures Select(blocks, locations, x) == Some((blocks[k], locations[j]))
  {
    var r := Select(blocks, locations, x);
    assert r.Some?;
    var (b, l) := r.value;
    var i :| 0 <= i < |blocks| && blocks[i] == b;
    assert i == k;
    var j' :| 0 <= j' < |locations| && locations[j'] == l;
    assert j' == j;
  }

  /**
   * With disjoint blocks and one location row per geoname, the query answers any address of a
   * block with exactly that block's location, whatever row order the database uses.
   */
  lemma LookupOfCoveredAddress(ds: Dataset, table: Table, k: nat, j: nat, x: nat)
    requires Disjoint(BlocksOf(ds, table)) && UniqueGeonames(ds.locations)
    requires k < |BlocksOf(ds, table)| && j < |ds.locations| && x < ADDRESS_SPACE
    requires Covers(BlocksOf(ds, table)[k], x) && ds.locations[j].geonameId == BlocksOf(ds, table)[k].geonameId
    ensures Resolve(ds, table, FormatIPv4(x)) == Some(ResultOf(ds.locations[j], FormatIPv4(x)))
  {
    Ip2LongOfFormat(x);
    assert PointOf(FormatIPv4(x)) == x;
    SelectOfCovered(BlocksOf(ds, table), ds.locations, x, k, j);
  }
}
