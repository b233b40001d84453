/**
 * The static class `GeoIP\GeoIP`: `lookup`, `country` and `inChina` over the live database
 * file, opened lazily on first use, and `init`, which imports into a fresh temporary database
 * and renames it over the live file only once both imports are done.
 */
module GeoIPService {
  import opened Wrappers
  import opened Records
  import opened AddressCodec
  import opened BlockNormalizer
  import opened Import
  import opened Resolver

  /** The database `lookup` queries: the handle already open, else the live file it would open. */
  function Opened(handle: Option<Dataset>, live: Option<Dataset>): (r: Option<Dataset>)
    ensures r.None? <==> handle.None? && live.None?
    ensures handle.Some? ==> r == handle
    ensures handle.None? ==> r == live
  {
    if handle.Some? then handle else live
  }

  /**
   * What `lookup(ip, table)` returns when `db` is the database it would query: a local address
   * is refused before any database is needed, a missing database raises "Run init to initialise
   * the database", and otherwise the query answers.
   */
  function LookupAnswer(db: Option<Dataset>, ip: string, table: Table): (r: Result<Option<LookupResult>, GeoError>)
    ensures IsLocal(ip) ==> r == Success(None)
    ensures r.Failure? <==> !IsLocal(ip) && db.None?
    ensures r.Failure? ==> r.error == Uninitialised
    ensures r.Success? && r.value.Some? ==> db.Some? && !IsLocal(ip) && r.value.value.ipAddress == ip
    ensures !IsLocal(ip) && db.Some? ==> r == Success(Resolve(db.value, table, ip))
  {
    if IsLocal(ip) then Success(None)
    else
      match db
      case None => Failure(Uninitialised)
      case Some(ds) => Success(Resolve(ds, table, ip))
  }

  /** `country(ip)`: the country name of `lookup(ip)`, or no name where `lookup` is false. */
  function CountryAnswer(db: Option<Dataset>, ip: string): (r: Result<Option<string>, GeoError>)
    ensures r.Failure? <==> LookupAnswer(db, ip, World).Failure?
    ensures r.Success? ==>
      (r.value.Some? <==> LookupAnswer(db, ip, World).value.Some?) &&
      (r.value.Some? ==> r.value.value == LookupAnswer(db, ip, World).value.value.countryName)
  {
    match LookupAnswer(db, ip, World)
    case Failure(e) => Failure(e)
    case Success(None) => Success(None)
    case Success(Some(res)) => Success(Some(res.countryName))
  }

  /** `inChina(ip)`: whether the lookup in the China table is not false. */
  function InChinaAnswer(db: Option<Dataset>, ip: string): (r: Result<bool, GeoError>)
    ensures r.Failure? <==> LookupAnswer(db, ip, China).Failure?
    ensures r.Success? ==> (r.value <==> LookupAnswer(db, ip, China).value.Some?)
  {
    match LookupAnswer(db, ip, China)
    case Failure(e) => Failure(e)
    case Success(res) => Success(res.Some?)
  }

  /**
   * Over disjoint blocks with one location row per geoname, `lookup` of any non-local address of
   * a block answers with that block's location fields.
   */
  lemma LookupOfCoveredNonLocalAddress(ds: Dataset, table: Table, k: nat, j: nat, x: nat)
    requires Disjoint(BlocksOf(ds, table)) && UniqueGeonames(ds.locations)
    requires k < |BlocksOf(ds, table)| && j < |ds.locations| && x < ADDRESS_SPACE
    requires Covers(BlocksOf(ds, table)[k], x) && ds.locations[j].geonameId == BlocksOf(ds, table)[k].geonameId
    requires !IsLocal(FormatIPv4(x))
    ensures LookupAnswer(Some(ds), FormatIPv4(x), table) == Success(Some(ResultOf(ds.locations[j], FormatIPv4(x))))
  {
    LookupOfCoveredAddress(ds, table, k, j, x);
  }

  /** On an imported database, an address in China always has a country name. */
  lemma InChinaHasCountry(blockRows: seq<BlockRow>, locationRows: seq<Location>, ip: string)
    requires Build(blockRows, locationRows).Success?
    requires InChinaAnswer(Some(Build(blockRows, locationRows).value), ip) == Success(true)
    ensures CountryAnswer(Some(Build(blockRows, locationRows).value), ip).Success?
    ensures CountryAnswer(Some(Build(blockRows, locationRows).value), ip).value.Some?
  {
    var ds := Build(blockRows, locationRows).value;
    ImportedChinaTable(blockRows, locationRows);
    ChinaHitIsWorldHit(ds, ip);
  }

  class GeoIP {
    /** The database file `db/geo.sdb`; None while it does not exist. */
    var live: Option<Dataset>
    /** `self::$dbh`: the database `lookup` opened on first use, None before. */
    var handle: Option<Dataset>
    /** The tables of the temporary database `db/geo.sdb.tmp` that `init` fills. */
    var world: seq<BlockRecord>
    var china: seq<BlockRecord>
    var locations: seq<Location>

    /** A process starting with `file` on disk and no handle open. */
    constructor (file: Option<Dataset>)
      ensures live == file && handle == None
      ensures world == [] && china == [] && locations == []
    {
      live := file;
      handle := None;
      world, china, locations := [], [], [];
    }

    /** `GeoIP::lookup($ipAddress, $table)`. */
    method Lookup(ip: string, table: Table) returns (r: Result<Option<LookupResult>, GeoError>)
      modifies this`handle
      ensures r == LookupAnswer(Opened(old(handle), live), ip, table)
      ensures handle == if IsLocal(ip) then old(handle) else Opened(old(handle), live)
    {
      if IsLocal(ip) {
        return Success(None);
      }
      if handle.None? {
        if live.None? {
          return Failure(Uninitialised);
        }
        handle := live;
      }
      r := Success(Resolve(handle.value, table, ip));
    }

    /** `GeoIP::country($ip)`. */
    method Country(ip: string) returns (r: Result<Option<string>, GeoError>)
      modifies this`handle
      ensures r == CountryAnswer(Opened(old(handle), live), ip)
      ensures handle == if IsLocal(ip) then old(handle) else Opened(old(handle), live)
    {
      var result := Lookup(ip, World);
      match result {
        case Failure(e) => r := Failure(e);
        case Success(None) => r := Success(None);
        case Success(Some(res)) => r := Success(Some(res.countryName));
      }
    }

    /** `GeoIP::inChina($ip)`. */
    method InChina(ip: string) returns (r: Result<bool, GeoError>)
      modifies this`handle
      ensures r == InChinaAnswer(Opened(old(handle), live), ip)
      ensures handle == if IsLocal(ip) then old(handle) else Opened(old(handle), live)
    {
      var result := Lookup(ip, China);
      match result {
        case Failure(e) => r := Failure(e);
        case Success(res) => r := Success(res.Some?);
      }
    }

    /**
     * The first `csvRead` of `init`: each block row adds its record to `world`, and to `china`
     * when its geoname is China's. A malformed row stops the import with its error.
     */
    method ImportBlocks(blockRows: seq<BlockRow>) returns (r: Result<(), GeoError>)
      requires world == [] && china == []
      modifies this`world, this`china
      ensures NormalizeAll(blockRows).Failure? ==> r == Failure(NormalizeAll(blockRows).error)
      ensures NormalizeAll(blockRows).Success? ==>
              r == Success(()) && world == NormalizeAll(blockRows).value && china == ChinaOnly(world)
    {
      var i := 0;
      while i < |blockRows|
        invariant 0 <= i <= |blockRows|
        invariant NormalizeAll(blockRows[..i]) == Success(world)
        invariant china == ChinaOnly(world)
      {
        var row := blockRows[i];
        var outcome := NormalizeBlock(row);
        if outcome.Failure? {
          ImportStopsAtFailure(blockRows, i);
          return Failure(outcome.error);
        }
        var rec := outcome.value;
        ChinaOnlyAppend(world, rec);
        ImportStep(blockRows, i, world);
        world := world + [rec];
        if IsChinaGeoname(rec.geonameId) {
          china := china + [rec];
        }
        i := i + 1;
      }
      assert blockRows[..i] == blockRows;
      r := Success(());
    }

    /** The second `csvRead` of `init`: every location row is added to `locations` as read. */
    method ImportLocations(locationRows: seq<Location>)
      requires locations == []
      modifies this`locations
      ensures locations == locationRows
    {
      var k := 0;
      while k < |locationRows|
        invariant 0 <= k <= |locationRows| && locations == locationRows[..k]
      {
        locations := locations + [locationRows[k]];
        k := k + 1;
      }
      assert locationRows[..k] == locationRows;
    }

    /**
     * `GeoIP::init()` with the two CSV files already read into rows. The temporary database is
     * rebuilt from scratch and filled by the two imports; only when both succeeded is it renamed
     * over the live file. A malformed block row stops the import and leaves the live file as it was.
     */
    method Init(blockRows: seq<BlockRow>, locationRows: seq<Location>) returns (r: Result<(), GeoError>)
      modifies this`world, this`china, this`locations, this`live
      ensures Build(blockRows, locationRows).Failure? ==>
              r == Failure(Build(blockRows, locationRows).error) && live == old(live)
      ensures Build(blockRows, locationRows).Success? ==>
              r == Success(()) && live == Some(Build(blockRows, locationRows).value) &&
              Dataset(world, china, locations) == Build(blockRows, locationRows).value
    {
      world, china, locations := [], [], [];
      r := ImportBlocks(blockRows);
      if r.Failure? {
        return;
      }
      ImportLocations(locationRows);
      live := Some(Dataset(world, china, locations));
    }
  }
}
