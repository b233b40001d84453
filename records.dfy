/** The rows the importer reads, the rows it stores, and the errors it raises. */
module Records {

  /** A row of GeoLite2-Country-Blocks-IPv4.csv, as far as the importer reads it. */
  datatype BlockRow = BlockRow(network: string, geonameId: string, registeredCountryGeonameId: string)

  /** A row of the `country_blocks` / `country_blocks_china` tables. */
  datatype BlockRecord = BlockRecord(longStart: int, longEnd: int, geonameId: string)

  /** A row of GeoLite2-Country-Locations-<lang>.csv, stored unchanged in `country_locations`. */
  datatype Location = Location(
    geonameId: string,
    localeCode: string,
    continentCode: string,
    continentName: string,
    countryIsoCode: string,
    countryName: string)

  /** The three tables of one database file. */
  datatype Dataset = Dataset(world: seq<BlockRecord>, china: seq<BlockRecord>, locations: seq<Location>)

  /** The table a lookup queries: `country_blocks` or `country_blocks_china`. */
  datatype Table = World | China

  /** The object `lookup` returns: the joined location's five fields plus the queried text. */
  datatype LookupResult = LookupResult(
    localeCode: string,
    continentCode: string,
    continentName: string,
    countryIsoCode: string,
    countryName: string,
    ipAddress: string)

  datatype GeoError =
    | InvalidBlock(network: string)  // a network without a dotted-quad base or a decimal prefix <= 32
    | Uninitialised                  // "Run init to initialise the database"
}
