# GeoIP range resolution, modelled in Dafny

`GeoIP\GeoIP` resolves an IPv4 address to the country data of GeoLite2. `init` imports the
GeoLite2 blocks and locations CSV files into a fresh SQLite database. Each CIDR network becomes a
`[long_start, long_end]` interval. Blocks whose geoname is China's (1814991) are copied to a
second table. The finished file is renamed over the live database. `lookup` first refuses local
addresses. It then opens the live database on first use and answers a point-containment query
joined to the locations table. `country` and `inChina` wrap `lookup`.

The model keeps this structure:

- `wrappers.dfy` holds `Option` and `Result`, which stand for PHP's `false` results and exceptions.
- `strings.dfy` models `explode`, decimal numerals, `trim` and PHP's `empty` on strings.
- `address_codec.dfy` models `ip2long` as a partial parser, `FormatIPv4` as its inverse, and `isLocal` as the regular-expression search it performs.
- `records.dfy` holds the rows read, the rows stored, the tables and the errors.
- `block_normalizer.dfy` holds the per-row work of the block import: the CIDR arithmetic, the geoname fallback and the China test.
- `import.dfy` describes what `init` stores, as a function (`Build`) of the rows it reads.
- `resolver.dfy` holds the query that `lookup` runs, over tables held as sequences.
- `geoip.dfy` holds the class `GeoIP`. Its fields are the live file, the lazily opened handle (`self::$dbh`) and the tables of the temporary database. Its methods `Lookup`, `Country`, `InChina` and `Init` are proved against the functions above.

In these places the model follows the code rather than the comment at `src/GeoIP/GeoIP.php:206` or the evident intent:

- `isLocal` is the regex `^127\.|10\.|192\.168|172\.(1[6-9]|2|3[01])`, not an exact test of 127/8 and the blocks of section 3 of RFC 1918.
  - Only `127\.` is anchored.
  - The comment beside the regex gives wrong prefix lengths.
  - The model proves that every loopback and RFC 1918 address is local (`PrivateIsLocal`).
  - It also proves that the public address 110.0.0.1 is local (`UnanchoredAlternativeMatchesPublicAddress`).
- `long_end` is computed from the unmasked base. For a base that is not aligned to its prefix, the interval is therefore wider than the block (`CidrInterval`).
- `lookup` of text that `ip2long` rejects is not an error. PDO binds `false` as the integer 0, so the query runs for address 0 (`PointOf`).
- The query has no ORDER BY, so no tie-break between overlapping rows is promised. The model returns the first joined row in table order. The lemmas state only soundness and completeness, and uniqueness when blocks are disjoint.
- The China subset is the single hard-coded list `['1814991']` (`CHINA_GEONAMES`).

## Model

| member | source | states |
|---|---|---|
| `AddressCodec.Ip2Long` | src/GeoIP/GeoIP.php:30 | `ip2long` accepts four dot-separated canonical decimal octets and yields a value below 2^32; `Ip2LongOfFormat` and `FormatOfIp2Long` pin down which texts and which values |
| `AddressCodec.Ip2LongOfFormat` | src/GeoIP/GeoIP.php:30 | every address below 2^32 has a dotted-quad text that `ip2long` reads back as that address |
| `AddressCodec.FormatOfIp2Long` | src/GeoIP/GeoIP.php:30 | text `ip2long` accepts is exactly the canonical dotted quad of the value it yields (first octet most significant), so `ip2long` is a bijection onto [0, 2^32) |
| `AddressCodec.MatchFrom` | src/GeoIP/GeoIP.php:207 | the left-to-right search of the pattern from position i succeeds iff one of the four alternatives matches at some position j >= i |
| `AddressCodec.IsLocal` | src/GeoIP/GeoIP.php:204-208 | `isLocal(ip)` holds iff `^127\.` matches at the start or `10\.`, `192\.168` or `172\.(1[6-9]\|2\|3[01])` matches anywhere |
| `AddressCodec.PrivateIsLocal` | src/GeoIP/GeoIP.php:206-207 | every address of 127/8, 10/8, 172.16/12 and 192.168/16 is local by the pattern |
| `AddressCodec.UnanchoredAlternativeMatchesPublicAddress` | src/GeoIP/GeoIP.php:207 | the unanchored `10\.` also makes the public address 110.0.0.1 local |
| `Strings.Split` | src/GeoIP/GeoIP.php:97 | `explode` yields at least one piece and no piece contains the separator |
| `Strings.Trim` | src/GeoIP/GeoIP.php:102-103 | `trim` never lengthens its input; `TrimCutsOnlyWhitespace` says what it cuts |
| `Strings.IsEmptyValue` | src/GeoIP/GeoIP.php:102 | PHP's `empty` on a string: true for `""` and `"0"` only |
| `Strings.TrimCutsOnlyWhitespace` | src/GeoIP/GeoIP.php:102-103 | `trim` returns a contiguous slice of its input with only whitespace cut before and after it, and the slice neither starts nor ends with whitespace |
| `BlockNormalizer.ParseCidr` | src/GeoIP/GeoIP.php:97-100 | a parsed network has a base below 2^32 and a prefix of at most 32 |
| `BlockNormalizer.ParseCidrOfFormat` | src/GeoIP/GeoIP.php:97-99 | the text `a.b.c.d/p` of any base and prefix parses back to that base and prefix |
| `BlockNormalizer.LongStart` | src/GeoIP/GeoIP.php:99 | `ip2long(base) & (-1 << 32 - prefix)` as the base rounded down to a multiple of 2^(32-prefix); its properties are stated by `CidrInterval` and `AlignedCidr` |
| `BlockNormalizer.LongEnd` | src/GeoIP/GeoIP.php:100 | `ip2long(base) + 2^(32-prefix) - 1` from the unmasked base, never below the base |
| `BlockNormalizer.CidrInterval` | src/GeoIP/GeoIP.php:99-100 | `long_start` is the multiple of 2^(32-p) at or below the base and less than one block below it, `long_start <= base <= long_end`, and the interval holds 2^(32-p) + (base mod 2^(32-p)) addresses |
| `BlockNormalizer.AlignedCidr` | src/GeoIP/GeoIP.php:99-100 | for a base aligned to 2^(32-p), `long_start` is the base, the interval holds exactly 2^(32-p) addresses, and it contains exactly the addresses that share the base's leading p bits |
| `BlockNormalizer.ResolveGeoname` | src/GeoIP/GeoIP.php:102-104 | the stored geoname is the row's own or the trimmed registered-country geoname |
| `BlockNormalizer.GeonameFallback` | src/GeoIP/GeoIP.php:102-104 | an own geoname that is not empty after trimming is kept as written, and one that is empty after trimming is replaced by the trimmed registered geoname; the stored geoname is empty (`""` or `"0"`) after trimming iff both the own and the registered one are |
| `BlockNormalizer.IsChinaGeoname` | src/GeoIP/GeoIP.php:126 | a geoname is routed to the China table iff it is in the list `CHINA_GEONAMES`, which holds only `"1814991"` |
| `BlockNormalizer.NormalizeBlock` | src/GeoIP/GeoIP.php:96-104 | a block row fails exactly when its network does not parse, and then with that network's error |
| `BlockNormalizer.NormalizedRecord` | src/GeoIP/GeoIP.php:97-104 | a normalised row covers its base, starts on a block boundary, spans one block plus the base's offset, and carries the resolved geoname |
| `Import.NormalizeAll` | src/GeoIP/GeoIP.php:96-151 | the block import yields one record per row, or an error; `CollectSucceeds`, `CollectFirstFailure` and `NormalizeAllSnoc` state which |
| `Import.CollectSucceeds` | src/GeoIP/GeoIP.php:96-151 | the per-row import succeeds iff every row does, and then record i is row i's |
| `Import.CollectFirstFailure` | src/GeoIP/GeoIP.php:96-151 | a failed import reports the first failing row, every row before it having succeeded |
| `Import.CollectFailsAt` | src/GeoIP/GeoIP.php:96-151 | once a row fails after successful rows, the whole import fails with that row's error |
| `Import.ImportStopsAtFailure` | src/GeoIP/GeoIP.php:96-151 | a malformed block row after well-formed ones makes the whole block import fail with its error |
| `Import.ImportStep` | src/GeoIP/GeoIP.php:96-151 | after a successful prefix of the rows, one more well-formed row extends the import by exactly its record |
| `Import.NormalizeAllSnoc` | src/GeoIP/GeoIP.php:96-151 | importing one more row appends exactly that row's record, or fails |
| `Import.ChinaOnly` | src/GeoIP/GeoIP.php:125-144 | a record is in the China table iff it is in the world table and its geoname is China's; the China table is no longer than the world table |
| `Import.ChinaOnlyAppend` | src/GeoIP/GeoIP.php:106-144 | appending a record to the world table appends the same record to the China table iff its geoname is 1814991 |
| `Import.ChinaOnlySubsequence` | src/GeoIP/GeoIP.php:106-144 | the China table is a subsequence of the world table |
| `Import.Build` | src/GeoIP/GeoIP.php:96-184 | a built dataset holds the location rows as read and one world record per block row; `BuildTables` states the rest |
| `Import.BuildTables` | src/GeoIP/GeoIP.php:96-184 | the import fails iff some block row does not normalise, and then with the first such row's error; otherwise world record i is row i's, the China table is the China part of the world table, and it is a subsequence of it |
| `Resolver.PointOf` | src/GeoIP/GeoIP.php:30 | the queried point is `ip2long`'s value when it has one, 0 (PDO's binding of `false`) when `ip2long` rejects the text, and always below 2^32 |
| `Resolver.FindLocation` | src/GeoIP/GeoIP.php:40 | a location row found for a geoname is in the table and has that geoname; none is found iff no row has it |
| `Resolver.Select` | src/GeoIP/GeoIP.php:32-50 | the selected row covers the point and is joined to a location row of its geoname; none is selected iff no covering row has a location row |
| `Resolver.ResultOf` | src/GeoIP/GeoIP.php:50-53 | the object `lookup` returns: the five selected location fields with `ip_address` set to the queried text |
| `Resolver.Resolve` | src/GeoIP/GeoIP.php:30-56 | the query `lookup` runs for a non-local address on an open database: a result carries the queried text as `ip_address` and the five fields of a location row joined to a covering row of the chosen table; there is no result iff no such pair exists |
| `Resolver.ChinaHitIsWorldHit` | src/GeoIP/GeoIP.php:59-72 | when the China table lies within the world table, a China hit is also a world hit |
| `Resolver.ChinaQueryExact` | src/GeoIP/GeoIP.php:69-71 | on a China table filtered from the world table, the China query answers iff some covering world row with China's geoname has a location row |
| `Resolver.ImportedChinaTable` | src/GeoIP/GeoIP.php:106-144 | an imported dataset's China table lies within its world table and is exactly its China part |
| `Resolver.SelectOfCovered` | src/GeoIP/GeoIP.php:39-43 | with disjoint blocks and one location row per geoname, the query returns the covering block and its location, whatever the row order |
| `Resolver.LookupOfCoveredAddress` | src/GeoIP/GeoIP.php:30-56 | with disjoint blocks and one location row per geoname, the query answers any address of a block with that block's location fields |
| `GeoIPService.LookupOfCoveredNonLocalAddress` | src/GeoIP/GeoIP.php:15-56 | with disjoint blocks and one location row per geoname, `lookup` of any non-local address of a block returns that block's location fields |
| `GeoIPService.LookupAnswer` | src/GeoIP/GeoIP.php:15-56 | a local address gives `false` whatever the database; otherwise a missing database raises "Run init to initialise the database", and with a database the answer is the query's (`Resolver.Resolve`); a result is found only with a database and carries the queried text |
| `GeoIPService.Opened` | src/GeoIP/GeoIP.php:21-28 | the database queried is the handle already open, else the live file; there is none only when neither exists |
| `GeoIPService.CountryAnswer` | src/GeoIP/GeoIP.php:59-67 | `country` raises iff `lookup` does, gives a name iff `lookup` gives a result, and that name is the result's `country_name` |
| `GeoIPService.InChinaAnswer` | src/GeoIP/GeoIP.php:69-72 | `inChina` raises iff the China lookup does, and is true iff it gives a result |
| `GeoIPService.InChinaHasCountry` | src/GeoIP/GeoIP.php:59-72 | on an imported database, an address for which `inChina` is true has a country name |
| `GeoIPService.GeoIP.constructor` | src/GeoIP/GeoIP.php:6-8 | a process starts with the live file as found on disk and no handle open |
| `GeoIPService.GeoIP.Lookup` | src/GeoIP/GeoIP.php:15-57 | returns `LookupAnswer` of the open handle or else the live file; opens the live file only for a non-local address and only if no handle is open |
| `GeoIPService.GeoIP.Country` | src/GeoIP/GeoIP.php:59-67 | returns `CountryAnswer` of the database `lookup` queries, with the same handle effect as `lookup` |
| `GeoIPService.GeoIP.InChina` | src/GeoIP/GeoIP.php:69-72 | returns `InChinaAnswer` of the database `lookup` queries, with the same handle effect as `lookup` |
| `GeoIPService.GeoIP.ImportBlocks` | src/GeoIP/GeoIP.php:94-152 | fills the temporary world and China tables row by row; on success they are the normalised rows and their China part, and a malformed row stops it with its error |
| `GeoIPService.GeoIP.ImportLocations` | src/GeoIP/GeoIP.php:157-185 | the temporary locations table holds the location rows as read, in order |
| `GeoIPService.GeoIP.Init` | src/GeoIP/GeoIP.php:74-198 | the live file becomes `Build` of the rows only when both imports succeed; on a malformed block row the error is reported and the live file is unchanged |

## Left out

- Downloading and unzipping the dataset (`Importer::getFiles`) and parsing the CSV files (`Importer::csvRead`) are left out. Neither is part of this model. `Init` takes the two files' rows as sequences.
- The `$lang` parameter, the hard-coded URL and `setlocale` only choose and decode files, so they are left out. `echo` and `exit` are process I/O and are left out too.
- PDO and SQLite are not modelled: connections, SQL text, `schema.sql`, the error mode and transactions. A database is a value with three sequences.
- The 5000-row batch commit is left out. It only moves transaction boundaries. Also, `$count` is captured by value, so the mid-import commit never runs.
- The content of the `.tmp` file after a failed import is not modelled faithfully. `GeoIP.Init` leaves the rows imported so far in the temporary tables, where SQLite would roll back the open transaction. Only the live file's content is promised.
- The model rejects a malformed block row and aborts the import with `InvalidBlock`. A row is malformed when the first `/`-separated piece of its network is not a dotted quad that `ip2long` accepts, when there is no second piece, or when the second piece is not all digits with a value of at most 32. Further pieces are ignored, as `explode` with `$cidr[1]` ignores them, and a zero-padded prefix such as `024` is read as 24. The abort replaces each of these PHP behaviours:
  - A base that `ip2long` rejects gives `false`, which `&` and `+` silently turn into 0, and PHP inserts that row.
  - A network without `/` has a null prefix, which counts as 0. The shift is then by 32, and PHP inserts `[0, base + 2^32 - 1]` with a warning.
  - A leading-numeric prefix such as `24x` is used as its numeric part (24), with a warning, and PHP inserts that row.
  - An empty or non-numeric prefix makes PHP 8 throw a `TypeError`. A prefix above 32 makes it throw an `ArithmeticError` (negative shift). Neither is caught by `catch (\Exception $e)` at `src/GeoIP/GeoIP.php:186`, so the process ends with an uncaught error instead of the `exit(1)` path. In both cases the rename is not reached, as in the model.
- A prefix written with whitespace, a sign or in float form (`24.0`, `2.4e1`), which PHP's numeric-string conversion accepts, is rejected by `BlockNormalizer.ParseCidr`.
- Geoname ids are compared as exact strings, in the China test and in the join. PHP's loose `in_array` comparison of numeric strings (e.g. " 1814991") and SQLite's INTEGER column affinity are not modelled.
- The `$table` argument is any SQL table name in PHP. The model limits it to the two tables the callers pass (`Table.World`, `Table.China`).
- SQLite's choice of row for `LIMIT 1` is not modelled. `Resolver.Select` returns the first joined row in table order, and only properties that hold for any choice are proved about it.
- What a handle opened before an `init` in the same process sees afterwards is not modelled. The handle keeps the dataset it opened.
