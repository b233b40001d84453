/**
 * What `GeoIP::init` stores, as a function of the rows it reads: every block row becomes one
 * `country_blocks` record, the China rows are copied to `country_blocks_china`, and every
 * location row goes to `country_locations` unchanged. One malformed block row aborts it all.
 */
module Import {
  import opened Wrappers
  import opened Records
  import opened BlockNormalizer

  /** What each block row becomes, row by row. */
  function Outcomes(rows: seq<BlockRow>): (r: seq<Result<BlockRecord, GeoError>>)
    ensures |r| == |rows| && forall i :: 0 <= i < |rows| ==> r[i] == NormalizeBlock(rows[i])
  {
    seq(|rows|, i requires 0 <= i < |rows| => NormalizeBlock(rows[i]))
  }

  /** The values of `outcomes`, in order, or the first failure among them. */
  function Collect(outcomes: seq<Result<BlockRecord, GeoError>>): (r: Result<seq<BlockRecord>, GeoError>)
    ensures r.Success? ==> |r.value| == |outcomes|
  {
    if |outcomes| == 0 then Success([])
    else
      match Collect(outcomes[..|outcomes| - 1])
      case Failure(e) => Failure(e)
      case Success(done) =>
        match outcomes[|outcomes| - 1]
        case Failure(e) => Failure(e)
        case Success(rec) => Success(done + [rec])
  }

  /** The block records of `rows`, in order, or the error of the first row that does not normalise. */
  function NormalizeAll(rows: seq<BlockRow>): (r: Result<seq<BlockRecord>, GeoError>)
    ensures r.Success? ==> |r.value| == |rows|
  {
    Collect(Outcomes(rows))
  }

  /** Collecting succeeds exactly when every outcome is a success, and then keeps every value in place. */
  lemma {:induction false} CollectSucceeds(outcomes: seq<Result<BlockRecord, GeoError>>)
    ensures Collect(outcomes).Success? <==> forall i :: 0 <= i < |outcomes| ==> outcomes[i].Success?
    ensures Collect(outcomes).Success? ==>
      forall i :: 0 <= i < |outcomes| ==> Collect(outcomes).value[i] == outcomes[i].value
  {
    if |outcomes| > 0 {
      var front := outcomes[..|outcomes| - 1];
      CollectSucceeds(front);
      assert forall i :: 0 <= i < |front| ==> front[i] == outcomes[i];
    }
  }

  /** A failed collection reports the first failure. */
  lemma {:induction false} CollectFirstFailure(outcomes: seq<Result<BlockRecord, GeoError>>)
    requires Collect(outcomes).Failure?
    ensures exists i :: 0 <= i < |outcomes| && outcomes[i].Failure? && outcomes[i].error == Collect(outcomes).error &&
                        (forall j :: 0 <= j < i ==> outcomes[j].Success?)
  {
    var front := outcomes[..|outcomes| - 1];
    assert forall i :: 0 <= i < |front| ==> front[i] == outcomes[i];
    if Collect(front).Failure? {
      CollectFirstFailure(front);
    } else {
      CollectSucceeds(front);
    }
  }

  /** Collecting one more outcome extends the values by it, or fails with the earlier failure or with it. */
  lemma CollectSnoc(outcomes: seq<Result<BlockRecord, GeoError>>, o: Result<BlockRecord, GeoError>)
    ensures Collect(outcomes + [o]) ==
      match Collect(outcomes)
      case Failure(e) => Failure(e)
      case Success(done) =>
        match o
        case Failure(e) => Failure(e)
        case Success(rec) => Success(done + [rec])
  {
    assert (outcomes + [o])[..|outcomes|] == outcomes;
  }

  /** The first failing outcome decides the failure of the whole collection. */
  lemma {:induction false} CollectFailsAt(outcomes: seq<Result<BlockRecord, GeoError>>, k: nat)
    requires k < |outcomes| && Collect(outcomes[..k]).Success? && outcomes[k].Failure?
    ensures Collect(outcomes) == Failure(outcomes[k].error)
  {
    var front := outcomes[..|outcomes| - 1];
    if |outcomes| == k + 1 {
      assert front == outcomes[..k];
    } else {
      assert front[..k] == outcomes[..k];
      CollectFailsAt(front, k);
    }
  }

  /** A row that does not normalise makes the whole import fail, unless an earlier row already did. */
  lemma {:induction false} ImportStopsAtFailure(rows: seq<BlockRow>, k: nat)
    requires k < |rows| && NormalizeAll(rows[..k]).Success? && NormalizeBlock(rows[k]).Failure?
    ensures NormalizeAll(rows) == Failure(NormalizeBlock(rows[k]).error)
  {
    var outcomes := Outcomes(rows);
    assert outcomes[..k] == Outcomes(rows[..k]);
    assert Collect(outcomes[..k]).Success?;
    assert outcomes[k].Failure?;
    CollectFailsAt(outcomes, k);
    assert Collect(outcomes) == Failure(outcomes[k].error);
  }

  /** Processing one more row extends the records by that row's, or fails with its error. */
  lemma NormalizeAllSnoc(rows: seq<BlockRow>, row: BlockRow)
    ensures NormalizeAll(rows + [row]) ==
      match NormalizeAll(rows)
      case Failure(e) => Failure(e)
      case Success(done) =>
        match NormalizeBlock(row)
        case Failure(e) => Failure(e)
        case Success(rec) => Success(done + [rec])
  {
    var outcomes := Outcomes(rows + [row]);
    assert outcomes[..|rows|] == Outcomes(rows);
    assert outcomes == Outcomes(rows) + [NormalizeBlock(row)];
    CollectSnoc(Outcomes(rows), NormalizeBlock(row));
  }

  /** One more well-formed row extends a successful prefix import by exactly its record. */
  lemma ImportStep(rows: seq<BlockRow>, i: nat, done: seq<BlockRecord>)
    requires i < |rows| && NormalizeAll(rows[..i]) == Success(done) && NormalizeBlock(rows[i]).Success?
    ensures NormalizeAll(rows[..i + 1]) == Success(done + [NormalizeBlock(rows[i]).value])
  {
    NormalizeAllSnoc(rows[..i], rows[i]);
    assert rows[..i + 1] == rows[..i] + [rows[i]];
  }

  /** The rows of `world` that also go to the China table, in order. */
  function ChinaOnly(world: seq<BlockRecord>): (china: seq<BlockRecord>)
    ensures |china| <= |world|
    ensures forall r :: r in china <==> r in world && IsChinaGeoname(r.geonameId)
  {
    if |world| == 0 then []
    else (if IsChinaGeoname(world[0].geonameId) then [world[0]] else []) + ChinaOnly(world[1..])
  }

  /** Appending a record to the world table appends it to the China table iff its geoname is China's. */
  lemma {:induction false} ChinaOnlyAppend(world: seq<BlockRecord>, rec: BlockRecord)
    ensures ChinaOnly(world + [rec]) ==
            ChinaOnly(world) + (if IsChinaGeoname(rec.geonameId) then [rec] else [])
  {
    if |world| > 0 {
      assert (world + [rec])[1..] == world[1..] + [rec];
      ChinaOnlyAppend(world[1..], rec);
    } else {
      assert world + [rec] == [rec];
      assert ChinaOnly([rec][1..]) == [];
    }
  }

  /** `a` is `b` with some elements left out (matched greedily from the front). */
  predicate IsSubsequence<T(==)>(a: seq<T>, b: seq<T>)
    decreases |b|
  {
    |a| == 0 ||
    (|b| > 0 && if a[0] == b[0] then IsSubsequence(a[1..], b[1..]) else IsSubsequence(a, b[1..]))
  }

  /** The China table is a subsequence of the world table. */
  lemma {:induction false} ChinaOnlySubsequence(world: seq<BlockRecord>)
    ensures IsSubsequence(ChinaOnly(world), world)
  {
    if |world| > 0 {
      ChinaOnlySubsequence(world[1..]);
      var rest := ChinaOnly(world[1..]);
      if !IsChinaGeoname(world[0].geonameId) {
        assert ChinaOnly(world) == rest;
        if |rest| > 0 {
          assert rest[0] in rest;
          assert rest[0] != world[0];
        }
      } else {
        assert ChinaOnly(world)[1..] == rest;
      }
    }
  }

  /** The dataset `init` publishes for these rows, or the error that stops it. */
  function Build(blockRows: seq<BlockRow>, locationRows: seq<Location>): (r: Result<Dataset, GeoError>)
    ensures r.Success? ==> r.value.locations == locationRows && |r.value.world| == |blockRows|
  {
    match NormalizeAll(blockRows)
    case Failure(e) => Failure(e)
    case Success(world) => Success(Dataset(world, ChinaOnly(world), locationRows))
  }

  /**
   * A built dataset holds one world record per block row, in row order; the China table is the
   * subsequence of it whose geoname is China's. The build fails exactly when a row does not
   * normalise, and then with the error of the first such row.
   */
  lemma BuildTables(blockRows: seq<BlockRow>, locationRows: seq<Location>)
    ensures Build(blockRows, locationRows).Failure? <==>
            exists i :: 0 <= i < |blockRows| && NormalizeBlock(blockRows[i]).Failure?
    ensures Build(blockRows, locationRows).Failure? ==>
            exists i :: 0 <= i < |blockRows| && NormalizeBlock(blockRows[i]).Failure? &&
                        Build(blockRows, locationRows).error == NormalizeBlock(blockRows[i]).error &&
                        (forall j :: 0 <= j < i ==> NormalizeBlock(blockRows[j]).Success?)
    ensures Build(blockRows, locationRows).Success? ==>
      var ds := Build(blockRows, locationRows).value;
      (forall i :: 0 <= i < |blockRows| ==> ds.world[i] == NormalizeBlock(blockRows[i]).value) &&
      (forall r :: r in ds.china <==> r in ds.world && IsChinaGeoname(r.geonameId)) &&
      IsSubsequence(ds.china, ds.world)
  {
    var outcomes := Outcomes(blockRows);
    CollectSucceeds(outcomes);
    if Collect(outcomes).Success? {
      ChinaOnlySubsequence(Collect(outcomes).value);
    } else {
      CollectFirstFailure(outcomes);
    }
  }
}
