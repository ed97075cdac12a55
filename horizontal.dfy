/**
 * Horizontalization: `horizontalize` in process.py.
 *
 * The readings arrive as a sequence of chunks. For each chunk the time column
 * is cut to "HH:M", the raw variable code is translated through the table
 * (an unknown asset or code raises KeyError and ends the call), and the chunk
 * is pivoted into (sum, count) pairs with the mapper; the pivots are appended
 * to one frame. After the last chunk every pivoted row gets its bucket from
 * the timer (a malformed date or time raises ValueError), and the frame is
 * grouped by (asset, unixtime) and reduced column by column.
 *
 * Three descriptions of that computation are related here:
 *   Pipeline      the data flow of the source: a list of per-chunk pivots, the
 *                 reducer applied to each (asset, unixtime, variable) column;
 *   Expected      the meaning: the mean of all non-null values of each key
 *                 over the whole file, whatever the chunking;
 *   Horizontalize the chunk loop, merging each chunk's pivot into one
 *                 accumulator map updated in place.
 */
module Horizontal {
  import opened Wrappers
  import opened TimeBuckets
  import opened Translations
  import opened Aggregation

  /** One row of the input file. */
  datatype Reading = Reading(asset: string, date: string, time: string, variable: string, value: Option<real>)

  /**
   * A reading after process.py lines 47-49 and 54: its asset, the translated
   * variable name and the value, with the date and the time (cut to four
   * characters) replaced by the bucket timer makes of them (None where
   * strptime raises).
   */
  datatype Row = Row(asset: string, bucket: Option<int>, name: string, value: Option<real>)

  /**
   * Why a call fails: the KeyError of the translation lookup (on the asset or
   * on the code), strptime's ValueError, and the KeyError on the 'date' column
   * of the empty frame left when the file yields no chunk at all.
   */
  datatype Error = UnknownAsset(asset: string) | UnknownCode(asset: string, code: string) | BadTimestamp | NoData

  /** (asset, unixtime, variable name): one aggregation cell. */
  type Key = (string, int, string)

  /** (asset, unixtime): one output row. */
  type RowKey = (string, int)

  /** The wide table: one row per (asset, unixtime), one cell per variable name. */
  type Output = map<RowKey, map<string, Cell>>

  // ---------------------------------------------------------------------------
  // Rows and their buckets
  // ---------------------------------------------------------------------------

  /** x[:4] on the time column: the first four characters, or all when fewer. */
  function Truncate(time: string): (r: string)
    ensures r <= time
    ensures |r| == if |time| < 4 then |time| else 4
  {
    if |time| <= 4 then time else time[..4]
  }

  /**
   * What the pipeline makes of a reading's date and time. The definitions and
   * lemmas below take it as a parameter, as nothing in them depends on how a
   * bucket is computed; Horizontalize instantiates it with Bucket.
   */
  type Stamp = (string, string) -> Option<int>

  /** The bucket a reading gets: timer(date + time[:4]). */
  function Bucket(date: string, time: string): (r: Option<int>)
    ensures r.Some? <==> ParseStamp(date + Truncate(time) + "0").Some?
    ensures r.Some? ==> r.value % 600 == 0
  {
    Timer(date + Truncate(time))
  }

  /**
   * Readings share a bucket exactly when their date followed by the first four
   * characters of their time is the same string: one bucket per ten-minute
   * window, and a reading anywhere in the window lands in it.
   */
  lemma SameBucketIffSameWindow(d1: string, t1: string, d2: string, t2: string)
    requires Bucket(d1, t1).Some?
    ensures Bucket(d1, t1) == Bucket(d2, t2) <==> d1 + Truncate(t1) == d2 + Truncate(t2)
  {
    if Bucket(d1, t1) == Bucket(d2, t2) {
      TimerInjective(d1 + Truncate(t1), d2 + Truncate(t2));
    }
  }

  /**
   * 2015-05-01T00:00Z is 1430438400: every reading whose window is the one
   * starting then (times 00:00 to 00:09 of that day, date + time[:4] being
   * "2015-05-0100:0") gets bucket 1430439000, and every reading of the next
   * window ("2015-05-0100:1") gets 1430439600. The windows are written as the
   * first 14 characters of the layout of their start.
   */
  lemma ExampleBuckets(date: string, time: string)
    ensures date + Truncate(time) == FormatStamp(DateTime(2015, 5, 1, 0, 0))[..14] ==>
      Bucket(date, time) == Some(1430439000)
    ensures date + Truncate(time) == FormatStamp(DateTime(2015, 5, 1, 0, 10))[..14] ==>
      Bucket(date, time) == Some(1430439600)
  {
    ExampleInstants();
    TimerOfFormatted(DateTime(2015, 5, 1, 0, 0));
    TimerOfFormatted(DateTime(2015, 5, 1, 0, 10));
  }

  /**
   * A reading at any minute lands in the bucket just above its own instant:
   * with the date and time columns of the layout of dt, the bucket is
   * 600 * (t // 600 + 1) for t = timegm(dt).
   */
  lemma BucketIsCeiling(dt: DateTime)
    requires ValidDateTime(dt)
    ensures var s := FormatStamp(dt);
      |s| == 15 && Bucket(s[..10], s[10..]) == Some(600 * (TimeGm(dt) / 600 + 1))
  {
    TimerIsCeiling(dt);
    var s := FormatStamp(dt);
    assert Truncate(s[10..]) == s[10..14];
    assert s[..10] + s[10..14] == s[..14];
  }

  lemma ExampleInstants()
    ensures TimeGm(DateTime(2015, 5, 1, 0, 0)) == 1430438400
    ensures TimeGm(DateTime(2015, 5, 1, 0, 10)) == 1430439000
  {
  }

  /**
   * process.py lines 47-49 for one reading: the lookup fails exactly when the table lacks
   * the asset or the asset's map lacks the code, and the asset is looked up
   * first; a translated row keeps the asset and the value.
   */
  function Normalize(r: Reading, tr: Table, stamp: Stamp): (n: Result<Row, Error>)
    ensures n.Err? <==> r.asset !in tr || r.variable !in tr[r.asset]
    ensures n.Err? && r.asset !in tr ==> n.error == UnknownAsset(r.asset)
    ensures n.Err? && r.asset in tr ==> n.error == UnknownCode(r.asset, r.variable)
    ensures n.Ok? ==> n.value.asset == r.asset && n.value.value == r.value
    ensures n.Ok? ==> n.value.name == tr[r.asset][r.variable] && n.value.bucket == stamp(r.date, r.time)
  {
    if r.asset !in tr then Err(UnknownAsset(r.asset))
    else if r.variable !in tr[r.asset] then Err(UnknownCode(r.asset, r.variable))
    else Ok(Row(r.asset, stamp(r.date, r.time), tr[r.asset][r.variable], r.value))
  }

  /**
   * process.py lines 47-49 for a chunk, one reading after the other up to the first
   * KeyError; NormalizeAllMeaning states what it computes.
   */
  function NormalizeAll(rs: seq<Reading>, tr: Table, stamp: Stamp): Result<seq<Row>, Error> {
    if rs == [] then Ok([])
    else
      match NormalizeAll(rs[..|rs| - 1], tr, stamp)
      case Err(e) => Err(e)
      case Ok(rows) =>
        match Normalize(rs[|rs| - 1], tr, stamp)
        case Err(e) => Err(e)
        case Ok(row) => Ok(rows + [row])
  }

  /**
   * Every reading translated, row i from reading i; or the error of the first
   * reading whose asset or code the table lacks.
   */
  lemma {:induction false} NormalizeAllMeaning(rs: seq<Reading>, tr: Table, stamp: Stamp)
    ensures NormalizeAll(rs, tr, stamp).Ok? ==> |NormalizeAll(rs, tr, stamp).value| == |rs|
    ensures NormalizeAll(rs, tr, stamp).Ok? ==>
      forall i | 0 <= i < |rs| :: Normalize(rs[i], tr, stamp) == Ok(NormalizeAll(rs, tr, stamp).value[i])
    ensures NormalizeAll(rs, tr, stamp).Err? ==> exists i | 0 <= i < |rs| ::
      Normalize(rs[i], tr, stamp) == Err(NormalizeAll(rs, tr, stamp).error) &&
      forall j | 0 <= j < i :: Normalize(rs[j], tr, stamp).Ok?
  {
    if rs != [] {
      var init := rs[..|rs| - 1];
      NormalizeAllMeaning(init, tr, stamp);
      assert forall i | 0 <= i < |init| :: init[i] == rs[i];
      if NormalizeAll(init, tr, stamp).Ok? {
        var rows := NormalizeAll(init, tr, stamp).value;
        var last := Normalize(rs[|rs| - 1], tr, stamp);
        if last.Ok? {
          var all := rows + [last.value];
          assert forall i | 0 <= i < |init| :: all[i] == rows[i];
        } else {
          assert forall j | 0 <= j < |rs| - 1 :: Normalize(rs[j], tr, stamp).Ok?;
        }
      }
    }
  }

  /** The cell a row of a chunk feeds, or None when timer rejects its date and time. */
  function KeyOf(row: Row): Option<Key> {
    match row.bucket
    case None => None
    case Some(t) => Some((row.asset, t, row.name))
  }

  /** Some row of the chunk has a date and time that timer rejects. */
  predicate Malformed(rows: seq<Row>) {
    rows != [] && (Malformed(rows[..|rows| - 1]) || KeyOf(rows[|rows| - 1]).None?)
  }

  lemma {:induction false} MalformedMeaning(rows: seq<Row>)
    ensures Malformed(rows) <==> exists i | 0 <= i < |rows| :: KeyOf(rows[i]).None?
  {
    if rows != [] {
      var init := rows[..|rows| - 1];
      MalformedMeaning(init);
      if Malformed(init) {
        var i :| 0 <= i < |init| && KeyOf(init[i]).None?;
        assert rows[i] == init[i];
      }
      if exists i | 0 <= i < |rows| :: KeyOf(rows[i]).None? {
        var i :| 0 <= i < |rows| && KeyOf(rows[i]).None?;
        if i < |init| {
          assert init[i] == rows[i];
        }
      }
    }
  }

  lemma {:induction false} MalformedConcat(xs: seq<Row>, ys: seq<Row>)
    ensures Malformed(xs + ys) <==> Malformed(xs) || Malformed(ys)
  {
    if ys == [] {
      assert xs + ys == xs;
    } else {
      var zs := xs + ys;
      var init := ys[..|ys| - 1];
      assert zs[..|zs| - 1] == xs + init;
      assert zs[|zs| - 1] == ys[|ys| - 1];
      MalformedConcat(xs, init);
    }
  }

  /** The cells that some row feeds. */
  function Keys(rows: seq<Row>): set<Key> {
    if rows == [] then {}
    else
      var last := KeyOf(rows[|rows| - 1]);
      Keys(rows[..|rows| - 1]) + (if last.Some? then {last.value} else {})
  }

  /** A cell is in the pivot exactly when some row of the chunk feeds it. */
  lemma {:induction false} KeysMeaning(rows: seq<Row>, k: Key)
    ensures k in Keys(rows) <==> exists i | 0 <= i < |rows| :: KeyOf(rows[i]) == Some(k)
  {
    if rows != [] {
      var init := rows[..|rows| - 1];
      KeysMeaning(init, k);
      if k in Keys(init) {
        var i :| 0 <= i < |init| && KeyOf(init[i]) == Some(k);
        assert rows[i] == init[i];
      }
      if exists i | 0 <= i < |rows| :: KeyOf(rows[i]) == Some(k) {
        var i :| 0 <= i < |rows| && KeyOf(rows[i]) == Some(k);
        if i < |init| {
          assert init[i] == rows[i];
        }
      }
    }
  }

  /** The values of the rows that feed cell k, in order. */
  function ValuesAt(rows: seq<Row>, k: Key): seq<Option<real>> {
    if rows == [] then []
    else
      var init := ValuesAt(rows[..|rows| - 1], k);
      var last := rows[|rows| - 1];
      if KeyOf(last) == Some(k) then init + [last.value] else init
  }

  /** pivot_table(..., aggfunc=mapper) of a chunk: each cell's (sum, count). */
  function Pivot(rows: seq<Row>): map<Key, Partial> {
    map k | k in Keys(rows) :: Mapper(ValuesAt(rows, k))
  }

  function Flatten<T>(chunks: seq<seq<T>>): seq<T> {
    if chunks == [] then [] else Flatten(chunks[..|chunks| - 1]) + chunks[|chunks| - 1]
  }

  // ---------------------------------------------------------------------------
  // The output table
  // ---------------------------------------------------------------------------

  function RowKeys(acc: map<Key, Partial>): set<RowKey> {
    set k | k in acc :: (k.0, k.1)
  }

  function Columns(acc: map<Key, Partial>): set<string> {
    set k | k in acc :: k.2
  }

  function CellAt(acc: map<Key, Partial>, k: Key): Cell {
    if k in acc then Quotient(acc[k]) else Null
  }

  /** One row of the table: a cell for every column. */
  function FinalRow(acc: map<Key, Partial>, rk: RowKey): map<string, Cell> {
    map v | v in Columns(acc) :: CellAt(acc, (rk.0, rk.1, v))
  }

  /** The table of the merged accumulator. */
  function Finalize(acc: map<Key, Partial>): Output {
    map rk | rk in RowKeys(acc) :: FinalRow(acc, rk)
  }

  /**
   * The result the source promises for the whole file, chunking aside: the
   * first unknown translation, else a timestamp error, else each cell's mean.
   */
  function Expected(readings: seq<Reading>, tr: Table, stamp: Stamp): Result<Output, Error> {
    match NormalizeAll(readings, tr, stamp)
    case Err(e) => Err(e)
    case Ok(rows) => if Malformed(rows) then Err(BadTimestamp) else Ok(Finalize(Pivot(rows)))
  }

  // ---------------------------------------------------------------------------
  // The data flow of the source
  // ---------------------------------------------------------------------------

  /** The chunk loop's translation step, chunk after chunk, up to the first KeyError. */
  function NormalizeChunks(chunks: seq<seq<Reading>>, tr: Table, stamp: Stamp): Result<seq<seq<Row>>, Error> {
    if chunks == [] then Ok([])
    else
      match NormalizeChunks(chunks[..|chunks| - 1], tr, stamp)
      case Err(e) => Err(e)
      case Ok(rcs) =>
        match NormalizeAll(chunks[|chunks| - 1], tr, stamp)
        case Err(e) => Err(e)
        case Ok(rows) => Ok(rcs + [rows])
  }

  /** Some chunk is malformed. */
  predicate AnyMalformed(rcs: seq<seq<Row>>) {
    rcs != [] && (AnyMalformed(rcs[..|rcs| - 1]) || Malformed(rcs[|rcs| - 1]))
  }

  /** The frame after the loop: one pivot per chunk, in order (df.append). */
  function Pivots(rcs: seq<seq<Row>>): (ps: seq<map<Key, Partial>>)
    ensures |ps| == |rcs|
  {
    if rcs == [] then [] else Pivots(rcs[..|rcs| - 1]) + [Pivot(rcs[|rcs| - 1])]
  }

  function AllRowKeys(ps: seq<map<Key, Partial>>): set<RowKey> {
    if ps == [] then {} else AllRowKeys(ps[..|ps| - 1]) + RowKeys(ps[|ps| - 1])
  }

  function AllColumns(ps: seq<map<Key, Partial>>): set<string> {
    if ps == [] then {} else AllColumns(ps[..|ps| - 1]) + Columns(ps[|ps| - 1])
  }

  /**
   * The column of one (asset, unixtime) group that the reducer receives: one
   * entry per chunk that has a row for (asset, unixtime), missing where that
   * row has no pair for the variable.
   */
  function Entries(ps: seq<map<Key, Partial>>, rk: RowKey, v: string): (x: seq<Option<Partial>>)
    ensures rk in AllRowKeys(ps) ==> x != []
  {
    if ps == [] then []
    else
      var p := ps[|ps| - 1];
      var k := (rk.0, rk.1, v);
      Entries(ps[..|ps| - 1], rk, v)
        + (if rk in RowKeys(p) then [if k in p then Some(p[k]) else None] else [])
  }

  /** The reducer applied to every column of one (asset, unixtime) group. */
  function ReducedRow(ps: seq<map<Key, Partial>>, rk: RowKey): map<string, Cell>
    requires rk in AllRowKeys(ps)
  {
    map v | v in AllColumns(ps) :: Reducer(Entries(ps, rk, v))
  }

  /** groupby(['asset', 'unixtime']).agg(reducer) over the frame. */
  function Grouped(ps: seq<map<Key, Partial>>): Output {
    map rk | rk in AllRowKeys(ps) :: ReducedRow(ps, rk)
  }

  /** horizontalize as the source computes it. */
  function Pipeline(chunks: seq<seq<Reading>>, tr: Table, stamp: Stamp): Result<Output, Error> {
    match NormalizeChunks(chunks, tr, stamp)
    case Err(e) => Err(e)
    case Ok(rcs) =>
      if rcs == [] then Err(NoData)
      else if AnyMalformed(rcs) then Err(BadTimestamp)
      else Ok(Grouped(Pivots(rcs)))
  }

  // ---------------------------------------------------------------------------
  // The chunk loop
  // ---------------------------------------------------------------------------

  /** The first n chunks translated, or the first KeyError among them. */
  function TranslatedPrefix(chunks: seq<seq<Reading>>, n: nat, tr: Table, stamp: Stamp): Result<seq<seq<Row>>, Error>
    requires n <= |chunks|
  {
    if n == 0 then Ok([])
    else
      match TranslatedPrefix(chunks, n - 1, tr, stamp)
      case Err(e) => Err(e)
      case Ok(rcs) =>
        match NormalizeAll(chunks[n - 1], tr, stamp)
        case Err(e) => Err(e)
        case Ok(rows) => Ok(rcs + [rows])
  }

  lemma {:induction false} TranslatedPrefixIsPrefix(chunks: seq<seq<Reading>>, n: nat, tr: Table, stamp: Stamp)
    requires n <= |chunks|
    ensures TranslatedPrefix(chunks, n, tr, stamp) == NormalizeChunks(chunks[..n], tr, stamp)
  {
    if n > 0 {
      TranslatedPrefixIsPrefix(chunks, n - 1, tr, stamp);
      assert chunks[..n][..n - 1] == chunks[..n - 1];
      assert chunks[..n][n - 1] == chunks[n - 1];
    }
  }

  /**
   * The chunk loop of horizontalize with one accumulator map, merged in place
   * chunk by chunk: a translation error ends the loop at once; otherwise the
   * accumulator holds the merged pivots and the flag says whether some row's
   * date and time were rejected by timer.
   */
  method Accumulate(chunks: seq<seq<Reading>>, tr: Table, stamp: Stamp)
    returns (err: Option<Error>, acc: map<Key, Partial>, malformed: bool)
    ensures Accumulated(chunks, tr, stamp, err, acc, malformed)
  {
    acc, malformed, err := map[], false, None;
    ghost var rcs: seq<seq<Row>> := [];
    var i := 0;
    while i < |chunks|
      invariant i <= |chunks|
      invariant Summarizes(chunks, i, tr, stamp, rcs, acc, malformed)
    {
      var rows := NormalizeAll(chunks[i], tr, stamp);
      if rows.Err? {
        err := Some(rows.error);
        ErrorStep(chunks, i, tr, stamp, rcs, acc, malformed);
        return;
      }
      SummaryStep(chunks, i, tr, stamp, rcs, acc, malformed);
      malformed := malformed || Malformed(rows.value);
      acc := Merge(acc, Pivot(rows.value));
      rcs := rcs + [rows.value];
      i := i + 1;
    }
    SummaryEnd(chunks, tr, stamp, rcs, acc, malformed);
  }

  /**
   * What the loop leaves: the first KeyError of the file, or the merged
   * pivots of all chunks and whether any of them is malformed.
   */
  ghost predicate Accumulated(chunks: seq<seq<Reading>>, tr: Table, stamp: Stamp,
                              err: Option<Error>, acc: map<Key, Partial>, malformed: bool)
  {
    match NormalizeChunks(chunks, tr, stamp)
    case Err(e) => err == Some(e)
    case Ok(rcs) => err == None && acc == MergeAll(Pivots(rcs)) && malformed == AnyMalformed(rcs)
  }

  /** The loop invariant: the first n chunks translate to rcs, summarised by acc and malformed. */
  ghost predicate Summarizes(chunks: seq<seq<Reading>>, n: nat, tr: Table, stamp: Stamp,
                             rcs: seq<seq<Row>>, acc: map<Key, Partial>, malformed: bool)
    requires n <= |chunks|
  {
    TranslatedPrefix(chunks, n, tr, stamp) == Ok(rcs) &&
    acc == MergeAll(Pivots(rcs)) && malformed == AnyMalformed(rcs)
  }

  lemma SummaryStep(chunks: seq<seq<Reading>>, i: nat, tr: Table, stamp: Stamp,
                    rcs: seq<seq<Row>>, acc: map<Key, Partial>, malformed: bool)
    requires i < |chunks| && Summarizes(chunks, i, tr, stamp, rcs, acc, malformed)
    requires NormalizeAll(chunks[i], tr, stamp).Ok?
    ensures var rows := NormalizeAll(chunks[i], tr, stamp).value;
      Summarizes(chunks, i + 1, tr, stamp, rcs + [rows], Merge(acc, Pivot(rows)), malformed || Malformed(rows))
  {
    var rows := NormalizeAll(chunks[i], tr, stamp).value;
    MergeAllSnoc(rcs, rows);
    AnyMalformedSnoc(rcs, rows);
  }

  lemma SummaryEnd(chunks: seq<seq<Reading>>, tr: Table, stamp: Stamp,
                   rcs: seq<seq<Row>>, acc: map<Key, Partial>, malformed: bool)
    requires Summarizes(chunks, |chunks|, tr, stamp, rcs, acc, malformed)
    ensures Accumulated(chunks, tr, stamp, None, acc, malformed)
  {
    WholePrefix(chunks, tr, stamp);
  }

  /** All the chunks translated is the translation of the file. */
  lemma WholePrefix(chunks: seq<seq<Reading>>, tr: Table, stamp: Stamp)
    ensures TranslatedPrefix(chunks, |chunks|, tr, stamp) == NormalizeChunks(chunks, tr, stamp)
  {
    TranslatedPrefixIsPrefix(chunks, |chunks|, tr, stamp);
    assert chunks[..|chunks|] == chunks;
  }

  /** A translation error in chunk i is the result of the whole run. */
  lemma ErrorStep(chunks: seq<seq<Reading>>, i: nat, tr: Table, stamp: Stamp, rcs: seq<seq<Row>>,
                  acc: map<Key, Partial>, malformed: bool)
    requires i < |chunks| && TranslatedPrefix(chunks, i, tr, stamp) == Ok(rcs)
    requires NormalizeAll(chunks[i], tr, stamp).Err?
    ensures Accumulated(chunks, tr, stamp, Some(NormalizeAll(chunks[i], tr, stamp).error), acc, malformed)
  {
    TranslatedPrefixIsPrefix(chunks, i + 1, tr, stamp);
    ErrorEndsPipeline(chunks, i + 1, tr, stamp);
  }

  /**
   * horizontalize: the loop, then the timestamp error that the source's
   * timer raises only after the loop, then the final groupby.
   */
  method Horizontalize(chunks: seq<seq<Reading>>, tr: Table) returns (r: Result<Output, Error>)
    ensures r == Pipeline(chunks, tr, Bucket)
    ensures chunks != [] ==> r == Expected(Flatten(chunks), tr, Bucket)
  {
    var err, acc, malformed := Accumulate(chunks, tr, Bucket);
    if err.Some? {
      r := Err(err.value);
    } else {
      FinalStep(chunks, tr, Bucket, NormalizeChunks(chunks, tr, Bucket).value);
      if |chunks| == 0 {
        r := Err(NoData);
      } else if malformed {
        r := Err(BadTimestamp);
      } else {
        r := Ok(Finalize(acc));
      }
    }
    if chunks != [] {
      PipelineMeaning(chunks, tr, Bucket);
    }
  }

  lemma MergeAllSnoc(rcs: seq<seq<Row>>, rows: seq<Row>)
    ensures MergeAll(Pivots(rcs + [rows])) == Merge(MergeAll(Pivots(rcs)), Pivot(rows))
  {
    var next := rcs + [rows];
    assert next[..|next| - 1] == rcs;
    var ps := Pivots(next);
    assert ps == Pivots(rcs) + [Pivot(rows)];
    assert ps[..|ps| - 1] == Pivots(rcs);
  }

  lemma AnyMalformedSnoc(rcs: seq<seq<Row>>, rows: seq<Row>)
    ensures AnyMalformed(rcs + [rows]) <==> AnyMalformed(rcs) || Malformed(rows)
  {
    var next := rcs + [rows];
    assert next[..|next| - 1] == rcs;
  }

  /** What the method returns after the loop is the pipeline's result. */
  lemma FinalStep(chunks: seq<seq<Reading>>, tr: Table, stamp: Stamp, rcs: seq<seq<Row>>)
    requires NormalizeChunks(chunks, tr, stamp) == Ok(rcs)
    ensures Pipeline(chunks, tr, stamp) ==
      if chunks == [] then Err(NoData)
      else if AnyMalformed(rcs) then Err(BadTimestamp)
      else Ok(Finalize(MergeAll(Pivots(rcs))))
  {
    NormalizeChunksLength(chunks, tr, stamp);
    if rcs != [] && !AnyMalformed(rcs) {
      GroupedIsFinalize(Pivots(rcs));
    }
  }

  lemma {:induction false} NormalizeChunksLength(chunks: seq<seq<Reading>>, tr: Table, stamp: Stamp)
    requires NormalizeChunks(chunks, tr, stamp).Ok?
    ensures |NormalizeChunks(chunks, tr, stamp).value| == |chunks|
  {
    if chunks != [] {
      NormalizeChunksLength(chunks[..|chunks| - 1], tr, stamp);
    }
  }

  // ---------------------------------------------------------------------------
  // Lemmas: chunking does not matter
  // ---------------------------------------------------------------------------

  lemma {:induction false} ErrorEndsPipeline(chunks: seq<seq<Reading>>, n: int, tr: Table, stamp: Stamp)
    requires 0 <= n <= |chunks|
    requires NormalizeChunks(chunks[..n], tr, stamp).Err?
    ensures NormalizeChunks(chunks, tr, stamp) == NormalizeChunks(chunks[..n], tr, stamp)
    decreases |chunks| - n
  {
    if n < |chunks| {
      assert chunks[..n + 1][..n] == chunks[..n];
      ErrorEndsPipeline(chunks, n + 1, tr, stamp);
    } else {
      assert chunks[..n] == chunks;
    }
  }

  lemma {:induction false} NormalizeAllConcat(xs: seq<Reading>, ys: seq<Reading>, tr: Table, stamp: Stamp)
    ensures NormalizeAll(xs + ys, tr, stamp) ==
      match NormalizeAll(xs, tr, stamp)
      case Err(e) => Err(e)
      case Ok(a) =>
        match NormalizeAll(ys, tr, stamp)
        case Err(e) => Err(e)
        case Ok(b) => Ok(a + b)
  {
    if ys == [] {
      assert xs + ys == xs;
      if NormalizeAll(xs, tr, stamp).Ok? {
        assert NormalizeAll(xs, tr, stamp).value + [] == NormalizeAll(xs, tr, stamp).value;
      }
    } else {
      var init := ys[..|ys| - 1];
      var zs := xs + ys;
      assert zs[..|zs| - 1] == xs + init;
      assert zs[|zs| - 1] == ys[|ys| - 1];
      NormalizeAllConcat(xs, init, tr, stamp);
      if NormalizeAll(xs, tr, stamp).Ok? && NormalizeAll(init, tr, stamp).Ok? {
        var a, b := NormalizeAll(xs, tr, stamp).value, NormalizeAll(init, tr, stamp).value;
        if Normalize(ys[|ys| - 1], tr, stamp).Ok? {
          assert a + (b + [Normalize(ys[|ys| - 1], tr, stamp).value]) == (a + b) + [Normalize(ys[|ys| - 1], tr, stamp).value];
        }
      }
    }
  }

  /** Translating chunk by chunk is translating the concatenated file. */
  lemma {:induction false} NormalizeChunksFlatten(chunks: seq<seq<Reading>>, tr: Table, stamp: Stamp)
    ensures NormalizeChunks(chunks, tr, stamp).Err? ==>
      NormalizeAll(Flatten(chunks), tr, stamp) == Err(NormalizeChunks(chunks, tr, stamp).error)
    ensures NormalizeChunks(chunks, tr, stamp).Ok? ==>
      |NormalizeChunks(chunks, tr, stamp).value| == |chunks| &&
      NormalizeAll(Flatten(chunks), tr, stamp) == Ok(Flatten(NormalizeChunks(chunks, tr, stamp).value))
  {
    if chunks != [] {
      var init := chunks[..|chunks| - 1];
      NormalizeChunksFlatten(init, tr, stamp);
      NormalizeAllConcat(Flatten(init), chunks[|chunks| - 1], tr, stamp);
      if NormalizeChunks(chunks, tr, stamp).Ok? {
        var rcs := NormalizeChunks(chunks, tr, stamp).value;
        var rcs0 := NormalizeChunks(init, tr, stamp).value;
        assert rcs[..|rcs| - 1] == rcs0;
      }
    }
  }

  lemma {:induction false} AnyMalformedFlatten(rcs: seq<seq<Row>>)
    ensures AnyMalformed(rcs) <==> Malformed(Flatten(rcs))
  {
    if rcs != [] {
      var init := rcs[..|rcs| - 1];
      AnyMalformedFlatten(init);
      MalformedConcat(Flatten(init), rcs[|rcs| - 1]);
    }
  }

  lemma {:induction false} KeysConcat(xs: seq<Row>, ys: seq<Row>)
    ensures Keys(xs + ys) == Keys(xs) + Keys(ys)
  {
    if ys == [] {
      assert xs + ys == xs;
    } else {
      var zs := xs + ys;
      var init := ys[..|ys| - 1];
      assert zs[..|zs| - 1] == xs + init;
      assert zs[|zs| - 1] == ys[|ys| - 1];
      KeysConcat(xs, init);
    }
  }

  lemma {:induction false} ValuesAtConcat(xs: seq<Row>, ys: seq<Row>, k: Key)
    ensures ValuesAt(xs + ys, k) == ValuesAt(xs, k) + ValuesAt(ys, k)
  {
    if ys == [] {
      assert xs + ys == xs;
    } else {
      var zs := xs + ys;
      var init := ys[..|ys| - 1];
      assert zs[..|zs| - 1] == xs + init;
      assert zs[|zs| - 1] == ys[|ys| - 1];
      ValuesAtConcat(xs, init, k);
    }
  }

  /** A cell that no row feeds receives no value, null or not. */
  lemma {:induction false} ValuesAtKeys(rows: seq<Row>, k: Key)
    ensures k in Keys(rows) <==> ValuesAt(rows, k) != []
  {
    if rows != [] {
      ValuesAtKeys(rows[..|rows| - 1], k);
    }
  }

  /** The pivot of two blocks of rows is the merge of their pivots. */
  lemma PivotConcat(xs: seq<Row>, ys: seq<Row>)
    ensures Pivot(xs + ys) == Merge(Pivot(xs), Pivot(ys))
  {
    var l, r := Pivot(xs + ys), Merge(Pivot(xs), Pivot(ys));
    PivotConcatKeys(xs, ys);
    forall k | k in l ensures l[k] == r[k] {
      PivotConcatAt(xs, ys, k);
    }
  }

  lemma PivotConcatKeys(xs: seq<Row>, ys: seq<Row>)
    ensures Pivot(xs + ys).Keys == Merge(Pivot(xs), Pivot(ys)).Keys
  {
    KeysConcat(xs, ys);
    assert Pivot(xs + ys).Keys == Keys(xs + ys);
    assert Pivot(xs).Keys == Keys(xs);
    assert Pivot(ys).Keys == Keys(ys);
    MergeKeys(Pivot(xs), Pivot(ys));
  }

  lemma PivotConcatAt(xs: seq<Row>, ys: seq<Row>, k: Key)
    requires k in Pivot(xs + ys) && k in Merge(Pivot(xs), Pivot(ys))
    ensures Pivot(xs + ys)[k] == Merge(Pivot(xs), Pivot(ys))[k]
  {
    ValuesAtConcat(xs, ys, k);
    MapperConcat(ValuesAt(xs, k), ValuesAt(ys, k));
    ValuesAtKeys(xs, k);
    ValuesAtKeys(ys, k);
  }

  /** The order of two blocks of rows does not change the pivot. */
  lemma PivotOrderIndependent(xs: seq<Row>, ys: seq<Row>)
    ensures Pivot(xs + ys) == Pivot(ys + xs)
  {
    PivotConcat(xs, ys);
    PivotConcat(ys, xs);
    MergeCommutes(Pivot(xs), Pivot(ys));
  }

  /** Merging the per-chunk pivots gives the pivot of the whole file. */
  lemma {:induction false} MergeAllPivots(rcs: seq<seq<Row>>)
    ensures MergeAll(Pivots(rcs)) == Pivot(Flatten(rcs))
  {
    if rcs == [] {
      assert Pivot([]) == map[];
    } else {
      var init := rcs[..|rcs| - 1];
      MergeAllPivots(init);
      PivotConcat(Flatten(init), rcs[|rcs| - 1]);
      var ps := Pivots(rcs);
      assert ps[..|ps| - 1] == Pivots(init);
    }
  }

  lemma RowKeysMerge(a: map<Key, Partial>, b: map<Key, Partial>)
    ensures RowKeys(Merge(a, b)) == RowKeys(a) + RowKeys(b)
    ensures Columns(Merge(a, b)) == Columns(a) + Columns(b)
  {
    var m := Merge(a, b);
    forall rk | rk in RowKeys(a) + RowKeys(b) ensures rk in RowKeys(m) {
      var k :| (k in a || k in b) && (k.0, k.1) == rk;
      assert k in m;
    }
    forall v | v in Columns(a) + Columns(b) ensures v in Columns(m) {
      var k :| (k in a || k in b) && k.2 == v;
      assert k in m;
    }
  }

  lemma {:induction false} AllRowKeysMerged(ps: seq<map<Key, Partial>>)
    ensures AllRowKeys(ps) == RowKeys(MergeAll(ps))
    ensures AllColumns(ps) == Columns(MergeAll(ps))
  {
    if ps != [] {
      AllRowKeysMerged(ps[..|ps| - 1]);
      RowKeysMerge(MergeAll(ps[..|ps| - 1]), ps[|ps| - 1]);
    } else {
      assert RowKeys(map[]) == {};
      assert Columns(map[]) == {};
    }
  }

  /**
   * The column the reducer receives holds a pair exactly when the merged
   * accumulator has the cell, and its pairs add up to the merged pair.
   */
  lemma {:induction false} EntriesTotal(ps: seq<map<Key, Partial>>, rk: RowKey, v: string)
    ensures AnyPresent(Entries(ps, rk, v)) <==> (rk.0, rk.1, v) in MergeAll(ps)
    ensures Total(DropMissing(Entries(ps, rk, v))) == Get(MergeAll(ps), (rk.0, rk.1, v))
  {
    var k := (rk.0, rk.1, v);
    if ps == [] {
      assert Entries(ps, rk, v) == [];
    } else {
      var init := ps[..|ps| - 1];
      var p := ps[|ps| - 1];
      EntriesTotal(init, rk, v);
      var e0 := Entries(init, rk, v);
      var m0 := MergeAll(init);
      assert MergeAll(ps) == Merge(m0, p);
      assert k in p ==> rk in RowKeys(p);
      if rk in RowKeys(p) {
        var x := if k in p then Some(p[k]) else None;
        assert Entries(ps, rk, v) == e0 + [x];
        AppendEntry(e0, x);
      } else {
        assert Entries(ps, rk, v) == e0;
      }
    }
  }

  /** The reducer's result for one column is the cell of the merged accumulator. */
  lemma ReducedCell(ps: seq<map<Key, Partial>>, rk: RowKey, v: string)
    requires rk in AllRowKeys(ps)
    ensures Reducer(Entries(ps, rk, v)) == CellAt(MergeAll(ps), (rk.0, rk.1, v))
  {
    EntriesTotal(ps, rk, v);
    ReducerDropsMissing(Entries(ps, rk, v));
  }

  /** What the source's groupby and reducer compute is the table of the merged accumulator. */
  lemma GroupedIsFinalize(ps: seq<map<Key, Partial>>)
    ensures Grouped(ps) == Finalize(MergeAll(ps))
  {
    var m := MergeAll(ps);
    AllRowKeysMerged(ps);
    var g, f := Grouped(ps), Finalize(m);
    assert g.Keys == f.Keys;
    forall rk | rk in g ensures g[rk] == f[rk] {
      ReducedRowIsFinal(ps, rk);
    }
  }

  lemma ReducedRowIsFinal(ps: seq<map<Key, Partial>>, rk: RowKey)
    requires rk in AllRowKeys(ps)
    ensures ReducedRow(ps, rk) == FinalRow(MergeAll(ps), rk)
  {
    var m := MergeAll(ps);
    AllRowKeysMerged(ps);
    var g, f := ReducedRow(ps, rk), FinalRow(m, rk);
    assert g.Keys == f.Keys;
    forall v | v in g ensures g[v] == f[v] {
      ReducedCell(ps, rk, v);
    }
  }

  /**
   * The source's data flow computes the meaning: for any split of the file
   * into chunks, horizontalize returns the per-cell means over the whole file.
   */
  lemma PipelineMeaning(chunks: seq<seq<Reading>>, tr: Table, stamp: Stamp)
    requires chunks != []
    ensures Pipeline(chunks, tr, stamp) == Expected(Flatten(chunks), tr, stamp)
  {
    NormalizeChunksFlatten(chunks, tr, stamp);
    if NormalizeChunks(chunks, tr, stamp).Ok? {
      var rcs := NormalizeChunks(chunks, tr, stamp).value;
      AnyMalformedFlatten(rcs);
      MergeAllPivots(rcs);
      GroupedIsFinalize(Pivots(rcs));
    }
  }

  /** Two splits of the same rows into chunks give the same table. */
  lemma ChunkingInvariant(c1: seq<seq<Reading>>, c2: seq<seq<Reading>>, tr: Table, stamp: Stamp)
    requires c1 != [] && c2 != []
    requires Flatten(c1) == Flatten(c2)
    ensures Pipeline(c1, tr, stamp) == Pipeline(c2, tr, stamp)
  {
    PipelineMeaning(c1, tr, stamp);
    PipelineMeaning(c2, tr, stamp);
  }

  // ---------------------------------------------------------------------------
  // Lemmas: what the table holds
  // ---------------------------------------------------------------------------

  /** A translated row keeps its reading's asset and carries the reading's bucket. */
  lemma RowOfReading(readings: seq<Reading>, tr: Table, stamp: Stamp, rows: seq<Row>, i: int)
    requires NormalizeAll(readings, tr, stamp) == Ok(rows) && 0 <= i < |readings|
    ensures |rows| == |readings|
    ensures rows[i].asset == readings[i].asset
    ensures rows[i].bucket == stamp(readings[i].date, readings[i].time)
  {
    NormalizeAllMeaning(readings, tr, stamp);
    assert Normalize(readings[i], tr, stamp) == Ok(rows[i]);
  }

  predicate Occurs(readings: seq<Reading>, stamp: Stamp, rk: RowKey) {
    exists i | 0 <= i < |readings| :: readings[i].asset == rk.0 && stamp(readings[i].date, readings[i].time) == Some(rk.1)
  }

  lemma OutputRowOccurs(readings: seq<Reading>, tr: Table, stamp: Stamp, rows: seq<Row>, rk: RowKey)
    requires NormalizeAll(readings, tr, stamp) == Ok(rows)
    requires rk in RowKeys(Pivot(rows))
    ensures Occurs(readings, stamp, rk)
  {
    var acc := Pivot(rows);
    var k :| k in acc && (k.0, k.1) == rk;
    KeysMeaning(rows, k);
    var i :| 0 <= i < |rows| && KeyOf(rows[i]) == Some(k);
    NormalizeAllMeaning(readings, tr, stamp);
    RowOfReading(readings, tr, stamp, rows, i);
  }

  lemma OccurringRowIsOutput(readings: seq<Reading>, tr: Table, stamp: Stamp, rows: seq<Row>, rk: RowKey)
    requires NormalizeAll(readings, tr, stamp) == Ok(rows)
    requires Occurs(readings, stamp, rk)
    ensures rk in RowKeys(Pivot(rows))
  {
    var i :| 0 <= i < |readings| && readings[i].asset == rk.0 && stamp(readings[i].date, readings[i].time) == Some(rk.1);
    RowOfReading(readings, tr, stamp, rows, i);
    var k := (rk.0, rk.1, rows[i].name);
    assert KeyOf(rows[i]) == Some(k);
    KeysMeaning(rows, k);
    assert k in Pivot(rows);
  }

  /** Output rows exist exactly for the (asset, unixtime) pairs of the input. */
  lemma OutputRowsOccur(readings: seq<Reading>, tr: Table, stamp: Stamp, out: Output)
    requires Expected(readings, tr, stamp) == Ok(out)
    ensures forall rk :: rk in out <==> Occurs(readings, stamp, rk)
  {
    var rows := NormalizeAll(readings, tr, stamp).value;
    assert out == Finalize(Pivot(rows));
    forall rk ensures rk in out <==> Occurs(readings, stamp, rk) {
      if rk in out {
        OutputRowOccurs(readings, tr, stamp, rows, rk);
      }
      if Occurs(readings, stamp, rk) {
        OccurringRowIsOutput(readings, tr, stamp, rows, rk);
      }
    }
  }

  /**
   * Each cell is the mean of the non-null values fed to it over the whole file;
   * a cell fed only nulls is NaN, not zero; a cell nothing fed, in a row and a
   * column that exist, is Null.
   */
  lemma CellIsMeanOfNonNull(readings: seq<Reading>, tr: Table, stamp: Stamp, rk: RowKey, v: string)
    requires NormalizeAll(readings, tr, stamp).Ok?
    requires Expected(readings, tr, stamp).Ok?
    requires rk in Expected(readings, tr, stamp).value && v in Expected(readings, tr, stamp).value[rk]
    ensures
      var values := ValuesAt(NormalizeAll(readings, tr, stamp).value, (rk.0, rk.1, v));
      var nonNull := Present(values);
      Expected(readings, tr, stamp).value[rk][v] ==
        if values == [] then Null
        else if nonNull == [] then NaN
        else Mean(Sum(nonNull) / |nonNull| as real)
  {
    var rows := NormalizeAll(readings, tr, stamp).value;
    var k := (rk.0, rk.1, v);
    ValuesAtKeys(rows, k);
    MapperSkipsNulls(ValuesAt(rows, k));
  }
}
