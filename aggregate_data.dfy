/**
 The year aggregation (`aggregatedata.js`): the records of `data.json`
 counted per publication year in a plain object keyed by the year, then
 flattened into `{year, count}` objects in the order `Object.keys` lists
 the object's keys. A year is None when the record's date does not parse
 (`getFullYear()` is then NaN, and NaN is counted under the key "NaN").
 */
module AggregateData {
  import opened Wrappers
  import opened Seqs
  import opened JsText
  import opened JsNumbers
  import opened JsObjects
  import opened CaseRecords

  /** One object of `aggregatedData.json`; a `year` of None is NaN. */
  datatype YearCount = YearCount(year: Option<int>, count: int)

  /** `countsByYear` after the `forEach`: one count per record under its year's key. */
  function CountsByYear(data: seq<CaseRecord>): Dict<int>
  {
    Tally(YearKeys(Years(data)))
  }

  /** `keys.map(year => ({year: parseInt(year, 10), count: counts[year]}))`. */
  function Flatten(counts: Dict<int>, keys: seq<string>): (r: seq<YearCount>)
    ensures |r| == |keys|
  {
    if keys == [] then []
    else
      var k := keys[|keys| - 1];
      Flatten(counts, keys[..|keys| - 1]) + [YearCount(ParseInt(k), counts.Get(k, 0))]
  }

  lemma {:induction false} FlattenAt(counts: Dict<int>, keys: seq<string>, i: nat)
    requires i < |keys|
    ensures Flatten(counts, keys)[i] == YearCount(ParseInt(keys[i]), counts.Get(keys[i], 0))
  {
    if i < |keys| - 1 {
      FlattenAt(counts, keys[..|keys| - 1], i);
    }
  }

  /** Counting one more record adds one under its year's key. */
  lemma CountsStep(data: seq<CaseRecord>, i: nat)
    requires i < |data|
    ensures CountsByYear(data[..i + 1]) == Increment(CountsByYear(data[..i]), YearKey(YearOf(data[i])))
  {
    var p := data[..i + 1];
    assert p[..i] == data[..i];
    var ys := Years(p);
    assert ys == Years(data[..i]) + [YearOf(data[i])];
    assert ys[..|ys| - 1] == Years(data[..i]);
    var ks := YearKeys(ys);
    assert ks == YearKeys(Years(data[..i])) + [YearKey(YearOf(data[i]))];
    assert ks[..|ks| - 1] == YearKeys(Years(data[..i]));
  }

  /** The keys of `countsByYear` in `Object.keys` order. */
  function CountKeys(data: seq<CaseRecord>): seq<string>
  {
    CountsByYear(data).Keys()
  }

  /** The keys are the distinct year keys, listed once each, and `parseInt` reads each as its year. */
  lemma CountKeysFacts(data: seq<CaseRecord>)
    ensures NoDup(CountKeys(data))
    ensures forall k :: k in CountKeys(data) <==> k in YearKeys(Years(data))
    ensures forall k :: k in CountKeys(data) ==> ParseInt(k) in Years(data) && k == YearKey(ParseInt(k))
    ensures forall k :: CountsByYear(data).Get(k, 0) == Occ(YearKeys(Years(data)), k)
  {
    var ks := YearKeys(Years(data));
    TallyFacts(ks);
    OwnKeysNoDup(Tally(ks).created);
    YearKeysMembers(Years(data));
  }

  /** `aggregatedData`. */
  function Aggregated(data: seq<CaseRecord>): seq<YearCount>
  {
    Flatten(CountsByYear(data), CountKeys(data))
  }

  /** The `i`-th object holds the year of the `i`-th key and the number of records from that year. */
  lemma AggregatedAt(data: seq<CaseRecord>, i: nat)
    requires i < |Aggregated(data)|
    ensures i < |CountKeys(data)| && CountKeys(data)[i] == YearKey(Aggregated(data)[i].year)
    ensures Aggregated(data)[i].year in Years(data)
    ensures Aggregated(data)[i].count == Occ(Years(data), Aggregated(data)[i].year)
  {
    CountKeysFacts(data);
    var keys := CountKeys(data);
    FlattenAt(CountsByYear(data), keys, i);
    assert keys[i] in keys;
    YearKeysOcc(Years(data), Aggregated(data)[i].year);
  }

  /** No year is listed twice. */
  lemma AggregatedUnique(data: seq<CaseRecord>)
    ensures forall i, j :: 0 <= i < j < |Aggregated(data)| ==> Aggregated(data)[i].year != Aggregated(data)[j].year
  {
    CountKeysFacts(data);
    forall i, j | 0 <= i < j < |Aggregated(data)| ensures Aggregated(data)[i].year != Aggregated(data)[j].year {
      AggregatedAt(data, i);
      AggregatedAt(data, j);
    }
  }

  /** Every year that some record has is listed, and only those. */
  lemma AggregatedCovers(data: seq<CaseRecord>)
    ensures forall i :: 0 <= i < |Aggregated(data)| ==> Aggregated(data)[i].year in Years(data)
    ensures forall y :: y in Years(data) ==> exists i :: 0 <= i < |Aggregated(data)| && Aggregated(data)[i].year == y
  {
    CountKeysFacts(data);
    var keys := CountKeys(data);
    forall i | 0 <= i < |Aggregated(data)| ensures Aggregated(data)[i].year in Years(data) {
      AggregatedAt(data, i);
    }
    forall y | y in Years(data) ensures exists i :: 0 <= i < |Aggregated(data)| && Aggregated(data)[i].year == y {
      YearKeysMembers(Years(data));
      var i :| 0 <= i < |keys| && keys[i] == YearKey(y);
      AggregatedAt(data, i);
      YearKeyInjective(Aggregated(data)[i].year, y);
    }
  }

  /** Each count is the number of records from its year, so at least one. */
  lemma AggregatedCounts(data: seq<CaseRecord>)
    ensures forall i :: 0 <= i < |Aggregated(data)| ==>
              Aggregated(data)[i].count == Occ(Years(data), Aggregated(data)[i].year) && Aggregated(data)[i].count >= 1
  {
    forall i | 0 <= i < |Aggregated(data)|
      ensures Aggregated(data)[i].count == Occ(Years(data), Aggregated(data)[i].year) && Aggregated(data)[i].count >= 1
    {
      AggregatedAt(data, i);
    }
  }

  /** The counts added up. */
  function TotalCount(cs: seq<YearCount>): int
  {
    if cs == [] then 0 else TotalCount(cs[..|cs| - 1]) + cs[|cs| - 1].count
  }

  lemma {:induction false} TotalCountFlatten(counts: Dict<int>, keys: seq<string>, xs: seq<string>)
    requires forall k :: counts.Get(k, 0) == Occ(xs, k)
    ensures TotalCount(Flatten(counts, keys)) == SumOccs(keys, xs)
  {
    if keys != [] {
      TotalCountFlatten(counts, keys[..|keys| - 1], xs);
    }
  }

  /** The counts add up to the number of records: every record is counted once. */
  lemma AggregatedTotal(data: seq<CaseRecord>)
    ensures TotalCount(Aggregated(data)) == |data|
  {
    CountKeysFacts(data);
    var ks := YearKeys(Years(data));
    TotalCountFlatten(CountsByYear(data), CountKeys(data), ks);
    SumOccsAll(CountKeys(data), ks);
  }

  /**
   The order `Object.keys` imposes: a year from 0 to 2^32 - 2 (every year
   of a real date from 0 on) is an array index, so such years come first and
   in ascending order; negative years and NaN follow.
   */
  lemma AggregatedOrder(data: seq<CaseRecord>, i: nat, j: nat)
    requires i < j < |Aggregated(data)|
    requires Aggregated(data)[j].year.Some? && 0 <= Aggregated(data)[j].year.value <= MaxArrayIndex
    ensures Aggregated(data)[i].year.Some?
    ensures 0 <= Aggregated(data)[i].year.value < Aggregated(data)[j].year.value
  {
    var created := CountsByYear(data).created;
    AggregatedAt(data, i);
    AggregatedAt(data, j);
    TallyFacts(YearKeys(Years(data)));
    IntKeyClass(Aggregated(data)[j].year.value);
    OwnKeysOrder(created, i, j);
    assert !IsArrayIndex("NaN") by { assert !IsDigit("NaN"[0]); }
    if Aggregated(data)[i].year.Some? {
      IntKeyClass(Aggregated(data)[i].year.value);
    }
  }

  /**
   What `aggregatedData.json` promises about `data.json`: each year listed
   once, every year of a record listed, each count the number of records from
   its year, and the counts adding up to the number of records.
   */
  ghost predicate AggregatesYears(data: seq<CaseRecord>, r: seq<YearCount>)
  {
    && (forall i, j :: 0 <= i < j < |r| ==> r[i].year != r[j].year)
    && (forall i :: 0 <= i < |r| ==> r[i].count == Occ(Years(data), r[i].year) && r[i].count >= 1)
    && (forall y :: y in Years(data) ==> exists i :: 0 <= i < |r| && r[i].year == y)
    && TotalCount(r) == |data|
  }

  lemma AggregatedProperties(data: seq<CaseRecord>)
    ensures AggregatesYears(data, Aggregated(data))
  {
    AggregatedUnique(data);
    AggregatedCounts(data);
    AggregatedCovers(data);
    AggregatedTotal(data);
  }

  /**
   `aggregateData` between reading `data.json` and writing
   `aggregatedData.json`: the `forEach` loop counting each record under its
   year (`if (!countsByYear[year]) countsByYear[year] = 0;` then
   `countsByYear[year]++`), then the `map` over `Object.keys(countsByYear)`.
   */
  method AggregateData(rawData: seq<CaseRecord>) returns (aggregatedData: seq<YearCount>)
    ensures aggregatedData == Aggregated(rawData)
    ensures AggregatesYears(rawData, aggregatedData)
  {
    var countsByYear: Dict<int> := Empty();
    var i := 0;
    while i < |rawData|
      invariant 0 <= i <= |rawData|
      invariant countsByYear == CountsByYear(rawData[..i])
    {
      var year := YearOf(rawData[i]);
      var key := YearKey(year);
      ResetThenIncrement(countsByYear, key);
      CountsStep(rawData, i);
      if countsByYear.Get(key, 0) == 0 {
        countsByYear := countsByYear.Put(key, 0);
      }
      countsByYear := countsByYear.Put(key, countsByYear.Get(key, 0) + 1);
      i := i + 1;
    }
    assert rawData[..|rawData|] == rawData;
    aggregatedData := Flatten(countsByYear, countsByYear.Keys());
    AggregatedProperties(rawData);
  }
}
