/**
 The canonical case record that the row normaliser writes to `data.json`
 and that the three aggregation scripts read back.
 */
module CaseRecords {
  import opened Wrappers
  import opened Seqs
  import opened JsText
  import opened JsNumbers
  import opened JsDates

  /**
   One record: `EDI Primary Case Issues`, `Original Publication Date`
   (None for `undefined`) and `Disciplines`.
   */
  datatype CaseRecord = CaseRecord(issue: string, date: Option<string>, disciplines: seq<string>)

  /**
   `getYear(entry['Original Publication Date'])` (the same one-liner in
   each aggregation script): the year component of the record's canonical
   date string, nothing when there is no such string.
   */
  function YearOf(r: CaseRecord): Option<int>
  {
    match r.date
    case Some(s) => FullYearOf(s)
    case None => None
  }

  predicate HasYear(r: CaseRecord)
  {
    YearOf(r).Some?
  }

  /** Every record carries a readable date, as every record the normaliser keeps does. */
  predicate AllHaveYears(data: seq<CaseRecord>)
  {
    forall i :: 0 <= i < |data| ==> HasYear(data[i])
  }

  /**
   The property key a year becomes when it indexes an object: the decimal
   text of the year, or "NaN" for the year of an invalid date.
   */
  function YearKey(y: Option<int>): (k: string)
    ensures k != []
  {
    match y
    case Some(n) => IntToString(n)
    case None => "NaN"
  }

  /** `parseInt(key, 10)` gives the year back, NaN included. */
  lemma ParseYearKey(y: Option<int>)
    ensures ParseInt(YearKey(y)) == y
  {
    match y
    case Some(n) => ParseIntOfIntToString(n);
    case None => ParseIntOfNaN();
  }

  /** The key a record is counted under: `getYear(entry['Original Publication Date'])` used as an object key. */
  function RecordYearKey(r: CaseRecord): string
  {
    YearKey(YearOf(r))
  }

  /** Distinct years have distinct keys. */
  lemma YearKeyInjective(a: Option<int>, b: Option<int>)
    ensures YearKey(a) == YearKey(b) ==> a == b
  {
    ParseYearKey(a);
    ParseYearKey(b);
  }

  /** The year of each record, in order. */
  function Years(data: seq<CaseRecord>): (ys: seq<Option<int>>)
    ensures |ys| == |data|
  {
    if data == [] then [] else Years(data[..|data| - 1]) + [YearOf(data[|data| - 1])]
  }

  /** The property key each year becomes when it indexes an object. */
  function YearKeys(ys: seq<Option<int>>): (ks: seq<string>)
    ensures |ks| == |ys|
  {
    if ys == [] then [] else YearKeys(ys[..|ys| - 1]) + [YearKey(ys[|ys| - 1])]
  }

  lemma {:induction false} YearKeysAt(ys: seq<Option<int>>)
    ensures forall i :: 0 <= i < |ys| ==> YearKeys(ys)[i] == YearKey(ys[i])
  {
    if ys != [] {
      YearKeysAt(ys[..|ys| - 1]);
    }
  }

  /** Every key is the key of one of the years, and `parseInt` reads that year back. */
  lemma YearKeysMembers(ys: seq<Option<int>>)
    ensures forall k :: k in YearKeys(ys) ==> ParseInt(k) in ys && k == YearKey(ParseInt(k))
    ensures forall y :: y in ys ==> YearKey(y) in YearKeys(ys)
  {
    var ks := YearKeys(ys);
    YearKeysAt(ys);
    forall k | k in ks ensures ParseInt(k) in ys && k == YearKey(ParseInt(k)) {
      var i :| 0 <= i < |ks| && ks[i] == k;
      ParseYearKey(ys[i]);
    }
    forall y | y in ys ensures YearKey(y) in ks {
      var i :| 0 <= i < |ys| && ys[i] == y;
      assert ks[i] == YearKey(y);
    }
  }

  /** A year's key occurs as often as the year. */
  lemma {:induction false} YearKeysOcc(ys: seq<Option<int>>, y: Option<int>)
    ensures Occ(YearKeys(ys), YearKey(y)) == Occ(ys, y)
  {
    if ys != [] {
      var p := ys[..|ys| - 1];
      var z := ys[|ys| - 1];
      YearKeysOcc(p, y);
      assert ys == p + [z];
      OccConcat(p, [z], y);
      OccConcat(YearKeys(p), [YearKey(z)], YearKey(y));
      YearKeyInjective(z, y);
    }
  }
}
