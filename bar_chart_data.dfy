/**
 The bar-chart preparation (`processBarChartData.js`): every discipline of
 every record is counted in a three-level plain object keyed by year, then
 discipline, then issue; the object is flattened into `{year, discipline,
 issue, count}` objects in `Object.keys` order at each level, and the array
 is sorted by year with the comparator `a.year - b.year`.
 */
module ProcessBarChartData {
  import opened Wrappers
  import opened Seqs
  import opened JsNumbers
  import opened JsObjects
  import opened CaseRecords

  /** One object of `barChartData.json`; a `year` of None is NaN. */
  datatype BarEntry = BarEntry(year: Option<int>, discipline: string, issue: string, count: int)

  /** The three keys under which one count sits: year key, discipline, issue. */
  type Path = (string, string, string)

  /** `yearDisciplineIssueMap`. */
  type Nested = Dict<Dict<Dict<int>>>

  /** The keys one record contributes: one path per discipline, in order. */
  function RecordPaths(year: string, ds: seq<string>, issue: string): (r: seq<Path>)
    ensures |r| == |ds|
  {
    if ds == [] then [] else RecordPaths(year, ds[..|ds| - 1], issue) + [(year, ds[|ds| - 1], issue)]
  }

  /** The paths of the records in order, each record's year key given by `key`. */
  function PathsBy(data: seq<CaseRecord>, key: CaseRecord -> string): seq<Path>
  {
    if data == [] then []
    else
      var r := data[|data| - 1];
      PathsBy(data[..|data| - 1], key) + RecordPaths(key(r), r.disciplines, r.issue)
  }

  /** Every (year key, discipline, issue) the `forEach` loops count, in order. */
  function Events(data: seq<CaseRecord>): seq<Path>
  {
    PathsBy(data, RecordYearKey)
  }

  /** The number of disciplines over all records. */
  function DisciplineTotal(data: seq<CaseRecord>): nat
  {
    if data == [] then 0 else DisciplineTotal(data[..|data| - 1]) + |data[|data| - 1].disciplines|
  }

  lemma {:induction false} RecordPathsAt(year: string, ds: seq<string>, issue: string)
    ensures forall j :: 0 <= j < |ds| ==> RecordPaths(year, ds, issue)[j] == (year, ds[j], issue)
  {
    if ds != [] {
      RecordPathsAt(year, ds[..|ds| - 1], issue);
    }
  }

  lemma {:induction false} PathsByCount(data: seq<CaseRecord>, key: CaseRecord -> string)
    ensures |PathsBy(data, key)| == DisciplineTotal(data)
  {
    if data != [] {
      PathsByCount(data[..|data| - 1], key);
    }
  }

  lemma {:induction false} PathsByCover(data: seq<CaseRecord>, key: CaseRecord -> string)
    ensures forall i, j :: 0 <= i < |data| && 0 <= j < |data[i].disciplines| ==>
              (key(data[i]), data[i].disciplines[j], data[i].issue) in PathsBy(data, key)
  {
    if data != [] {
      var n := |data| - 1;
      var q := data[..n];
      var r := data[n];
      var rp := RecordPaths(key(r), r.disciplines, r.issue);
      PathsByCover(q, key);
      RecordPathsAt(key(r), r.disciplines, r.issue);
      assert PathsBy(data, key) == PathsBy(q, key) + rp;
      forall i, j | 0 <= i < |data| && 0 <= j < |data[i].disciplines|
        ensures (key(data[i]), data[i].disciplines[j], data[i].issue) in PathsBy(q, key) + rp
      {
        if i < n {
          assert data[i] == q[i];
          assert (key(q[i]), q[i].disciplines[j], q[i].issue) in PathsBy(q, key);
        } else {
          assert rp[j] == (key(data[i]), data[i].disciplines[j], data[i].issue);
        }
      }
    }
  }

  lemma {:induction false} PathsByFromRecords(data: seq<CaseRecord>, key: CaseRecord -> string)
    ensures forall p :: p in PathsBy(data, key) ==>
              exists i, j :: 0 <= i < |data| && 0 <= j < |data[i].disciplines| &&
                p == (key(data[i]), data[i].disciplines[j], data[i].issue)
  {
    if data != [] {
      var n := |data| - 1;
      var q := data[..n];
      var r := data[n];
      var rp := RecordPaths(key(r), r.disciplines, r.issue);
      PathsByFromRecords(q, key);
      RecordPathsAt(key(r), r.disciplines, r.issue);
      assert PathsBy(data, key) == PathsBy(q, key) + rp;
      forall p | p in PathsBy(q, key) + rp
        ensures exists i, j :: 0 <= i < |data| && 0 <= j < |data[i].disciplines| &&
                  p == (key(data[i]), data[i].disciplines[j], data[i].issue)
      {
        if p in PathsBy(q, key) {
          var i, j :| 0 <= i < |q| && 0 <= j < |q[i].disciplines| &&
            p == (key(q[i]), q[i].disciplines[j], q[i].issue);
          assert q[i] == data[i];
        } else {
          var j :| 0 <= j < |rp| && rp[j] == p;
          assert p == (key(data[n]), data[n].disciplines[j], data[n].issue);
        }
      }
    }
  }

  /** One path per discipline of every record. */
  lemma EventsCount(data: seq<CaseRecord>)
    ensures |Events(data)| == DisciplineTotal(data)
  {
    PathsByCount(data, RecordYearKey);
  }

  /** The path of the `j`-th discipline of record `i` is counted. */
  lemma EventsCover(data: seq<CaseRecord>)
    ensures forall i, j :: 0 <= i < |data| && 0 <= j < |data[i].disciplines| ==>
              (RecordYearKey(data[i]), data[i].disciplines[j], data[i].issue) in Events(data)
  {
    PathsByCover(data, RecordYearKey);
  }

  /** Every counted path is that of some discipline of some record. */
  lemma EventsFromRecords(data: seq<CaseRecord>)
    ensures forall p :: p in Events(data) ==>
              exists i, j :: 0 <= i < |data| && 0 <= j < |data[i].disciplines| &&
                p == (RecordYearKey(data[i]), data[i].disciplines[j], data[i].issue)
  {
    PathsByFromRecords(data, RecordYearKey);
  }

  /** The year key of every counted path is the key of the year that `parseInt` reads from it. */
  lemma EventsYearKeys(data: seq<CaseRecord>)
    ensures forall p :: p in Events(data) ==> p.0 == YearKey(ParseInt(p.0))
  {
    EventsFromRecords(data);
    forall p | p in Events(data) ensures p.0 == YearKey(ParseInt(p.0)) {
      var i, j :| 0 <= i < |data| && 0 <= j < |data[i].disciplines| &&
        p == (RecordYearKey(data[i]), data[i].disciplines[j], data[i].issue);
      ParseYearKey(YearOf(data[i]));
    }
  }

  /**
   One count under a path: `m[year]` and `m[year][discipline]` created as
   `{}` when missing, then `m[year][discipline][issue]` set to 1 or incremented.
   */
  function IncrementTriple(m: Nested, p: Path): Nested
  {
    m.Put(p.0, IncrementPair(m.Get(p.0, Empty()), p.1, p.2))
  }

  /** The nested object after counting every path of `ps` in turn, starting from `{}`. */
  function TallyTriples(ps: seq<Path>): Nested
  {
    if ps == [] then Empty() else IncrementTriple(TallyTriples(ps[..|ps| - 1]), ps[|ps| - 1])
  }

  function FirstsOf(ps: seq<Path>): (r: seq<string>)
    ensures |r| == |ps|
  {
    if ps == [] then [] else FirstsOf(ps[..|ps| - 1]) + [ps[|ps| - 1].0]
  }

  /** The (discipline, issue) pairs of the paths under year key `a`, in order. */
  function PairsOf(ps: seq<Path>, a: string): seq<(string, string)>
  {
    if ps == [] then []
    else
      var p := PairsOf(ps[..|ps| - 1], a);
      var last := ps[|ps| - 1];
      if last.0 == a then p + [(last.1, last.2)] else p
  }

  /** The outer keys are the distinct year keys; under each sits the pair count of its paths. */
  lemma {:induction false} TallyTriplesFacts(ps: seq<Path>)
    ensures TallyTriples(ps).Valid()
    ensures TallyTriples(ps).created == Distinct(FirstsOf(ps))
    ensures forall a :: TallyTriples(ps).Get(a, Empty()) == TallyPairs(PairsOf(ps, a))
  {
    if ps != [] {
      var p := ps[..|ps| - 1];
      var last := ps[|ps| - 1];
      TallyTriplesFacts(p);
      assert FirstsOf(ps)[..|ps| - 1] == FirstsOf(p);
      forall a ensures TallyTriples(ps).Get(a, Empty()) == TallyPairs(PairsOf(ps, a)) {
        if a == last.0 {
          var s := PairsOf(ps, a);
          assert s[..|s| - 1] == PairsOf(p, a);
        }
      }
    }
  }

  lemma {:induction false} OccPairsOf(ps: seq<Path>, a: string, b: string, c: string)
    ensures Occ(PairsOf(ps, a), (b, c)) == Occ(ps, (a, b, c))
  {
    if ps != [] {
      var p := ps[..|ps| - 1];
      var last := ps[|ps| - 1];
      OccPairsOf(p, a, b, c);
      assert ps == p + [last];
      OccConcat(p, [last], (a, b, c));
      if last.0 == a {
        OccConcat(PairsOf(p, a), [(last.1, last.2)], (b, c));
      }
    }
  }

  /** `m[year][discipline][issue]`, with 0 for a missing key at any level. */
  function Count(m: Nested, p: Path): int
  {
    m.Get(p.0, Empty()).Get(p.1, Empty()).Get(p.2, 0)
  }

  /** Every level of the nested object is a well-formed dictionary. */
  ghost predicate Tidy(m: Nested)
  {
    && m.Valid()
    && (forall a :: m.Get(a, Empty()).Valid())
    && (forall a, b :: m.Get(a, Empty()).Get(b, Empty()).Valid())
  }

  /**
   Counting the paths `ps` leaves a well-formed object in which each path
   holds its number of occurrences, and the innermost keys are exactly the
   issues of the paths counted.
   */
  lemma TallyTriplesCounts(ps: seq<Path>)
    ensures Tidy(TallyTriples(ps))
    ensures forall p: Path :: Count(TallyTriples(ps), p) == Occ(ps, p)
    ensures forall p: Path :: p.2 in TallyTriples(ps).Get(p.0, Empty()).Get(p.1, Empty()).entries <==> p in ps
  {
    var m := TallyTriples(ps);
    TallyTriplesFacts(ps);
    forall a ensures m.Get(a, Empty()).Valid() && forall b :: m.Get(a, Empty()).Get(b, Empty()).Valid() {
      TallyPairsFacts(PairsOf(ps, a));
      forall b ensures m.Get(a, Empty()).Get(b, Empty()).Valid() {
        TallyFacts(SecondsOf(PairsOf(ps, a), b));
      }
    }
    forall p ensures Count(m, p) == Occ(ps, p) && (p.2 in m.Get(p.0, Empty()).Get(p.1, Empty()).entries <==> p in ps) {
      TallyPairsFacts(PairsOf(ps, p.0));
      TallyFacts(SecondsOf(PairsOf(ps, p.0), p.1));
      OccSecondsOf(PairsOf(ps, p.0), p.1, p.2);
      OccPairsOf(ps, p.0, p.1, p.2);
    }
  }

  /** `Object.keys(m[year][discipline]).forEach(issue => ...)`: the paths visited for one discipline. */
  function IssuePaths(year: string, discipline: string, issues: seq<string>): (r: seq<Path>)
    ensures |r| == |issues|
  {
    if issues == [] then []
    else IssuePaths(year, discipline, issues[..|issues| - 1]) + [(year, discipline, issues[|issues| - 1])]
  }

  /** `Object.keys(m[year]).forEach(discipline => ...)`: the paths visited for one year. */
  function DisciplinePaths(year: string, byDiscipline: Dict<Dict<int>>, ds: seq<string>): seq<Path>
  {
    if ds == [] then []
    else
      var d := ds[|ds| - 1];
      DisciplinePaths(year, byDiscipline, ds[..|ds| - 1]) + IssuePaths(year, d, byDiscipline.Get(d, Empty()).Keys())
  }

  /** `Object.keys(m).forEach(year => ...)`: the paths visited for the years `ys`. */
  function YearPaths(m: Nested, ys: seq<string>): seq<Path>
  {
    if ys == [] then []
    else
      var y := ys[|ys| - 1];
      var byDiscipline := m.Get(y, Empty());
      YearPaths(m, ys[..|ys| - 1]) + DisciplinePaths(y, byDiscipline, byDiscipline.Keys())
  }

  lemma IssuePathsPrefix(m: Nested, year: string, discipline: string, issues: seq<string>, l: nat)
    requires l < |issues|
    ensures Entries(m, IssuePaths(year, discipline, issues[..l + 1])) ==
            Entries(m, IssuePaths(year, discipline, issues[..l])) + [EntryOf(m, (year, discipline, issues[l]))]
  {
    var done := IssuePaths(year, discipline, issues[..l]);
    assert issues[..l + 1][..l] == issues[..l];
    assert IssuePaths(year, discipline, issues[..l + 1]) == done + [(year, discipline, issues[l])];
    EntriesSnoc(m, done, (year, discipline, issues[l]));
  }

  lemma DisciplinePathsPrefix(year: string, byDiscipline: Dict<Dict<int>>, ds: seq<string>, j: nat)
    requires j < |ds|
    ensures DisciplinePaths(year, byDiscipline, ds[..j + 1]) ==
            DisciplinePaths(year, byDiscipline, ds[..j]) + IssuePaths(year, ds[j], byDiscipline.Get(ds[j], Empty()).Keys())
  {
    assert ds[..j + 1][..j] == ds[..j];
  }

  lemma YearPathsPrefix(m: Nested, ys: seq<string>, i: nat)
    requires i < |ys|
    ensures YearPaths(m, ys[..i + 1]) ==
            YearPaths(m, ys[..i]) + DisciplinePaths(ys[i], m.Get(ys[i], Empty()), m.Get(ys[i], Empty()).Keys())
  {
    assert ys[..i + 1][..i] == ys[..i];
  }

  /** Every path of the nested object, in the order the three nested loops visit them. */
  function Paths(m: Nested): seq<Path>
  {
    YearPaths(m, m.Keys())
  }

  lemma {:induction false} IssuePathsMembers(year: string, discipline: string, issues: seq<string>)
    ensures forall p :: p in IssuePaths(year, discipline, issues) <==> p.0 == year && p.1 == discipline && p.2 in issues
  {
    if issues != [] {
      IssuePathsMembers(year, discipline, issues[..|issues| - 1]);
      assert issues == issues[..|issues| - 1] + [issues[|issues| - 1]];
    }
  }

  lemma {:induction false} DisciplinePathsMembers(year: string, byDiscipline: Dict<Dict<int>>, ds: seq<string>)
    ensures forall p :: p in DisciplinePaths(year, byDiscipline, ds) <==>
              p.0 == year && p.1 in ds && p.2 in byDiscipline.Get(p.1, Empty()).Keys()
  {
    if ds != [] {
      var q := ds[..|ds| - 1];
      var d := ds[|ds| - 1];
      var before := DisciplinePaths(year, byDiscipline, q);
      var block := IssuePaths(year, d, byDiscipline.Get(d, Empty()).Keys());
      DisciplinePathsMembers(year, byDiscipline, q);
      IssuePathsMembers(year, d, byDiscipline.Get(d, Empty()).Keys());
      assert DisciplinePaths(year, byDiscipline, ds) == before + block;
      forall p: Path ensures p in before + block <==> p.0 == year && p.1 in ds && p.2 in byDiscipline.Get(p.1, Empty()).Keys() {
        assert ds == q + [d];
        assert p.1 in ds <==> p.1 in q || p.1 == d;
      }
    }
  }

  lemma {:induction false} YearPathsMembers(m: Nested, ys: seq<string>)
    ensures forall p :: p in YearPaths(m, ys) <==>
              p.0 in ys && p.1 in m.Get(p.0, Empty()).Keys() && p.2 in m.Get(p.0, Empty()).Get(p.1, Empty()).Keys()
  {
    if ys != [] {
      var q := ys[..|ys| - 1];
      var y := ys[|ys| - 1];
      var before := YearPaths(m, q);
      var block := DisciplinePaths(y, m.Get(y, Empty()), m.Get(y, Empty()).Keys());
      YearPathsMembers(m, q);
      DisciplinePathsMembers(y, m.Get(y, Empty()), m.Get(y, Empty()).Keys());
      assert YearPaths(m, ys) == before + block;
      forall p: Path ensures p in before + block <==>
          p.0 in ys && p.1 in m.Get(p.0, Empty()).Keys() && p.2 in m.Get(p.0, Empty()).Get(p.1, Empty()).Keys()
      {
        assert ys == q + [y];
        assert p.0 in ys <==> p.0 in q || p.0 == y;
      }
    }
  }

  /** A path is visited exactly when its three keys are present, one inside the other. */
  lemma PathsMembers(m: Nested)
    requires Tidy(m)
    ensures forall p :: p in Paths(m) <==>
              p.0 in m.entries && p.1 in m.Get(p.0, Empty()).entries && p.2 in m.Get(p.0, Empty()).Get(p.1, Empty()).entries
  {
    YearPathsMembers(m, m.Keys());
  }

  lemma {:induction false} IssuePathsNoDup(year: string, discipline: string, issues: seq<string>)
    requires NoDup(issues)
    ensures NoDup(IssuePaths(year, discipline, issues))
  {
    if issues != [] {
      var p := issues[..|issues| - 1];
      var c := issues[|issues| - 1];
      assert NoDup(p);
      assert c !in p;
      IssuePathsNoDup(year, discipline, p);
      IssuePathsMembers(year, discipline, p);
      NoDupConcat(IssuePaths(year, discipline, p), [(year, discipline, c)]);
    }
  }

  lemma {:induction false} DisciplinePathsNoDup(year: string, byDiscipline: Dict<Dict<int>>, ds: seq<string>)
    requires NoDup(ds)
    requires forall d :: NoDup(byDiscipline.Get(d, Empty()).Keys())
    ensures NoDup(DisciplinePaths(year, byDiscipline, ds))
  {
    if ds != [] {
      var p := ds[..|ds| - 1];
      var d := ds[|ds| - 1];
      var block := IssuePaths(year, d, byDiscipline.Get(d, Empty()).Keys());
      assert NoDup(p);
      assert d !in p;
      DisciplinePathsNoDup(year, byDiscipline, p);
      DisciplinePathsMembers(year, byDiscipline, p);
      IssuePathsNoDup(year, d, byDiscipline.Get(d, Empty()).Keys());
      IssuePathsMembers(year, d, byDiscipline.Get(d, Empty()).Keys());
      NoDupConcat(DisciplinePaths(year, byDiscipline, p), block);
    }
  }

  lemma {:induction false} YearPathsNoDup(m: Nested, ys: seq<string>)
    requires NoDup(ys)
    requires forall a :: NoDup(m.Get(a, Empty()).Keys())
    requires forall a, d :: NoDup(m.Get(a, Empty()).Get(d, Empty()).Keys())
    ensures NoDup(YearPaths(m, ys))
  {
    if ys != [] {
      var p := ys[..|ys| - 1];
      var y := ys[|ys| - 1];
      var byDiscipline := m.Get(y, Empty());
      assert NoDup(p);
      assert y !in p;
      YearPathsNoDup(m, p);
      YearPathsMembers(m, p);
      DisciplinePathsNoDup(y, byDiscipline, byDiscipline.Keys());
      DisciplinePathsMembers(y, byDiscipline, byDiscipline.Keys());
      NoDupConcat(YearPaths(m, p), DisciplinePaths(y, byDiscipline, byDiscipline.Keys()));
    }
  }

  /** No path is visited twice. */
  lemma PathsNoDup(m: Nested)
    requires Tidy(m)
    ensures NoDup(Paths(m))
  {
    OwnKeysNoDup(m.created);
    forall a ensures NoDup(m.Get(a, Empty()).Keys()) {
      OwnKeysNoDup(m.Get(a, Empty()).created);
    }
    forall a, d ensures NoDup(m.Get(a, Empty()).Get(d, Empty()).Keys()) {
      OwnKeysNoDup(m.Get(a, Empty()).Get(d, Empty()).created);
    }
    YearPathsNoDup(m, m.Keys());
  }

  /** The object pushed for one path. */
  function EntryOf(m: Nested, p: Path): BarEntry
  {
    BarEntry(ParseInt(p.0), p.1, p.2, Count(m, p))
  }

  /** `EntryOf` for one nested object, as a function of the path. */
  function EntryFor(m: Nested): Path -> BarEntry
  {
    p => EntryOf(m, p)
  }

  /** The objects pushed for the paths `ps`, in order. */
  function Entries(m: Nested, ps: seq<Path>): (r: seq<BarEntry>)
    ensures |r| == |ps|
  {
    MapSeq(ps, EntryFor(m))
  }

  lemma EntriesAt(m: Nested, ps: seq<Path>)
    ensures forall i :: 0 <= i < |ps| ==> Entries(m, ps)[i] == EntryOf(m, ps[i])
  {
    MapSeqAt(ps, EntryFor(m));
  }

  lemma EntriesSnoc(m: Nested, ps: seq<Path>, p: Path)
    ensures Entries(m, ps + [p]) == Entries(m, ps) + [EntryOf(m, p)]
  {
    MapSeqSnoc(ps, p, EntryFor(m));
  }

  lemma EntriesConcat(m: Nested, a: seq<Path>, b: seq<Path>)
    ensures Entries(m, a + b) == Entries(m, a) + Entries(m, b)
  {
    MapSeqConcat(a, b, EntryFor(m));
  }

  /** The path an object was pushed for: its year's key, its discipline and its issue. */
  function KeyOf(e: BarEntry): Path
  {
    (YearKey(e.year), e.discipline, e.issue)
  }

  /** Comparison key of `(a, b) => a.year - b.year`, NaN ranked as 0 (see the README). */
  function YearRank(e: BarEntry): int
  {
    if e.year.Some? then e.year.value else 0
  }

  function CountOf(e: BarEntry): int
  {
    e.count
  }

  lemma {:induction false} SumEntries(m: Nested, ps: seq<Path>, xs: seq<Path>)
    requires forall p :: Count(m, p) == Occ(xs, p)
    ensures SumBy(Entries(m, ps), CountOf) == SumOccs(ps, xs)
  {
    if ps != [] {
      var q := ps[..|ps| - 1];
      SumEntries(m, q, xs);
      SumByConcat(Entries(m, q), [EntryOf(m, ps[|ps| - 1])], CountOf);
      assert [EntryOf(m, ps[|ps| - 1])][1..] == [];
    }
  }

  /** The nested object built from the records. */
  function NestedCounts(data: seq<CaseRecord>): Nested
  {
    TallyTriples(Events(data))
  }

  /** `processedData` before the sort. */
  function Flattened(data: seq<CaseRecord>): seq<BarEntry>
  {
    Entries(NestedCounts(data), Paths(NestedCounts(data)))
  }

  /** `processedData` as written to `barChartData.json`. */
  function BarChartData(data: seq<CaseRecord>): seq<BarEntry>
  {
    SortBy(Flattened(data), YearRank)
  }

  /** The visited paths are exactly the counted ones. */
  lemma PathsAreEvents(data: seq<CaseRecord>)
    ensures Tidy(NestedCounts(data))
    ensures forall p :: p in Paths(NestedCounts(data)) <==> p in Events(data)
  {
    var evs := Events(data);
    var m := NestedCounts(data);
    TallyTriplesCounts(evs);
    PathsMembers(m);
    forall p ensures p in Paths(m) <==> p in evs {
      if p in evs {
        assert Count(m, p) == Occ(evs, p);
      }
    }
  }

  /** The `i`-th object pushed is the one for the `i`-th path, and the path is its key. */
  lemma FlattenedAt(data: seq<CaseRecord>)
    ensures |Flattened(data)| == |Paths(NestedCounts(data))|
    ensures forall i :: 0 <= i < |Flattened(data)| ==>
              Flattened(data)[i] == EntryOf(NestedCounts(data), Paths(NestedCounts(data))[i]) &&
              KeyOf(Flattened(data)[i]) == Paths(NestedCounts(data))[i]
  {
    var m := NestedCounts(data);
    var ps := Paths(m);
    EntriesAt(m, ps);
    PathsAreEvents(data);
    EventsYearKeys(data);
    forall i | 0 <= i < |ps| ensures KeyOf(EntryOf(m, ps[i])) == ps[i] {
      assert ps[i] in Events(data);
    }
  }

  /** Before the sort no object is pushed twice: the paths are distinct. */
  lemma FlattenedNoDup(data: seq<CaseRecord>)
    ensures NoDup(Flattened(data))
  {
    var flat := Flattened(data);
    PathsAreEvents(data);
    PathsNoDup(NestedCounts(data));
    FlattenedAt(data);
    forall i, j | 0 <= i < j < |flat| ensures flat[i] != flat[j] {
      assert KeyOf(flat[i]) != KeyOf(flat[j]);
    }
  }

  /** Before the sort each object is the one for a counted path, holding that path's keys and count. */
  lemma FlattenedKeys(data: seq<CaseRecord>)
    ensures forall e :: e in Flattened(data) ==> KeyOf(e) in Events(data) && e == EntryOf(NestedCounts(data), KeyOf(e))
  {
    var m := NestedCounts(data);
    var ps := Paths(m);
    var flat := Flattened(data);
    PathsAreEvents(data);
    FlattenedAt(data);
    forall e | e in flat ensures KeyOf(e) in Events(data) && e == EntryOf(m, KeyOf(e)) {
      var i :| 0 <= i < |flat| && flat[i] == e;
      assert ps[i] in ps;
    }
  }

  /** Before the sort every counted path has its object. */
  lemma FlattenedCovers(data: seq<CaseRecord>)
    ensures forall p :: p in Events(data) ==> exists k :: 0 <= k < |Flattened(data)| && KeyOf(Flattened(data)[k]) == p
  {
    var ps := Paths(NestedCounts(data));
    PathsAreEvents(data);
    FlattenedAt(data);
    forall p | p in Events(data) ensures exists k :: 0 <= k < |Flattened(data)| && KeyOf(Flattened(data)[k]) == p {
      var k :| 0 <= k < |ps| && ps[k] == p;
      assert KeyOf(Flattened(data)[k]) == p;
    }
  }

  /** The counts before the sort add up to the number of counted paths. */
  lemma FlattenedTotal(data: seq<CaseRecord>)
    ensures SumBy(Flattened(data), CountOf) == |Events(data)|
  {
    var evs := Events(data);
    var m := NestedCounts(data);
    var ps := Paths(m);
    PathsAreEvents(data);
    PathsNoDup(m);
    TallyTriplesCounts(evs);
    SumEntries(m, ps, evs);
    SumOccsAll(ps, evs);
  }

  /** Each flattened object counts the paths of its year, discipline and issue, so at least one. */
  lemma FlattenedCounts(data: seq<CaseRecord>)
    ensures forall e :: e in Flattened(data) ==>
              KeyOf(e) in Events(data) && e.count == Occ(Events(data), KeyOf(e)) && e.count >= 1
  {
    FlattenedKeys(data);
    TallyTriplesCounts(Events(data));
  }

  /** In the written array each object counts the paths of its year, discipline and issue, so at least one. */
  lemma BarChartCounts(data: seq<CaseRecord>)
    ensures forall i :: 0 <= i < |BarChartData(data)| ==>
              KeyOf(BarChartData(data)[i]) in Events(data) &&
              BarChartData(data)[i].count == Occ(Events(data), KeyOf(BarChartData(data)[i])) &&
              BarChartData(data)[i].count >= 1
  {
    var r := BarChartData(data);
    FlattenedCounts(data);
    SortByMembers(Flattened(data), YearRank);
    forall i | 0 <= i < |r|
      ensures KeyOf(r[i]) in Events(data) && r[i].count == Occ(Events(data), KeyOf(r[i])) && r[i].count >= 1
    {
      assert r[i] in r;
    }
  }

  /** No two objects of the written array share year, discipline and issue. */
  lemma BarChartDistinct(data: seq<CaseRecord>)
    ensures forall i, j :: 0 <= i < j < |BarChartData(data)| ==>
              KeyOf(BarChartData(data)[i]) != KeyOf(BarChartData(data)[j])
  {
    var flat := Flattened(data);
    var r := BarChartData(data);
    FlattenedNoDup(data);
    FlattenedKeys(data);
    SortByMembers(flat, YearRank);
    NoDupPermutation(flat, r);
    forall i, j | 0 <= i < j < |r| ensures KeyOf(r[i]) != KeyOf(r[j]) {
      assert r[i] in flat && r[j] in flat;
    }
  }

  /** Every discipline of every record is in some object of the written array. */
  lemma BarChartCovers(data: seq<CaseRecord>)
    ensures forall p :: p in Events(data) ==> exists i :: 0 <= i < |BarChartData(data)| && KeyOf(BarChartData(data)[i]) == p
  {
    forall p | p in Events(data) ensures exists i :: 0 <= i < |BarChartData(data)| && KeyOf(BarChartData(data)[i]) == p {
      var i := BarChartIndexOf(data, p);
    }
  }

  /** Where the object of a counted path sits in the written array. */
  lemma BarChartIndexOf(data: seq<CaseRecord>, p: Path) returns (i: nat)
    requires p in Events(data)
    ensures i < |BarChartData(data)| && KeyOf(BarChartData(data)[i]) == p
  {
    FlattenedCovers(data);
    var k :| 0 <= k < |Flattened(data)| && KeyOf(Flattened(data)[k]) == p;
    i := SortByIndexOf(Flattened(data), YearRank, k);
  }

  /** The counts of the written array add up to the number of disciplines over all records. */
  lemma BarChartTotal(data: seq<CaseRecord>)
    ensures SumBy(BarChartData(data), CountOf) == DisciplineTotal(data)
  {
    FlattenedTotal(data);
    SumBySortBy(Flattened(data), YearRank, CountOf);
    EventsCount(data);
  }

  /**
   The sort: ascending by year, and (the sort being stable) objects of the
   same year keep the order of the flattening.
   */
  lemma BarChartOrder(data: seq<CaseRecord>)
    ensures SortedBy(BarChartData(data), YearRank)
    ensures forall k :: WithKey(BarChartData(data), YearRank, k) == WithKey(Flattened(data), YearRank, k)
  {
    forall k ensures WithKey(BarChartData(data), YearRank, k) == WithKey(Flattened(data), YearRank, k) {
      SortByStable(Flattened(data), YearRank, k);
    }
  }

  lemma EventsPrefix(data: seq<CaseRecord>, i: nat)
    requires i < |data|
    ensures var r := data[i];
            Events(data[..i + 1]) == Events(data[..i]) + RecordPaths(RecordYearKey(r), r.disciplines[..|r.disciplines|], r.issue)
  {
    assert data[..i + 1][..i] == data[..i];
    assert data[i].disciplines[..|data[i].disciplines|] == data[i].disciplines;
  }

  /** Counting the path of one more discipline is one `IncrementTriple`. */
  lemma CountStep(before: seq<Path>, year: string, ds: seq<string>, issue: string, j: nat)
    requires j < |ds|
    ensures TallyTriples(before + RecordPaths(year, ds[..j + 1], issue)) ==
            IncrementTriple(TallyTriples(before + RecordPaths(year, ds[..j], issue)), (year, ds[j], issue))
  {
    assert ds[..j + 1][..j] == ds[..j];
    var done := before + RecordPaths(year, ds[..j], issue);
    assert before + RecordPaths(year, ds[..j + 1], issue) == done + [(year, ds[j], issue)];
    assert (done + [(year, ds[j], issue)])[..|done|] == done;
  }

  /** The first `forEach` (lines 18-36): the nested object of counts. */
  method CountPaths(rawData: seq<CaseRecord>) returns (m: Nested)
    ensures m == NestedCounts(rawData)
  {
    m := Empty();
    var i := 0;
    while i < |rawData|
      invariant 0 <= i <= |rawData|
      invariant m == TallyTriples(Events(rawData[..i]))
    {
      var entry := rawData[i];
      var year := RecordYearKey(entry);
      var disciplines := entry.disciplines;
      var issue := entry.issue;
      assert RecordPaths(year, disciplines[..0], issue) == [];
      assert Events(rawData[..i]) + [] == Events(rawData[..i]);
      var j := 0;
      while j < |disciplines|
        invariant 0 <= j <= |disciplines|
        invariant m == TallyTriples(Events(rawData[..i]) + RecordPaths(year, disciplines[..j], issue))
      {
        var discipline := disciplines[j];
        m := CountOne(m, year, discipline, issue);
        CountStep(Events(rawData[..i]), year, disciplines, issue, j);
        j := j + 1;
      }
      EventsPrefix(rawData, i);
      i := i + 1;
    }
    assert rawData[..i] == rawData;
  }

  /** The three `if`s of the inner `forEach` for one discipline of one record. */
  method CountOne(m0: Nested, year: string, discipline: string, issue: string) returns (m: Nested)
    ensures m == IncrementTriple(m0, (year, discipline, issue))
  {
    m := m0;
    if year !in m.entries {
      m := m.Put(year, Empty());
    }
    EnsuredKey(m0, m, year, Empty());
    ghost var m1 := m;
    if discipline !in m.Get(year, Empty()).entries {
      m := m.Put(year, m.Get(year, Empty()).Put(discipline, Empty()));
    }
    EnsuredInnerKey(m1, m, year, discipline);
    ghost var m2 := m;
    var byIssue := m.Get(year, Empty()).Get(discipline, Empty());
    if issue !in byIssue.entries {
      m := m.Put(year, m.Get(year, Empty()).Put(discipline, byIssue.Put(issue, 1)));
    } else {
      m := m.Put(year, m.Get(year, Empty()).Put(discipline, byIssue.Put(issue, byIssue.Get(issue, 0) + 1)));
    }
    assert m == m2.Put(year, m2.Get(year, Empty()).Put(discipline, Increment(byIssue, issue)));
    CountedIssue(m0, m1, m2, m, year, discipline, issue);
  }

  /** `if (!m[y][d]) m[y][d] = {}` on an object that already has `m[y]`. */
  lemma EnsuredInnerKey(m1: Nested, m2: Nested, year: string, discipline: string)
    requires m2 == if discipline !in m1.Get(year, Empty()).entries
                   then m1.Put(year, m1.Get(year, Empty()).Put(discipline, Empty())) else m1
    ensures var y := m1.Get(year, Empty());
            m2 == m1.Put(year, y.Put(discipline, y.Get(discipline, Empty())))
  {
    var y := m1.Get(year, Empty());
    PutGet(y, discipline, Empty());
    if discipline in y.entries {
      PutGet(m1, year, y);
      assert m1.Get(year, y) == y;
    }
  }

  /** The three assignments together are one increment of the path. */
  lemma CountedIssue(m0: Nested, m1: Nested, m2: Nested, m: Nested, year: string, discipline: string, issue: string)
    requires m1 == m0.Put(year, m0.Get(year, Empty()))
    requires var y := m1.Get(year, Empty()); m2 == m1.Put(year, y.Put(discipline, y.Get(discipline, Empty())))
    requires var byIssue := m2.Get(year, Empty()).Get(discipline, Empty());
             m == m2.Put(year, m2.Get(year, Empty()).Put(discipline, Increment(byIssue, issue)))
    ensures m == IncrementTriple(m0, (year, discipline, issue))
  {
    var y0 := m0.Get(year, Empty());
    assert m1.Get(year, Empty()) == y0;
    var y1 := y0.Put(discipline, y0.Get(discipline, Empty()));
    assert m2 == m0.Put(year, y0).Put(year, y1);
    PutPut(m0, year, y0, y1);
    assert m2.Get(year, Empty()) == y1;
    var byIssue := y0.Get(discipline, Empty());
    assert y1.Get(discipline, Empty()) == byIssue;
    PutPut(m0, year, y1, y1.Put(discipline, Increment(byIssue, issue)));
    PutPut(y0, discipline, byIssue, Increment(byIssue, issue));
  }

  /** The innermost `forEach`: one object pushed per issue of `m[year][discipline]`. */
  method PushIssues(processedData: seq<BarEntry>, m: Nested, year: string, discipline: string) returns (out: seq<BarEntry>)
    ensures out == processedData + Entries(m, IssuePaths(year, discipline, m.Get(year, Empty()).Get(discipline, Empty()).Keys()))
  {
    var byIssue := m.Get(year, Empty()).Get(discipline, Empty());
    var issues := byIssue.Keys();
    out := processedData;
    var l := 0;
    while l < |issues|
      invariant 0 <= l <= |issues|
      invariant out == processedData + Entries(m, IssuePaths(year, discipline, issues[..l]))
    {
      var issue := issues[l];
      var entry := BarEntry(ParseInt(year), discipline, issue, byIssue.Get(issue, 0));
      assert entry == EntryOf(m, (year, discipline, issue));
      IssuePathsPrefix(m, year, discipline, issues, l);
      ConcatAssoc(processedData, Entries(m, IssuePaths(year, discipline, issues[..l])), [entry]);
      out := out + [entry];
      l := l + 1;
    }
    assert issues[..l] == issues;
  }

  /** One more discipline pushed by the middle loop extends its output by that discipline's objects. */
  lemma DisciplineStep(processedData: seq<BarEntry>, m: Nested, year: string, byDiscipline: Dict<Dict<int>>,
                       ds: seq<string>, j: nat, out: seq<BarEntry>, next: seq<BarEntry>)
    requires j < |ds|
    requires out == processedData + Entries(m, DisciplinePaths(year, byDiscipline, ds[..j]))
    requires next == out + Entries(m, IssuePaths(year, ds[j], byDiscipline.Get(ds[j], Empty()).Keys()))
    ensures next == processedData + Entries(m, DisciplinePaths(year, byDiscipline, ds[..j + 1]))
  {
    var done := DisciplinePaths(year, byDiscipline, ds[..j]);
    var block := IssuePaths(year, ds[j], byDiscipline.Get(ds[j], Empty()).Keys());
    DisciplinePathsPrefix(year, byDiscipline, ds, j);
    EntriesConcat(m, done, block);
    ConcatAssoc(processedData, Entries(m, done), Entries(m, block));
  }

  /** One more year pushed by the outer loop extends its output by that year's objects. */
  lemma YearStep(m: Nested, ys: seq<string>, i: nat, processedData: seq<BarEntry>, next: seq<BarEntry>)
    requires i < |ys|
    requires processedData == Entries(m, YearPaths(m, ys[..i]))
    requires next == processedData + Entries(m, DisciplinePaths(ys[i], m.Get(ys[i], Empty()), m.Get(ys[i], Empty()).Keys()))
    ensures next == Entries(m, YearPaths(m, ys[..i + 1]))
  {
    var done := YearPaths(m, ys[..i]);
    var block := DisciplinePaths(ys[i], m.Get(ys[i], Empty()), m.Get(ys[i], Empty()).Keys());
    YearPathsPrefix(m, ys, i);
    EntriesConcat(m, done, block);
  }

  /** The middle `forEach`: the issues of every discipline of `m[year]`. */
  method PushDisciplines(processedData: seq<BarEntry>, m: Nested, year: string, disciplines: seq<string>)
    returns (out: seq<BarEntry>)
    ensures out == processedData + Entries(m, DisciplinePaths(year, m.Get(year, Empty()), disciplines))
  {
    var byDiscipline := m.Get(year, Empty());
    out := processedData;
    var j := 0;
    while j < |disciplines|
      invariant 0 <= j <= |disciplines|
      invariant out == processedData + Entries(m, DisciplinePaths(year, byDiscipline, disciplines[..j]))
    {
      var discipline := disciplines[j];
      var next := PushIssues(out, m, year, discipline);
      DisciplineStep(processedData, m, year, byDiscipline, disciplines, j, out, next);
      out := next;
      j := j + 1;
    }
    assert disciplines[..j] == disciplines;
  }

  /** The outer `forEach` (lines 39-50): every path of the nested object, pushed in visiting order. */
  method FlattenCounts(m: Nested) returns (processedData: seq<BarEntry>)
    ensures processedData == Entries(m, Paths(m))
  {
    var years := m.Keys();
    processedData := [];
    var i := 0;
    while i < |years|
      invariant 0 <= i <= |years|
      invariant processedData == Entries(m, YearPaths(m, years[..i]))
    {
      var year := years[i];
      var next := PushDisciplines(processedData, m, year, m.Get(year, Empty()).Keys());
      YearStep(m, years, i, processedData, next);
      processedData := next;
      i := i + 1;
    }
    assert years[..i] == years;
  }

  /**
   `processBarChartData` between reading `data.json` and writing
   `barChartData.json`: count, flatten, sort by year.
   */
  method ProcessBarChartData(rawData: seq<CaseRecord>) returns (processedData: seq<BarEntry>)
    ensures processedData == BarChartData(rawData)
    ensures forall i :: 0 <= i < |processedData| ==>
              KeyOf(processedData[i]) in Events(rawData) &&
              processedData[i].count == Occ(Events(rawData), KeyOf(processedData[i])) &&
              processedData[i].count >= 1
    ensures forall i, j :: 0 <= i < j < |processedData| ==> KeyOf(processedData[i]) != KeyOf(processedData[j])
    ensures forall p :: p in Events(rawData) ==> exists i :: 0 <= i < |processedData| && KeyOf(processedData[i]) == p
    ensures SumBy(processedData, CountOf) == DisciplineTotal(rawData)
    ensures SortedBy(processedData, YearRank)
  {
    var m := CountPaths(rawData);
    var flat := FlattenCounts(m);
    processedData := SortBy(flat, YearRank);
    BarChartCounts(rawData);
    BarChartDistinct(rawData);
    BarChartCovers(rawData);
    BarChartTotal(rawData);
  }
}
