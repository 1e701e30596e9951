/**
 The Sankey preparation (`processSankeyData.js`): a node "All Cases" and
 then one node per issue in first-seen order, every record counted in a
 two-level plain object keyed by issue and then year, and one link per issue
 and year from "All Cases" to the issue's node, an issue's years in
 ascending order and each link's value the running total of the issue's
 records up to that year.
 */
module ProcessSankeyData {
  import opened Wrappers
  import opened Seqs
  import opened JsNumbers
  import opened JsObjects
  import opened CaseRecords

  /** One object of `links`; a `year` of None is NaN. */
  datatype Link = Link(source: int, target: int, value: int, year: Option<int>)

  /** The name of node 0, the source of every link. */
  const AllCases: string := "All Cases"

  /** The issue a record without one is counted under. */
  const NoIssue: string := "No EDI Primary Case"

  /** `entry['EDI Primary Case Issues'] || 'No EDI Primary Case'`: the empty string is falsy. */
  function Label(r: CaseRecord): string
  {
    if r.issue != "" then r.issue else NoIssue
  }

  /** The issue and the year key a record is counted under. */
  function LabelYear(r: CaseRecord): (string, string)
  {
    (Label(r), RecordYearKey(r))
  }

  function LabelYears(data: seq<CaseRecord>): seq<(string, string)>
  {
    MapSeq(data, LabelYear)
  }

  /** The issue of each record, in order. */
  function Labels(data: seq<CaseRecord>): seq<string>
  {
    Firsts(LabelYears(data))
  }

  lemma LabelYearsAt(data: seq<CaseRecord>)
    ensures |LabelYears(data)| == |data| && |Labels(data)| == |data|
    ensures forall i :: 0 <= i < |data| ==> LabelYears(data)[i] == (Label(data[i]), YearKey(YearOf(data[i])))
    ensures forall i :: 0 <= i < |data| ==> Labels(data)[i] == Label(data[i])
  {
    MapSeqAt(data, LabelYear);
  }

  /** One more record adds its issue and year key at the end. */
  lemma LabelYearsSnoc(data: seq<CaseRecord>, i: nat)
    requires i < |data|
    ensures LabelYears(data[..i + 1]) == LabelYears(data[..i]) + [LabelYear(data[i])]
    ensures Labels(data[..i + 1]) == Labels(data[..i]) + [Label(data[i])]
  {
    assert data[..i + 1] == data[..i] + [data[i]];
    MapSeqSnoc(data[..i], data[i], LabelYear);
    var ps := LabelYears(data[..i + 1]);
    assert ps[..|ps| - 1] == LabelYears(data[..i]);
  }

  /**
   The number of records of issue `l` from year `y`: what
   `cumulativeCounts[l][y]` counts.
   */
  function Cases(data: seq<CaseRecord>, l: string, y: Option<int>): nat
  {
    Occ(LabelYears(data), (l, YearKey(y)))
  }

  /** A record of issue `l` from year `y` exists exactly when there is a case to count. */
  lemma CasesExist(data: seq<CaseRecord>, l: string, y: Option<int>)
    ensures Cases(data, l, y) >= 1 <==> exists i :: 0 <= i < |data| && Label(data[i]) == l && YearOf(data[i]) == y
  {
    var ps := LabelYears(data);
    LabelYearsAt(data);
    if Cases(data, l, y) >= 1 {
      var i :| 0 <= i < |ps| && ps[i] == (l, YearKey(y));
      YearKeyInjective(YearOf(data[i]), y);
    }
    if exists i :: 0 <= i < |data| && Label(data[i]) == l && YearOf(data[i]) == y {
      var i :| 0 <= i < |data| && Label(data[i]) == l && YearOf(data[i]) == y;
      assert ps[i] in ps;
    }
  }

  /** `nodes`, by name, after the `forEach`. */
  function Nodes(data: seq<CaseRecord>): seq<string>
  {
    [AllCases] + Distinct(Labels(data))
  }

  /**
   `issuesMap` after the issues `ls` in turn: an issue not yet mapped
   (`!issuesMap[issue]`) gets the index its new node takes.
   */
  function IssuesMap(ls: seq<string>): Dict<int>
  {
    if ls == [] then Empty()
    else
      var m := IssuesMap(ls[..|ls| - 1]);
      var l := ls[|ls| - 1];
      if m.Get(l, 0) == 0 then m.Put(l, 1 + |Distinct(ls[..|ls| - 1])|) else m
  }

  /** Every issue seen is mapped, and only those, to one plus its place among the distinct issues. */
  lemma {:induction false} IssuesMapFacts(ls: seq<string>)
    ensures forall l :: l in IssuesMap(ls).entries <==> l in ls
    ensures forall l :: l in ls ==> IssuesMap(ls).Get(l, 0) == 1 + FirstIndex(Distinct(ls), l)
  {
    if ls != [] {
      var p := ls[..|ls| - 1];
      var l := ls[|ls| - 1];
      IssuesMapFacts(p);
      assert forall x :: x in ls <==> x in p || x == l;
      var d := Distinct(p);
      if l !in p {
        assert Distinct(ls) == d + [l];
        forall x | x in p ensures FirstIndex(d + [l], x) == FirstIndex(d, x) {
          assert (d + [l])[..|d|] == d;
          FirstIndexPrefix(d + [l], |d|, x);
        }
      }
    }
  }

  /** The index an issue is mapped to is the index of its node. */
  lemma IssueIndex(data: seq<CaseRecord>, l: string)
    requires l in Labels(data)
    ensures 1 <= IssuesMap(Labels(data)).Get(l, 0) < |Nodes(data)|
    ensures Nodes(data)[IssuesMap(Labels(data)).Get(l, 0)] == l
  {
    IssuesMapFacts(Labels(data));
  }

  /** Node 0 is "All Cases"; the others name each issue once, in the order the issues first occur. */
  lemma NodesFacts(data: seq<CaseRecord>)
    ensures Nodes(data)[0] == AllCases
    ensures NoDup(Nodes(data)[1..])
    ensures forall i :: 0 <= i < |data| ==> Label(data[i]) in Nodes(data)[1..]
    ensures forall l :: l in Nodes(data)[1..] ==> l in Labels(data)
    ensures forall i, j :: 1 <= i < j < |Nodes(data)| ==>
              FirstIndex(Labels(data), Nodes(data)[i]) < FirstIndex(Labels(data), Nodes(data)[j])
  {
    var d := Distinct(Labels(data));
    assert Nodes(data)[1..] == d;
    LabelYearsAt(data);
    forall i | 0 <= i < |data| ensures Label(data[i]) in d {
      assert Labels(data)[i] in Labels(data);
    }
    DistinctFirstSeen(Labels(data));
    forall i, j | 1 <= i < j < |Nodes(data)|
      ensures FirstIndex(Labels(data), Nodes(data)[i]) < FirstIndex(Labels(data), Nodes(data)[j])
    {
      assert Nodes(data)[i] == d[i - 1] && Nodes(data)[j] == d[j - 1];
    }
  }

  /** `cumulativeCounts` after the `forEach`. */
  function Counts(data: seq<CaseRecord>): Dict<Dict<int>>
  {
    TallyPairs(LabelYears(data))
  }

  /** The year keys of the records of issue `l`, in order. */
  function YearKeysOf(data: seq<CaseRecord>, l: string): seq<string>
  {
    SecondsOf(LabelYears(data), l)
  }

  /** There is one year key per record of the issue, each the key of one of its years. */
  lemma YearKeysOfFacts(data: seq<CaseRecord>, l: string)
    ensures |YearKeysOf(data, l)| == Occ(Labels(data), l)
    ensures forall k :: Occ(YearKeysOf(data, l), k) == Occ(LabelYears(data), (l, k))
    ensures forall k :: k in YearKeysOf(data, l) ==> k == YearKey(ParseInt(k)) && Cases(data, l, ParseInt(k)) >= 1
  {
    var ps := LabelYears(data);
    SecondsOfLength(ps, l);
    forall k ensures Occ(YearKeysOf(data, l), k) == Occ(ps, (l, k)) {
      OccSecondsOf(ps, l, k);
    }
    LabelYearsAt(data);
    forall k | k in YearKeysOf(data, l) ensures k == YearKey(ParseInt(k)) && Cases(data, l, ParseInt(k)) >= 1 {
      assert (l, k) in ps;
      var i :| 0 <= i < |ps| && ps[i] == (l, k);
      ParseYearKey(YearOf(data[i]));
    }
  }

  /**
   The keys of `cumulativeCounts` are the issues, once each; under each issue
   sits, for every year, the number of records of that issue from that year.
   */
  lemma CountsFacts(data: seq<CaseRecord>)
    ensures NoDup(Counts(data).Keys())
    ensures forall l :: l in Counts(data).Keys() <==> l in Labels(data)
    ensures forall l :: Counts(data).Get(l, Empty()) == Tally(YearKeysOf(data, l))
    ensures forall l, y :: Counts(data).Get(l, Empty()).Get(YearKey(y), 0) == Cases(data, l, y)
  {
    var ps := LabelYears(data);
    TallyPairsFacts(ps);
    OwnKeysNoDup(Counts(data).created);
    forall l, y ensures Counts(data).Get(l, Empty()).Get(YearKey(y), 0) == Cases(data, l, y) {
      TallyCounts(YearKeysOf(data, l));
      OccSecondsOf(ps, l, YearKey(y));
    }
  }

  /** Comparison key of `(a, b) => a - b` on year keys: the year, NaN ranked as 0 (see the README). */
  function Rank(y: Option<int>): int
  {
    if y.Some? then y.value else 0
  }

  function KeyRank(k: string): int
  {
    Rank(ParseInt(k))
  }

  /** `a - b` converts a year key back to its year, so the comparator orders year keys by year. */
  lemma KeyRankOfYearKey(n: int)
    ensures ToNumber(YearKey(Some(n))) == Finite(n as real)
    ensures KeyRank(YearKey(Some(n))) == n
  {
    ToNumberOfIntToString(n);
    ParseYearKey(Some(n));
  }

  /** `Object.keys(cumulativeCounts[issue]).sort((a, b) => a - b)`. */
  function SortedYears(c: Dict<int>): seq<string>
  {
    SortBy(c.Keys(), KeyRank)
  }

  /** The counts of the year keys `ys`, added up. */
  function RunTotal(c: Dict<int>, ys: seq<string>): int
  {
    if ys == [] then 0 else RunTotal(c, ys[..|ys| - 1]) + c.Get(ys[|ys| - 1], 0)
  }

  /** The links pushed for the year keys `ys` of one issue, `totalCount` running over them. */
  function RunLinks(c: Dict<int>, ys: seq<string>, target: int): (r: seq<Link>)
    ensures |r| == |ys|
  {
    if ys == [] then []
    else RunLinks(c, ys[..|ys| - 1], target) + [Link(0, target, RunTotal(c, ys), ParseInt(ys[|ys| - 1]))]
  }

  lemma {:induction false} RunLinksAt(c: Dict<int>, ys: seq<string>, target: int)
    ensures forall k :: 0 <= k < |ys| ==>
              RunLinks(c, ys, target)[k] == Link(0, target, RunTotal(c, ys[..k + 1]), ParseInt(ys[k]))
  {
    if ys != [] {
      var p := ys[..|ys| - 1];
      var r := RunLinks(c, ys, target);
      RunLinksAt(c, p, target);
      assert r == RunLinks(c, p, target) + [Link(0, target, RunTotal(c, ys), ParseInt(ys[|ys| - 1]))];
      forall k | 0 <= k < |ys| ensures r[k] == Link(0, target, RunTotal(c, ys[..k + 1]), ParseInt(ys[k])) {
        if k < |p| {
          assert r[k] == RunLinks(c, p, target)[k];
          assert p[..k + 1] == ys[..k + 1] && p[k] == ys[k];
        } else {
          assert ys[..k + 1] == ys;
        }
      }
    }
  }

  lemma {:induction false} RunTotalOfTally(c: Dict<int>, ys: seq<string>, xs: seq<string>)
    requires forall k :: c.Get(k, 0) == Occ(xs, k)
    ensures RunTotal(c, ys) == SumOccs(ys, xs)
  {
    if ys != [] {
      RunTotalOfTally(c, ys[..|ys| - 1], xs);
    }
  }

  /** The links of one issue, from "All Cases" to the issue's node. */
  function IssueLinks(cc: Dict<Dict<int>>, im: Dict<int>, issue: string): seq<Link>
  {
    var c := cc.Get(issue, Empty());
    RunLinks(c, SortedYears(c), im.Get(issue, 0))
  }

  /** The links of the issues `issues` in turn. */
  function AllLinks(cc: Dict<Dict<int>>, im: Dict<int>, issues: seq<string>): seq<Link>
  {
    if issues == [] then []
    else AllLinks(cc, im, issues[..|issues| - 1]) + IssueLinks(cc, im, issues[|issues| - 1])
  }

  /** `links` after both `forEach` loops, the issues taken in `Object.keys(cumulativeCounts)` order. */
  function SankeyLinks(data: seq<CaseRecord>): seq<Link>
  {
    AllLinks(Counts(data), IssuesMap(Labels(data)), Counts(data).Keys())
  }

  /** The links of issue `l` in the written `links`. */
  function IssueLinksOf(data: seq<CaseRecord>, l: string): seq<Link>
  {
    IssueLinks(Counts(data), IssuesMap(Labels(data)), l)
  }

  /** The sorted year keys of an issue are its distinct year keys, each read as a year of the issue. */
  lemma SortedYearsFacts(data: seq<CaseRecord>, l: string)
    ensures NoDup(SortedYears(Counts(data).Get(l, Empty())))
    ensures SortedBy(SortedYears(Counts(data).Get(l, Empty())), KeyRank)
    ensures forall k :: k in SortedYears(Counts(data).Get(l, Empty())) <==> k in YearKeysOf(data, l)
  {
    var c := Counts(data).Get(l, Empty());
    CountsFacts(data);
    TallyFacts(YearKeysOf(data, l));
    OwnKeysNoDup(c.created);
    SortByMembers(c.Keys(), KeyRank);
    NoDupPermutation(c.Keys(), SortedYears(c));
  }

  /** Every link of an issue runs from node 0 to the issue's node. */
  lemma IssueLinksEnds(data: seq<CaseRecord>, l: string)
    requires l in Labels(data)
    ensures forall k :: 0 <= k < |IssueLinksOf(data, l)| ==>
              IssueLinksOf(data, l)[k].source == 0 &&
              1 <= IssueLinksOf(data, l)[k].target < |Nodes(data)| &&
              Nodes(data)[IssueLinksOf(data, l)[k].target] == l
  {
    var c := Counts(data).Get(l, Empty());
    IssueIndex(data, l);
    RunLinksAt(c, SortedYears(c), IssuesMap(Labels(data)).Get(l, 0));
  }

  /** Every link of an issue is for a year in which the issue has records. */
  lemma IssueLinksCounted(data: seq<CaseRecord>, l: string)
    ensures forall k :: 0 <= k < |IssueLinksOf(data, l)| ==> Cases(data, l, IssueLinksOf(data, l)[k].year) >= 1
  {
    var c := Counts(data).Get(l, Empty());
    var ys := SortedYears(c);
    var r := IssueLinksOf(data, l);
    SortedYearsFacts(data, l);
    YearKeysOfFacts(data, l);
    RunLinksAt(c, ys, IssuesMap(Labels(data)).Get(l, 0));
    forall k | 0 <= k < |r| ensures Cases(data, l, r[k].year) >= 1 {
      assert ys[k] in ys;
    }
  }

  /** Every year in which an issue has records has a link of the issue. */
  lemma IssueLinksCover(data: seq<CaseRecord>, l: string, y: Option<int>)
    requires Cases(data, l, y) >= 1
    ensures exists k :: 0 <= k < |IssueLinksOf(data, l)| && IssueLinksOf(data, l)[k].year == y
  {
    var c := Counts(data).Get(l, Empty());
    var ys := SortedYears(c);
    var r := IssueLinksOf(data, l);
    SortedYearsFacts(data, l);
    YearKeysOfFacts(data, l);
    RunLinksAt(c, ys, IssuesMap(Labels(data)).Get(l, 0));
    assert Occ(YearKeysOf(data, l), YearKey(y)) >= 1;
    var k :| 0 <= k < |ys| && ys[k] == YearKey(y);
    ParseYearKey(y);
    assert r[k].year == y;
  }

  /** The links of an issue are for distinct years, taken in ascending order. */
  lemma IssueLinksOrdered(data: seq<CaseRecord>, l: string)
    ensures forall j, k :: 0 <= j < k < |IssueLinksOf(data, l)| ==>
              IssueLinksOf(data, l)[j].year != IssueLinksOf(data, l)[k].year &&
              Rank(IssueLinksOf(data, l)[j].year) <= Rank(IssueLinksOf(data, l)[k].year)
  {
    var c := Counts(data).Get(l, Empty());
    var ys := SortedYears(c);
    var r := IssueLinksOf(data, l);
    SortedYearsFacts(data, l);
    YearKeysOfFacts(data, l);
    RunLinksAt(c, ys, IssuesMap(Labels(data)).Get(l, 0));
    forall j, k | 0 <= j < k < |r| ensures r[j].year != r[k].year && Rank(r[j].year) <= Rank(r[k].year) {
      assert ys[j] in ys && ys[k] in ys;
    }
  }

  /** Each link adds the count of its year key to the value of the link before it. */
  lemma RunLinksValues(c: Dict<int>, ys: seq<string>, target: int)
    ensures ys != [] ==> RunLinks(c, ys, target)[0].value == c.Get(ys[0], 0)
    ensures forall k :: 1 <= k < |ys| ==>
              RunLinks(c, ys, target)[k].value == RunLinks(c, ys, target)[k - 1].value + c.Get(ys[k], 0)
    ensures ys != [] ==> RunLinks(c, ys, target)[|ys| - 1].value == RunTotal(c, ys)
  {
    var r := RunLinks(c, ys, target);
    RunLinksAt(c, ys, target);
    if ys != [] {
      assert ys[..1][..0] == [];
      assert ys[..|ys|] == ys;
    }
    forall k | 1 <= k < |ys| ensures r[k].value == r[k - 1].value + c.Get(ys[k], 0) {
      assert ys[..k + 1][..k] == ys[..k];
    }
  }

  /** Under an issue, the count of each of its year keys is the number of its records from that year. */
  lemma IssueCounts(data: seq<CaseRecord>, l: string)
    ensures forall k :: k in SortedYears(Counts(data).Get(l, Empty())) ==>
              Counts(data).Get(l, Empty()).Get(k, 0) == Cases(data, l, ParseInt(k)) && Cases(data, l, ParseInt(k)) >= 1
  {
    SortedYearsFacts(data, l);
    YearKeysOfFacts(data, l);
    CountsFacts(data);
  }

  /** All the records of an issue are counted under its year keys. */
  lemma IssueTotal(data: seq<CaseRecord>, l: string)
    requires l in Labels(data)
    ensures SortedYears(Counts(data).Get(l, Empty())) != []
    ensures RunTotal(Counts(data).Get(l, Empty()), SortedYears(Counts(data).Get(l, Empty()))) == Occ(Labels(data), l)
  {
    var c := Counts(data).Get(l, Empty());
    var ys := SortedYears(c);
    var xs := YearKeysOf(data, l);
    SortedYearsFacts(data, l);
    YearKeysOfFacts(data, l);
    CountsFacts(data);
    TallyCounts(xs);
    assert xs[0] in xs;
    RunTotalOfTally(c, ys, xs);
    SumOccsAll(ys, xs);
  }

  /**
   The values of an issue's links are running totals: each adds the records
   of the issue from its year to the value before it, so the last value is
   the number of records of the issue.
   */
  lemma IssueLinksValues(data: seq<CaseRecord>, l: string)
    requires l in Labels(data)
    ensures |IssueLinksOf(data, l)| >= 1
    ensures IssueLinksOf(data, l)[0].value == Cases(data, l, IssueLinksOf(data, l)[0].year)
    ensures forall k :: 1 <= k < |IssueLinksOf(data, l)| ==>
              IssueLinksOf(data, l)[k].value ==
              IssueLinksOf(data, l)[k - 1].value + Cases(data, l, IssueLinksOf(data, l)[k].year)
    ensures IssueLinksOf(data, l)[|IssueLinksOf(data, l)| - 1].value == Occ(Labels(data), l)
  {
    var c := Counts(data).Get(l, Empty());
    var ys := SortedYears(c);
    var t := IssuesMap(Labels(data)).Get(l, 0);
    var r := IssueLinksOf(data, l);
    IssueTotal(data, l);
    IssueCounts(data, l);
    RunLinksValues(c, ys, t);
    RunLinksAt(c, ys, t);
    forall k | 0 <= k < |r| ensures c.Get(ys[k], 0) == Cases(data, l, r[k].year) {
      assert ys[k] in ys;
    }
  }

  /** An issue's link values strictly increase, from at least one up to the issue's number of records. */
  lemma IssueLinksIncreasing(data: seq<CaseRecord>, l: string)
    requires l in Labels(data)
    ensures |IssueLinksOf(data, l)| >= 1
    ensures IssueLinksOf(data, l)[0].value >= 1
    ensures forall k :: 1 <= k < |IssueLinksOf(data, l)| ==>
              IssueLinksOf(data, l)[k - 1].value < IssueLinksOf(data, l)[k].value
    ensures IssueLinksOf(data, l)[|IssueLinksOf(data, l)| - 1].value == Occ(Labels(data), l)
  {
    IssueLinksValues(data, l);
    IssueLinksCounted(data, l);
  }

  lemma {:induction false} AllLinksMembers(cc: Dict<Dict<int>>, im: Dict<int>, issues: seq<string>)
    ensures forall x :: x in AllLinks(cc, im, issues) <==> exists l :: l in issues && x in IssueLinks(cc, im, l)
  {
    if issues != [] {
      var p := issues[..|issues| - 1];
      AllLinksMembers(cc, im, p);
      assert forall l :: l in issues <==> l in p || l == issues[|issues| - 1];
    }
  }

  /** The written links are those of the issues, and every issue has its links there. */
  lemma SankeyLinksBlocks(data: seq<CaseRecord>)
    ensures forall x :: x in SankeyLinks(data) <==> exists l :: l in Labels(data) && x in IssueLinksOf(data, l)
  {
    CountsFacts(data);
    AllLinksMembers(Counts(data), IssuesMap(Labels(data)), Counts(data).Keys());
  }

  /** No two links share both their target node and their year. */
  predicate UniqueLinkKeys(links: seq<Link>)
  {
    forall i, j :: 0 <= i < j < |links| ==> (links[i].target, links[i].year) != (links[j].target, links[j].year)
  }

  /** The links into each target node stand together, with no other link between them. */
  predicate ContiguousTargets(links: seq<Link>)
  {
    forall i, k, j :: 0 <= i < k < j < |links| && links[i].target == links[j].target ==> links[k].target == links[i].target
  }

  /** No two links are for the same year. */
  predicate DistinctYears(links: seq<Link>)
  {
    forall i, j :: 0 <= i < j < |links| ==> links[i].year != links[j].year
  }

  /** Appending a block of links into a fresh target, for distinct years, keeps both properties. */
  lemma AppendBlock(ls: seq<Link>, block: seq<Link>, t: int)
    requires UniqueLinkKeys(ls) && ContiguousTargets(ls)
    requires forall x :: x in ls ==> x.target != t
    requires forall x :: x in block ==> x.target == t
    requires DistinctYears(block)
    ensures UniqueLinkKeys(ls + block) && ContiguousTargets(ls + block)
  {
    var r := ls + block;
    forall i, j | 0 <= i < j < |r| ensures (r[i].target, r[i].year) != (r[j].target, r[j].year) {
      if j < |ls| {
        assert r[i] == ls[i] && r[j] == ls[j];
      } else if i < |ls| {
        assert r[i] in ls && r[j] in block;
      } else {
        assert r[i] == block[i - |ls|] && r[j] == block[j - |ls|];
      }
    }
    forall i, k, j | 0 <= i < k < j < |r| && r[i].target == r[j].target ensures r[k].target == r[i].target {
      if j < |ls| {
        assert r[i] == ls[i] && r[k] == ls[k] && r[j] == ls[j];
      } else {
        assert r[j] in block;
        assert i >= |ls|;
        assert r[i] in block && r[k] in block;
      }
    }
  }

  /** Every link of an issue goes into the node the issue is mapped to. */
  lemma IssueLinksTarget(cc: Dict<Dict<int>>, im: Dict<int>, l: string)
    ensures forall x :: x in IssueLinks(cc, im, l) ==> x.target == im.Get(l, 0)
  {
    var c := cc.Get(l, Empty());
    RunLinksAt(c, SortedYears(c), im.Get(l, 0));
  }

  /** The links of issues other than `l` all go into nodes other than `l`'s. */
  lemma {:induction false} OtherIssuesTargets(cc: Dict<Dict<int>>, im: Dict<int>, issues: seq<string>, l: string)
    requires l !in issues
    requires forall a :: a in issues ==> im.Get(a, 0) != im.Get(l, 0)
    ensures forall x :: x in AllLinks(cc, im, issues) ==> x.target != im.Get(l, 0)
  {
    if issues != [] {
      var p := issues[..|issues| - 1];
      var a := issues[|issues| - 1];
      assert forall b :: b in p ==> b in issues;
      OtherIssuesTargets(cc, im, p, l);
      IssueLinksTarget(cc, im, a);
    }
  }

  /**
   With distinct issues mapped to distinct nodes and each issue's links for
   distinct years, the links of all issues have distinct (target, year)
   pairs and group by target.
   */
  lemma {:induction false} AllLinksLayout(cc: Dict<Dict<int>>, im: Dict<int>, issues: seq<string>)
    requires NoDup(issues)
    requires forall a, b :: a in issues && b in issues && a != b ==> im.Get(a, 0) != im.Get(b, 0)
    requires forall l :: l in issues ==> DistinctYears(IssueLinks(cc, im, l))
    ensures UniqueLinkKeys(AllLinks(cc, im, issues)) && ContiguousTargets(AllLinks(cc, im, issues))
  {
    if issues != [] {
      var p := issues[..|issues| - 1];
      var l := issues[|issues| - 1];
      assert forall a :: a in p ==> a in issues;
      NoDupLast(issues);
      AllLinksLayout(cc, im, p);
      OtherIssuesTargets(cc, im, p, l);
      IssueLinksTarget(cc, im, l);
      AppendBlock(AllLinks(cc, im, p), IssueLinks(cc, im, l), im.Get(l, 0));
    }
  }

  /**
   No two written links share a target node and a year, and the links into
   each issue's node stand together.
   */
  lemma SankeyLinksLayout(data: seq<CaseRecord>)
    ensures UniqueLinkKeys(SankeyLinks(data))
    ensures ContiguousTargets(SankeyLinks(data))
  {
    CountsFacts(data);
    IssueNodesDistinct(data);
    IssueYearsDistinct(data);
    KeysLayout(Counts(data), IssuesMap(Labels(data)), Counts(data).Keys(), Labels(data));
  }

  /** `AllLinksLayout` for keys that are exactly the issues `ls`. */
  lemma KeysLayout(cc: Dict<Dict<int>>, im: Dict<int>, keys: seq<string>, ls: seq<string>)
    requires NoDup(keys)
    requires forall l :: l in keys <==> l in ls
    requires forall a, b :: a in ls && b in ls && a != b ==> im.Get(a, 0) != im.Get(b, 0)
    requires forall l :: DistinctYears(IssueLinks(cc, im, l))
    ensures UniqueLinkKeys(AllLinks(cc, im, keys)) && ContiguousTargets(AllLinks(cc, im, keys))
  {
    AllLinksLayout(cc, im, keys);
  }

  /** Distinct issues are mapped to distinct nodes. */
  lemma IssueNodesDistinct(data: seq<CaseRecord>)
    ensures forall a, b :: a in Labels(data) && b in Labels(data) && a != b ==>
              IssuesMap(Labels(data)).Get(a, 0) != IssuesMap(Labels(data)).Get(b, 0)
  {
    forall a, b | a in Labels(data) && b in Labels(data) && a != b
      ensures IssuesMap(Labels(data)).Get(a, 0) != IssuesMap(Labels(data)).Get(b, 0)
    {
      IssueIndex(data, a);
      IssueIndex(data, b);
    }
  }

  /** The links of every issue are for distinct years. */
  lemma IssueYearsDistinct(data: seq<CaseRecord>)
    ensures forall l :: DistinctYears(IssueLinks(Counts(data), IssuesMap(Labels(data)), l))
  {
    forall l ensures DistinctYears(IssueLinks(Counts(data), IssuesMap(Labels(data)), l)) {
      IssueYearsDistinctAt(data, l);
    }
  }

  lemma IssueYearsDistinctAt(data: seq<CaseRecord>, l: string)
    ensures DistinctYears(IssueLinksOf(data, l))
  {
    IssueLinksOrdered(data, l);
  }

  /**
   What `sankeyData.json` promises: node 0 is "All Cases" and the others
   name each issue once; every link runs from node 0 to the node of an issue
   that has records from the link's year, with a value of at least one.
   */
  ghost predicate SankeyShape(data: seq<CaseRecord>, nodes: seq<string>, links: seq<Link>)
  {
    && |nodes| >= 1 && nodes[0] == AllCases && NoDup(nodes[1..])
    && (forall i :: 0 <= i < |data| ==> Label(data[i]) in nodes[1..])
    && (forall x :: x in links ==>
          x.source == 0 && 1 <= x.target < |nodes| && Cases(data, nodes[x.target], x.year) >= 1 && x.value >= 1)
  }

  lemma SankeyShapeHolds(data: seq<CaseRecord>)
    ensures SankeyShape(data, Nodes(data), SankeyLinks(data))
  {
    NodesFacts(data);
    SankeyLinksBlocks(data);
    forall x | x in SankeyLinks(data)
      ensures x.source == 0 && 1 <= x.target < |Nodes(data)| && Cases(data, Nodes(data)[x.target], x.year) >= 1 && x.value >= 1
    {
      var l :| l in Labels(data) && x in IssueLinksOf(data, l);
      var k :| 0 <= k < |IssueLinksOf(data, l)| && IssueLinksOf(data, l)[k] == x;
      IssueLinksEnds(data, l);
      IssueLinksCounted(data, l);
      IssueLinkPositive(data, l, k);
    }
  }

  /** Each link of an issue carries a positive running total. */
  lemma IssueLinkPositive(data: seq<CaseRecord>, l: string, k: nat)
    requires k < |IssueLinksOf(data, l)|
    ensures IssueLinksOf(data, l)[k].value >= 1
  {
    IssueCounts(data, l);
    var c := Counts(data).Get(l, Empty());
    RunLinkPositive(c, SortedYears(c), IssuesMap(Labels(data)).Get(l, 0), k);
  }

  /** Running totals over keys that each count at least once are positive. */
  lemma RunLinkPositive(c: Dict<int>, ys: seq<string>, target: int, k: nat)
    requires k < |ys|
    requires forall y :: y in ys ==> c.Get(y, 0) >= 1
    ensures RunLinks(c, ys, target)[k].value >= 1
  {
    RunLinksAt(c, ys, target);
    forall y | y in ys[..k + 1] ensures c.Get(y, 0) >= 1 {
      assert y in ys;
    }
    RunTotalPositive(c, ys[..k + 1]);
  }

  /** A running total of positive counts is positive. */
  lemma {:induction false} RunTotalPositive(c: Dict<int>, ys: seq<string>)
    requires ys != []
    requires forall y :: y in ys ==> c.Get(y, 0) >= 1
    ensures RunTotal(c, ys) >= 1
  {
    var p := ys[..|ys| - 1];
    assert ys[|ys| - 1] in ys;
    if p != [] {
      forall y | y in p ensures c.Get(y, 0) >= 1 {
        var i :| 0 <= i < |p| && p[i] == y;
        assert ys[i] == y;
      }
      RunTotalPositive(c, p);
    }
  }

  /** `if (!issuesMap[issue]) issuesMap[issue] = nodes.length` for one more record. */
  lemma IssuesMapStep(ls: seq<string>, l: string, im: Dict<int>, im': Dict<int>)
    requires im == IssuesMap(ls)
    requires im' == if im.Get(l, 0) == 0 then im.Put(l, 1 + |Distinct(ls)|) else im
    ensures im' == IssuesMap(ls + [l])
  {
    assert (ls + [l])[..|ls|] == ls;
  }

  /** An issue has a node index exactly when it has counts. */
  lemma MappedIsCounted(ps: seq<(string, string)>, l: string)
    ensures (IssuesMap(Firsts(ps)).Get(l, 0) == 0) == (l !in TallyPairs(ps).entries)
  {
    IssuesMapFacts(Firsts(ps));
    TallyPairsFacts(ps);
  }

  /** `cumulativeCounts[issue] = {}` for a new issue, then the count for its year. */
  lemma CountsStep(ps: seq<(string, string)>, l: string, yk: string,
                   cc: Dict<Dict<int>>, cc1: Dict<Dict<int>>, cc': Dict<Dict<int>>)
    requires cc == TallyPairs(ps)
    requires cc1 == if l !in cc.entries then cc.Put(l, Empty()) else cc
    requires cc' == cc1.Put(l, Increment(cc1.Get(l, Empty()), yk))
    ensures cc' == TallyPairs(ps + [(l, yk)])
  {
    var qs := ps + [(l, yk)];
    assert qs[..|qs| - 1] == ps;
    EnsuredKey(cc, cc1, l, Empty());
    assert cc1.Get(l, Empty()) == cc.Get(l, Empty());
    PutPut(cc, l, cc.Get(l, Empty()), Increment(cc.Get(l, Empty()), yk));
  }

  /** The inner `forEach` for one issue: a link per year key, `totalCount` running over them. */
  method PushYearLinks(links0: seq<Link>, counts: Dict<int>, years: seq<string>, issueIndex: int)
    returns (links: seq<Link>)
    ensures links == links0 + RunLinks(counts, years, issueIndex)
  {
    links := links0;
    var totalCount := 0;
    var j := 0;
    while j < |years|
      invariant 0 <= j <= |years|
      invariant totalCount == RunTotal(counts, years[..j])
      invariant links == links0 + RunLinks(counts, years[..j], issueIndex)
    {
      var year := years[j];
      assert years[..j + 1][..j] == years[..j];
      totalCount := totalCount + counts.Get(year, 0);
      links := links + [Link(0, issueIndex, totalCount, ParseInt(year))];
      j := j + 1;
    }
    assert years[..j] == years;
  }

  /** The outer `forEach` over `Object.keys(cumulativeCounts)`. */
  method PushIssueLinks(cumulativeCounts: Dict<Dict<int>>, issuesMap: Dict<int>, issues: seq<string>)
    returns (links: seq<Link>)
    ensures links == AllLinks(cumulativeCounts, issuesMap, issues)
  {
    links := [];
    var n := 0;
    while n < |issues|
      invariant 0 <= n <= |issues|
      invariant links == AllLinks(cumulativeCounts, issuesMap, issues[..n])
    {
      var issue := issues[n];
      assert issues[..n + 1][..n] == issues[..n];
      var issueIndex := issuesMap.Get(issue, 0);
      var counts := cumulativeCounts.Get(issue, Empty());
      var years := SortBy(counts.Keys(), KeyRank);
      links := PushYearLinks(links, counts, years, issueIndex);
      n := n + 1;
    }
    assert issues[..n] == issues;
  }

  /**
   `processSankeyData` between reading `data.json` and writing
   `sankeyData.json`; `nodes` holds the node names.
   */
  method ProcessSankeyData(rawData: seq<CaseRecord>) returns (nodes: seq<string>, links: seq<Link>)
    ensures nodes == Nodes(rawData) && links == SankeyLinks(rawData)
    ensures SankeyShape(rawData, nodes, links)
    ensures UniqueLinkKeys(links) && ContiguousTargets(links)
  {
    var issuesMap, cumulativeCounts;
    nodes, issuesMap, cumulativeCounts := CountRecords(rawData);
    links := PushIssueLinks(cumulativeCounts, issuesMap, cumulativeCounts.Keys());
    SankeyShapeHolds(rawData);
    SankeyLinksLayout(rawData);
  }

  /** The first `forEach`: a node and an index for each new issue, and a count per issue and year. */
  method CountRecords(rawData: seq<CaseRecord>) returns (nodes: seq<string>, issuesMap: Dict<int>, cumulativeCounts: Dict<Dict<int>>)
    ensures nodes == Nodes(rawData)
    ensures issuesMap == IssuesMap(Labels(rawData))
    ensures cumulativeCounts == Counts(rawData)
  {
    nodes := [AllCases];
    issuesMap := Empty();
    cumulativeCounts := Empty();
    ghost var ps: seq<(string, string)> := [];
    for i := 0 to |rawData|
      invariant ps == LabelYears(rawData[..i])
      invariant nodes == [AllCases] + Distinct(Firsts(ps))
      invariant issuesMap == IssuesMap(Firsts(ps))
      invariant cumulativeCounts == TallyPairs(ps)
    {
      var entry := rawData[i];
      ghost var nd, im, cc := nodes, issuesMap, cumulativeCounts;
      nodes, issuesMap, cumulativeCounts := CountRecord(nodes, issuesMap, cumulativeCounts, entry);
      RecordStep(ps, Label(entry), RecordYearKey(entry), nd, im, cc, nodes, issuesMap, cumulativeCounts);
      LabelYearsSnoc(rawData, i);
      ps := ps + [LabelYear(entry)];
    }
    assert rawData[..|rawData|] == rawData;
  }

  /** The callback of the first `forEach` for one record `entry`. */
  method CountRecord(nodes: seq<string>, issuesMap: Dict<int>, cumulativeCounts: Dict<Dict<int>>, entry: CaseRecord)
    returns (nodes': seq<string>, issuesMap': Dict<int>, cumulativeCounts': Dict<Dict<int>>)
    ensures if issuesMap.Get(Label(entry), 0) == 0 then
              nodes' == nodes + [Label(entry)] && issuesMap' == issuesMap.Put(Label(entry), |nodes|)
              && cumulativeCounts' == cumulativeCounts.Put(Label(entry), Empty()).Put(Label(entry), Increment(Empty(), RecordYearKey(entry)))
            else
              nodes' == nodes && issuesMap' == issuesMap
              && cumulativeCounts' == cumulativeCounts.Put(Label(entry), Increment(cumulativeCounts.Get(Label(entry), Empty()), RecordYearKey(entry)))
  {
    var year := YearOf(entry);
    var issue := if entry.issue != "" then entry.issue else NoIssue;
    nodes', issuesMap', cumulativeCounts' := nodes, issuesMap, cumulativeCounts;
    if issuesMap'.Get(issue, 0) == 0 {
      issuesMap' := issuesMap'.Put(issue, |nodes'|);
      nodes' := nodes' + [issue];
      cumulativeCounts' := cumulativeCounts'.Put(issue, Empty());
    }
    ghost var counted := cumulativeCounts';
    var byYear := cumulativeCounts'.Get(issue, Empty());
    if byYear.Get(YearKey(year), 0) == 0 {
      IncrementAbsent(byYear, YearKey(year));
      cumulativeCounts' := cumulativeCounts'.Put(issue, byYear.Put(YearKey(year), 1));
    } else {
      cumulativeCounts' := cumulativeCounts'.Put(issue, byYear.Put(YearKey(year), byYear.Get(YearKey(year), 0) + 1));
    }
    assert cumulativeCounts' == counted.Put(issue, Increment(byYear, YearKey(year)));
  }

  /**
   One call of the callback for a record of issue `l` and year key `yk`, on
   the state after the records whose issues and year keys are `ps`.
   */
  lemma RecordStep(ps: seq<(string, string)>, l: string, yk: string,
                   nodes: seq<string>, im: Dict<int>, cc: Dict<Dict<int>>,
                   nodes': seq<string>, im': Dict<int>, cc': Dict<Dict<int>>)
    requires nodes == [AllCases] + Distinct(Firsts(ps)) && im == IssuesMap(Firsts(ps)) && cc == TallyPairs(ps)
    requires if im.Get(l, 0) == 0 then
               nodes' == nodes + [l] && im' == im.Put(l, |nodes|) && cc' == cc.Put(l, Empty()).Put(l, Increment(Empty(), yk))
             else
               nodes' == nodes && im' == im && cc' == cc.Put(l, Increment(cc.Get(l, Empty()), yk))
    ensures nodes' == [AllCases] + Distinct(Firsts(ps + [(l, yk)]))
    ensures im' == IssuesMap(Firsts(ps + [(l, yk)]))
    ensures cc' == TallyPairs(ps + [(l, yk)])
  {
    FirstsSnoc(ps, (l, yk));
    MappedIsCounted(ps, l);
    if im.Get(l, 0) == 0 {
      NewIssueStep(Firsts(ps), l, nodes, im);
      CountsStep(ps, l, yk, cc, cc.Put(l, Empty()), cc');
    } else {
      KnownIssueStep(Firsts(ps), l, im);
      CountsStep(ps, l, yk, cc, cc, cc');
    }
  }

  /** An issue not mapped yet: its node goes at the end and the issue is mapped to that node's index. */
  lemma NewIssueStep(ls: seq<string>, l: string, nodes: seq<string>, im: Dict<int>)
    requires nodes == [AllCases] + Distinct(ls) && im == IssuesMap(ls)
    requires im.Get(l, 0) == 0
    ensures nodes + [l] == [AllCases] + Distinct(ls + [l])
    ensures im.Put(l, |nodes|) == IssuesMap(ls + [l])
  {
    NodesStep(ls, l, im);
    assert nodes + [l] == [AllCases] + (Distinct(ls) + [l]);
    IssuesMapStep(ls, l, im, im.Put(l, |nodes|));
  }

  /** An issue mapped already leaves the nodes and the map as they are. */
  lemma KnownIssueStep(ls: seq<string>, l: string, im: Dict<int>)
    requires im == IssuesMap(ls)
    requires im.Get(l, 0) != 0
    ensures Distinct(ls) == Distinct(ls + [l])
    ensures im == IssuesMap(ls + [l])
  {
    NodesStep(ls, l, im);
    IssuesMapStep(ls, l, im, im);
  }

  lemma FirstsSnoc(ps: seq<(string, string)>, x: (string, string))
    ensures Firsts(ps + [x]) == Firsts(ps) + [x.0]
  {
    assert (ps + [x])[..|ps|] == ps;
  }

  /** A new issue adds its node at the end; a known one adds nothing. */
  lemma NodesStep(ls: seq<string>, l: string, im: Dict<int>)
    requires im == IssuesMap(ls)
    ensures Distinct(ls + [l]) == if im.Get(l, 0) == 0 then Distinct(ls) + [l] else Distinct(ls)
  {
    assert (ls + [l])[..|ls|] == ls;
    IssuesMapFacts(ls);
  }

}
