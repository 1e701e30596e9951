/**
 The two pure pieces of the bar-chart page (`bar-chart-script.js`): the
 filter applied to the loaded `barChartData.json` entries when the issue or
 discipline selection changes, and the option lists of the two multi-selects,
 each value once in the order it first occurs.
 */
module BarChartScript {
  import opened Seqs
  import opened ProcessBarChartData

  /** `selected.length === 0 || selected.includes(v)`: an empty selection lets everything through. */
  predicate Selects(selected: seq<string>, v: string)
  {
    |selected| == 0 || v in selected
  }

  /** `issueMatch && disciplineMatch` for entry `d`. */
  predicate Matches(selectedIssues: seq<string>, selectedDisciplines: seq<string>, d: BarEntry)
  {
    Selects(selectedIssues, d.issue) && Selects(selectedDisciplines, d.discipline)
  }

  /** `filterData(selectedIssues, selectedDisciplines)` over `originalData`. */
  function FilterData(originalData: seq<BarEntry>, selectedIssues: seq<string>, selectedDisciplines: seq<string>): seq<BarEntry>
  {
    Filter(originalData, d => Matches(selectedIssues, selectedDisciplines, d))
  }

  /** The filtered entries keep their order: they are `originalData` with some entries removed. */
  lemma FilterDataSubsequence(originalData: seq<BarEntry>, selectedIssues: seq<string>, selectedDisciplines: seq<string>)
    ensures IsSubsequence(FilterData(originalData, selectedIssues, selectedDisciplines), originalData)
  {
    SubsequenceOfFilter(originalData, d => Matches(selectedIssues, selectedDisciplines, d));
  }

  /** With nothing selected in either list the chart shows all the data. */
  lemma FilterDataNoSelection(originalData: seq<BarEntry>)
    ensures FilterData(originalData, [], []) == originalData
  {
    FilterAll(originalData, d => Matches([], [], d));
  }

  /**
   An entry is shown exactly when it is in the data, its issue is selected or
   no issue is, and its discipline is selected or no discipline is; a shown
   entry appears as often as in the data, a hidden one not at all.
   */
  lemma FilterDataEntries(originalData: seq<BarEntry>, selectedIssues: seq<string>, selectedDisciplines: seq<string>, x: BarEntry)
    ensures x in FilterData(originalData, selectedIssues, selectedDisciplines) <==>
              x in originalData
              && (selectedIssues == [] || x.issue in selectedIssues)
              && (selectedDisciplines == [] || x.discipline in selectedDisciplines)
    ensures Occ(FilterData(originalData, selectedIssues, selectedDisciplines), x) ==
              if Matches(selectedIssues, selectedDisciplines, x) then Occ(originalData, x) else 0
  {
    FilterOcc(originalData, d => Matches(selectedIssues, selectedDisciplines, d), x);
  }

  /** `data.map(d => d.issue)`. */
  function IssuesOf(data: seq<BarEntry>): seq<string>
  {
    MapSeq(data, (d: BarEntry) => d.issue)
  }

  /** `data.map(d => d.discipline)`. */
  function DisciplinesOf(data: seq<BarEntry>): seq<string>
  {
    MapSeq(data, (d: BarEntry) => d.discipline)
  }

  /** `[...new Set(data.map(d => d.issue))]`: a `Set` iterates in insertion order. */
  function IssueOptions(data: seq<BarEntry>): seq<string>
  {
    Distinct(IssuesOf(data))
  }

  /** `[...new Set(data.map(d => d.discipline))]`. */
  function DisciplineOptions(data: seq<BarEntry>): seq<string>
  {
    Distinct(DisciplinesOf(data))
  }

  /**
   An option list built from `values` holds each value once, holds exactly
   the values some entry has, and lists them in the order of their first
   occurrence.
   */
  lemma {:induction false} OptionsOf(data: seq<BarEntry>, values: seq<string>, field: BarEntry -> string)
    requires values == MapSeq(data, field)
    ensures NoDup(Distinct(values))
    ensures forall v :: v in Distinct(values) <==> exists i :: 0 <= i < |data| && field(data[i]) == v
    ensures forall i, j :: 0 <= i < j < |Distinct(values)| ==>
              FirstIndex(values, Distinct(values)[i]) < FirstIndex(values, Distinct(values)[j])
  {
    MapSeqAt(data, field);
    DistinctFirstSeen(values);
    forall v | v in Distinct(values) ensures exists i :: 0 <= i < |data| && field(data[i]) == v {
      var i :| 0 <= i < |values| && values[i] == v;
      assert field(data[i]) == v;
    }
    forall v | (exists i :: 0 <= i < |data| && field(data[i]) == v) ensures v in Distinct(values) {
      var i :| 0 <= i < |data| && field(data[i]) == v;
      assert values[i] == v;
    }
  }

  /** The issue options: no duplicates, every issue of the data, first-seen order. */
  lemma IssueOptionsFacts(data: seq<BarEntry>)
    ensures NoDup(IssueOptions(data))
    ensures forall v :: v in IssueOptions(data) <==> exists i :: 0 <= i < |data| && data[i].issue == v
    ensures forall i, j :: 0 <= i < j < |IssueOptions(data)| ==>
              FirstIndex(IssuesOf(data), IssueOptions(data)[i]) < FirstIndex(IssuesOf(data), IssueOptions(data)[j])
  {
    OptionsOf(data, IssuesOf(data), (d: BarEntry) => d.issue);
  }

  /** The discipline options: no duplicates, every discipline of the data, first-seen order. */
  lemma DisciplineOptionsFacts(data: seq<BarEntry>)
    ensures NoDup(DisciplineOptions(data))
    ensures forall v :: v in DisciplineOptions(data) <==> exists i :: 0 <= i < |data| && data[i].discipline == v
    ensures forall i, j :: 0 <= i < j < |DisciplineOptions(data)| ==>
              FirstIndex(DisciplinesOf(data), DisciplineOptions(data)[i]) < FirstIndex(DisciplinesOf(data), DisciplineOptions(data)[j])
  {
    OptionsOf(data, DisciplinesOf(data), (d: BarEntry) => d.discipline);
  }
}
