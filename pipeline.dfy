/** The dashboard's data path in `fetchData` (src/App.js:192-197) and `useMemo`
    (src/App.js:210-231): CSV text -> `parseCSV` -> `transformSheetData` -> summary figures,
    with the fetch itself left out. */
module Pipeline {
  import opened JsText
  import opened Seqs
  import opened Csv
  import opened Sheet
  import opened Dashboard

  /** `projectData` for a parsed sheet, as grouped from its rows. */
  lemma {:induction false} ProjectDataIsGroup(parsed: Parsed)
    requires parsed.Table?
    ensures TransformResult(parsed).projectData
         == Group(Entries(parsed.headers, ProcessSteps(parsed.headers), parsed.data))
  {
  }

  /** The models of the sheet's rows, in row order. */
  function RowModels(parsed: Parsed): (r: seq<Model>)
    requires parsed.Table?
    ensures |r| == |parsed.data|
    ensures forall n :: 0 <= n < |r| ==> r[n] == ModelOf(parsed.headers, ProcessSteps(parsed.headers), parsed.data[n])
  {
    EntryModels(Entries(parsed.headers, ProcessSteps(parsed.headers), parsed.data))
  }

  /** `allModels` holds the model of every data row, each once. */
  lemma {:induction false} PipelineModels(parsed: Parsed)
    requires parsed.Table?
    ensures multiset(AllModels(TransformResult(parsed).projectData)) == multiset(RowModels(parsed))
    ensures |AllModels(TransformResult(parsed).projectData)| == |parsed.data|
  {
    var es := Entries(parsed.headers, ProcessSteps(parsed.headers), parsed.data);
    ProjectDataIsGroup(parsed);
    GroupModels(es);
    assert |multiset(AllModels(Group(es)))| == |multiset(EntryModels(es))|;
  }

  /** `totalTasks` is one step per data row and step column. */
  lemma {:induction false} PipelineTasks(parsed: Parsed)
    requires parsed.Table?
    ensures SummaryOf(TransformResult(parsed).projectData).totalTasks
         == |parsed.data| * |ProcessSteps(parsed.headers)|
  {
    var pd := TransformResult(parsed).projectData;
    var ms := AllModels(pd);
    var steps := ProcessSteps(parsed.headers);
    PipelineModels(parsed);
    forall j | 0 <= j < |ms|
      ensures |StepLists(ms)[j]| == |steps|
    {
      assert ms[j] in multiset(RowModels(parsed));
      var n :| 0 <= n < |parsed.data| && RowModels(parsed)[n] == ms[j];
    }
    FlattenUniformLength(StepLists(ms), |steps|);
  }

  /** The country of each row (`CountryOf`: the field read through header 0, or "Unknown Country"), in row order. */
  function RowCountries(parsed: Parsed): (r: seq<string>)
    requires parsed.Table?
    ensures |r| == |parsed.data|
    ensures forall n :: 0 <= n < |r| ==> r[n] == CountryOf(parsed.headers, parsed.data[n])
  {
    EntryCountries(Entries(parsed.headers, ProcessSteps(parsed.headers), parsed.data))
  }

  /** `countryCount` is the number of distinct country values among the rows. */
  lemma {:induction false} PipelineCountries(parsed: Parsed)
    requires parsed.Table?
    ensures SummaryOf(TransformResult(parsed).projectData).countryCount == |Elems(RowCountries(parsed))|
  {
    ProjectDataIsGroup(parsed);
    GroupCountries(Entries(parsed.headers, ProcessSteps(parsed.headers), parsed.data));
  }

  /** `totalModels` is the sum of the categories' totals, each category counted once. */
  lemma {:induction false} PipelineTotals(parsed: Parsed)
    requires parsed.Table?
    ensures var pd := TransformResult(parsed).projectData;
      SummaryOf(pd).totalModels == SumTotals(CategoryTotals(pd))
  {
    TransformedCategories(parsed);
    ValuesOfDistinct(TransformResult(parsed).projectData);
  }

  /** A text with fewer than two non-empty lines gives an empty dashboard: no categories, no
      steps, and all figures 0. */
  lemma {:induction false} EmptyPipeline(text: string)
    requires |Lines(text)| < 2
    ensures TransformResult(ParseResult(text)) == Transformed([], [])
    ensures SummaryOf([]) == Summary(0, 0, 0, Some(0), 0)
  {
    assert Elems<string>([]) == {};
  }

  /** The successful path of `fetchData`, from the response text to the state the dashboard
      renders, and the figures `useMemo` derives from it. */
  method LoadDashboard(csvText: string) returns (t: Transformed, s: Summary)
    ensures t == TransformResult(ParseResult(csvText))
    ensures s == SummaryOf(t.projectData)
    ensures |Lines(csvText)| < 2 ==> t == Transformed([], []) && s == Summary(0, 0, 0, Some(0), 0)
    ensures ParseResult(csvText).Table? ==>
      s.totalTasks == (|Lines(csvText)| - 1) * |ProcessSteps(Fields(Lines(csvText)[0]))|
  {
    var parsedData := ParseCsv(csvText);
    t := TransformSheetData(parsedData);
    s := Aggregate(t.projectData);
    if parsedData.Empty? {
      EmptyPipeline(csvText);
    } else {
      PipelineTasks(parsedData);
    }
  }
}
