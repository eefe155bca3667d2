/** `transformSheetData` (src/App.js:26-78): the wide sheet, one row per model with one
    column per process step, regrouped as category -> country -> model -> steps. */
module Sheet {
  import opened JsText
  import opened Seqs
  import opened Csv

  /** The status strings the sheet uses: "완료" (completed) and "미진행" (not started). */
  const Completed: string := "완료"
  const NotStarted: string := "미진행"

  /** Header fragments that mark a column as descriptive information rather than a step. */
  const InfoColumns: seq<string> :=
    ["TR", "제품군", "제품명", "Gallery", "Dimension", "Install Video", "FAQ", "WBS Level", "비고", "TotalModels"]

  datatype Step = Step(name: string, status: string)
  datatype Model = Model(name: string, wbsLevel: Option<string>, steps: seq<Step>)
  datatype Country = Country(name: string, models: seq<Model>)
  /** `totalModels` is None where `parseInt` gave NaN. */
  datatype Category = Category(category: string, totalModels: Option<int>, countries: seq<Country>)
  datatype Transformed = Transformed(projectData: seq<Category>, processSteps: seq<string>)

  // ---------------------------------------------------------------------------
  // Column roles

  /** `infoColumns.some(infoCol => h.includes(infoCol))` */
  predicate IsInfoHeader(h: string)
  {
    exists i :: 0 <= i < |InfoColumns| && Includes(h, InfoColumns[i])
  }

  /** `dynamicInfoHeaders` */
  function DynamicInfoHeaders(headers: seq<string>): seq<string>
  {
    Filter(headers, IsInfoHeader)
  }

  /** `processSteps`: headers kept by
      `h && !dynamicInfoHeaders.includes(h) && h !== 'column_0' && h !== 'column_1' && h !== 'column_2'`. */
  function ProcessSteps(headers: seq<string>): seq<string>
  {
    var info := DynamicInfoHeaders(headers);
    Filter(headers, (h: string) => h != "" && h !in info && h != "column_0" && h != "column_1" && h != "column_2")
  }

  /** The role of one header taken by itself: a step column is non-empty, contains no
      information fragment, and is not literally named `column_0`, `column_1` or `column_2`. */
  predicate IsStepHeader(h: string)
  {
    h != "" && !IsInfoHeader(h) && h != "column_0" && h != "column_1" && h != "column_2"
  }

  /** Whether a header is a step depends on that header alone, not on the others: the
      steps are the headers with the step role, in header order, repeats included. */
  lemma {:induction false} ProcessStepsByRole(headers: seq<string>)
    ensures ProcessSteps(headers) == Filter(headers, IsStepHeader)
    ensures IsSubsequence(ProcessSteps(headers), headers)
    ensures forall h :: h in ProcessSteps(headers) <==> h in headers && IsStepHeader(h)
  {
    var info := DynamicInfoHeaders(headers);
    var p := (h: string) => h != "" && h !in info && h != "column_0" && h != "column_1" && h != "column_2";
    forall i | 0 <= i < |headers|
      ensures p(headers[i]) == IsStepHeader(headers[i])
    {
      assert headers[i] in info <==> IsInfoHeader(headers[i]);
    }
    FilterCongruent(headers, p, IsStepHeader);
    FilterIsSubsequence(headers, IsStepHeader);
  }

  // ---------------------------------------------------------------------------
  // What one row contributes

  /** `headers[i]` used as a property key: past the end it is undefined, which JavaScript
      turns into the key "undefined". */
  function HeaderAt(headers: seq<string>, i: nat): string
  {
    if i < |headers| then headers[i] else "undefined"
  }

  /** `row[headers[p]] || d` */
  function PositionalField(headers: seq<string>, row: Row, p: nat, d: string): string
  {
    OrDefault(Cell(row, HeaderAt(headers, p)), d)
  }

  /** `row[headers[0]] || 'Unknown Country'` */
  function CountryOf(headers: seq<string>, row: Row): string
  {
    PositionalField(headers, row, 0, "Unknown Country")
  }

  /** `row[headers[1]] || 'Uncategorized'` */
  function CategoryOf(headers: seq<string>, row: Row): string
  {
    PositionalField(headers, row, 1, "Uncategorized")
  }

  /** `row[headers[2]] || 'Unknown Model'` */
  function ModelNameOf(headers: seq<string>, row: Row): string
  {
    PositionalField(headers, row, 2, "Unknown Model")
  }

  /** `totalModelsHeader ? parseInt(row[totalModelsHeader], 10) : 200` */
  function TotalModelsOf(headers: seq<string>, row: Row): Option<int>
  {
    if "TotalModels" in headers then ParseInt(ToJsString(Cell(row, "TotalModels"))) else Some(200)
  }

  /** `wbsLevelHeader ? row[wbsLevelHeader] : '미진행'` (which may be undefined or empty) */
  function WbsLevelOf(headers: seq<string>, row: Row): Option<string>
  {
    if "WBS Level" in headers then Cell(row, "WBS Level") else Some(NotStarted)
  }

  /** For a parsed line, a positional field is its default when the header at that
      position is empty or no column carries it as key. Otherwise it is the field of the
      last column with that key, or the default when that field is "" or missing. In
      particular, a header at position p that no later column repeats reads column p, and
      a later column with the same key overrides it. */
  lemma {:induction false} PositionalFieldOfLine(headers: seq<string>, values: seq<string>, p: nat, d: string)
    ensures var f, h := PositionalField(headers, RowOf(headers, values), p, d), HeaderAt(headers, p);
      (h == "" ==> f == d)
      && ((forall j :: 0 <= j < |headers| ==> ColumnKey(headers[j], j) != h) ==> f == d)
      && (forall j :: LastColumnWithKey(headers, j, h) ==> f == OrDefault(FieldAt(values, j), d))
      && (h != "" && LastColumnWithKey(headers, p, h) ==> f == OrDefault(FieldAt(values, p), d))
  {
    CellOfLine(headers, values, HeaderAt(headers, p));
  }

  /** A header that does not start with 'c' and occurs among the headers has a last
      column, and that column carries the header itself. */
  lemma {:induction false} LastNamedColumn(headers: seq<string>, h: string)
    requires h != "" && h[0] != 'c'
    ensures h in headers ==> exists j :: LastColumnWithKey(headers, j, h) && headers[j] == h
  {
    if h in headers {
      var i :| 0 <= i < |headers| && headers[i] == h;
      assert ColumnKey(headers[i], i) == h;
      LastColumnExists(headers, h, i);
      var j :| LastColumnWithKey(headers, j, h);
      KeyStart(headers[j], j);
      assert headers[j] == h;
    }
  }

  /** `totalModels` of a parsed line: 200 without a `TotalModels` header, otherwise
      `parseInt` of the field of the last `TotalModels` column (of "undefined" past the
      line's end, which is NaN). */
  lemma {:induction false} TotalModelsOfLine(headers: seq<string>, values: seq<string>)
    ensures "TotalModels" !in headers ==> TotalModelsOf(headers, RowOf(headers, values)) == Some(200)
    ensures forall j :: LastColumnWithKey(headers, j, "TotalModels") && headers[j] == "TotalModels"
              ==> TotalModelsOf(headers, RowOf(headers, values)) == ParseInt(ToJsString(FieldAt(values, j)))
    ensures "TotalModels" in headers ==> exists j :: LastColumnWithKey(headers, j, "TotalModels") && headers[j] == "TotalModels"
    ensures forall j :: LastColumnWithKey(headers, j, "TotalModels") && headers[j] == "TotalModels" && j >= |values|
              ==> TotalModelsOf(headers, RowOf(headers, values)) == None
  {
    CellOfLine(headers, values, "TotalModels");
    LastNamedColumn(headers, "TotalModels");
    assert [] + "undefined" == "undefined";
    ParseIntWithoutDigits([], "undefined");
  }

  /** `wbsLevel` of a parsed line: "미진행" without a `WBS Level` header, otherwise the
      field of the last `WBS Level` column as it is, undefined or "" included. */
  lemma {:induction false} WbsLevelOfLine(headers: seq<string>, values: seq<string>)
    ensures "WBS Level" !in headers ==> WbsLevelOf(headers, RowOf(headers, values)) == Some(NotStarted)
    ensures forall j :: LastColumnWithKey(headers, j, "WBS Level") && headers[j] == "WBS Level"
              ==> WbsLevelOf(headers, RowOf(headers, values)) == FieldAt(values, j)
    ensures "WBS Level" in headers ==> exists j :: LastColumnWithKey(headers, j, "WBS Level") && headers[j] == "WBS Level"
  {
    CellOfLine(headers, values, "WBS Level");
    LastNamedColumn(headers, "WBS Level");
  }

  /** `processSteps.map(stepName => ({ name: stepName, status: row[stepName] || '미진행' }))` */
  function StepsOf(processSteps: seq<string>, row: Row): seq<Step>
  {
    seq(|processSteps|, j requires 0 <= j < |processSteps| =>
      Step(processSteps[j], OrDefault(Cell(row, processSteps[j]), NotStarted)))
  }

  function ModelOf(headers: seq<string>, processSteps: seq<string>, row: Row): Model
  {
    Model(ModelNameOf(headers, row), WbsLevelOf(headers, row), StepsOf(processSteps, row))
  }

  /** Every model has one step per step column, named after it, whose status is the cell
      or "미진행" when the cell is empty or undefined. */
  lemma {:induction false} ModelSteps(headers: seq<string>, processSteps: seq<string>, row: Row)
    ensures var steps := ModelOf(headers, processSteps, row).steps;
      |steps| == |processSteps|
      && (forall j :: 0 <= j < |steps| ==> steps[j].name == processSteps[j])
      && (forall j :: 0 <= j < |steps| ==> steps[j].status != "")
      && (forall j :: 0 <= j < |steps| ==>
            (steps[j].status == NotStarted <==> Cell(row, processSteps[j]) in {None, Some(""), Some(NotStarted)}))
      && (forall j :: 0 <= j < |steps| ==>
            Cell(row, processSteps[j]) == Some(steps[j].status)
            || (steps[j].status == NotStarted && Cell(row, processSteps[j]) in {None, Some("")}))
  {
    var steps := StepsOf(processSteps, row);
    assert ModelOf(headers, processSteps, row).steps == steps;
    forall j | 0 <= j < |steps|
      ensures steps[j].name == processSteps[j] && steps[j].status != ""
      ensures steps[j].status == NotStarted <==> Cell(row, processSteps[j]) in {None, Some(""), Some(NotStarted)}
      ensures Cell(row, processSteps[j]) == Some(steps[j].status)
           || (steps[j].status == NotStarted && Cell(row, processSteps[j]) in {None, Some("")})
    {
      var v := Cell(row, processSteps[j]);
      assert steps[j] == Step(processSteps[j], OrDefault(v, NotStarted));
    }
  }

  /** What one row of the sheet contributes: where it goes and the model it adds. */
  datatype Entry = Entry(category: string, country: string, total: Option<int>, model: Model)

  function EntryOf(headers: seq<string>, processSteps: seq<string>, row: Row): Entry
  {
    Entry(CategoryOf(headers, row), CountryOf(headers, row), TotalModelsOf(headers, row),
          ModelOf(headers, processSteps, row))
  }

  /** The entries of the data rows, in row order. */
  function Entries(headers: seq<string>, processSteps: seq<string>, data: seq<Row>): (es: seq<Entry>)
    ensures |es| == |data|
    ensures forall n :: 0 <= n < |data| ==> es[n] == EntryOf(headers, processSteps, data[n])
  {
    if data == [] then []
    else Entries(headers, processSteps, data[..|data| - 1]) + [EntryOf(headers, processSteps, data[|data| - 1])]
  }

  // ---------------------------------------------------------------------------
  // Grouping: `groupedData`, with insertion-ordered association lists for the objects

  function Names(g: seq<Category>): (r: seq<string>)
    ensures |r| == |g| && forall i :: 0 <= i < |g| ==> r[i] == g[i].category
  {
    seq(|g|, i requires 0 <= i < |g| => g[i].category)
  }

  function CountryNames(cs: seq<Country>): (r: seq<string>)
    ensures |r| == |cs| && forall j :: 0 <= j < |cs| ==> r[j] == cs[j].name
  {
    seq(|cs|, j requires 0 <= j < |cs| => cs[j].name)
  }

  /** Creates `countries[k]` on its first occurrence, then pushes the model onto it. */
  function AddToCountries(cs: seq<Country>, k: string, m: Model): seq<Country>
  {
    var j := IndexOf(CountryNames(cs), k);
    if j == |cs| then cs + [Country(k, [m])]
    else cs[j := cs[j].(models := cs[j].models + [m])]
  }

  /** One pass of `data.forEach`: creates `groupedData[category]` on its first occurrence
      (fixing its `totalModels`), then adds the model under its country. */
  function AddEntry(g: seq<Category>, e: Entry): seq<Category>
  {
    var i := IndexOf(Names(g), e.category);
    if i == |g| then g + [Category(e.category, e.total, [Country(e.country, [e.model])])]
    else g[i := g[i].(countries := AddToCountries(g[i].countries, e.country, e.model))]
  }

  /** `groupedData` after the given entries, flattened as `Object.values` does. */
  function Group(es: seq<Entry>): seq<Category>
  {
    if es == [] then [] else AddEntry(Group(es[..|es| - 1]), es[|es| - 1])
  }

  /** The value `transformSheetData(parsed)`. */
  function TransformResult(parsed: Parsed): Transformed
  {
    if parsed.Empty? || parsed.data == [] then Transformed([], [])
    else
      var steps := ProcessSteps(parsed.headers);
      Transformed(Group(Entries(parsed.headers, steps, parsed.data)), steps)
  }

  /** The body of `data.forEach`: reads the row's country, category, model name and
      total, creates `groupedData[category]` and its `countries[country]` when absent, and
      pushes the row's model. */
  method AddRow(grouped: seq<Category>, headers: seq<string>, processSteps: seq<string>, row: Row)
    returns (g: seq<Category>)
    ensures g == AddEntry(grouped, EntryOf(headers, processSteps, row))
  {
    var country := CountryOf(headers, row);
    var category := CategoryOf(headers, row);
    var modelName := ModelNameOf(headers, row);
    var totalModels := TotalModelsOf(headers, row);
    g := grouped;

    var ci := IndexOf(Names(g), category);
    if ci == |g| {
      g := g + [Category(category, totalModels, [])];
    }
    var countries := g[ci].countries;
    ghost var found := countries;
    var ki := IndexOf(CountryNames(countries), country);
    if ki == |countries| {
      countries := countries + [Country(country, [])];
    }
    var wbsLevel := WbsLevelOf(headers, row);
    var modelSteps := StepsOf(processSteps, row);
    var model := Model(modelName, wbsLevel, modelSteps);
    countries := countries[ki := countries[ki].(models := countries[ki].models + [model])];
    if ki == |found| {
      assert |countries| == |found| + 1;
      assert countries[ki] == Country(country, [model]);
      assert countries[..ki] == found;
      assert countries == found + [Country(country, [model])];
    }
    assert countries == AddToCountries(found, country, model);
    g := g[ci := g[ci].(countries := countries)];

    if ci == |grouped| {
      assert found == [];
      assert g == grouped + [Category(category, totalModels, [Country(country, [model])])];
    }
  }

  /** Grouping one more row is one more pass of the loop. */
  lemma {:induction false} GroupStep(headers: seq<string>, processSteps: seq<string>, data: seq<Row>, n: nat)
    requires n < |data|
    ensures Group(Entries(headers, processSteps, data[..n + 1]))
         == AddEntry(Group(Entries(headers, processSteps, data[..n])), EntryOf(headers, processSteps, data[n]))
  {
    assert data[..n + 1][..n] == data[..n];
    var es := Entries(headers, processSteps, data[..n + 1]);
    assert es[..n] == Entries(headers, processSteps, data[..n]);
  }

  /** `transformSheetData`, with its `data.forEach` that updates `groupedData` in place. */
  method TransformSheetData(parsed: Parsed) returns (t: Transformed)
    ensures t == TransformResult(parsed)
  {
    if parsed.Empty? || |parsed.data| == 0 {
      return Transformed([], []);
    }
    var headers, data := parsed.headers, parsed.data;
    var processSteps := ProcessSteps(headers);
    var grouped: seq<Category> := [];
    var n := 0;
    while n < |data|
      invariant 0 <= n <= |data|
      invariant grouped == Group(Entries(headers, processSteps, data[..n]))
    {
      grouped := AddRow(grouped, headers, processSteps, data[n]);
      GroupStep(headers, processSteps, data, n);
      n := n + 1;
    }
    assert data[..n] == data;
    t := Transformed(grouped, processSteps);
  }

  // ---------------------------------------------------------------------------
  // A reference definition of the grouping, without mutation

  /** The category of every entry, in row order. */
  function CatsIn(es: seq<Entry>): (r: seq<string>)
    ensures |r| == |es| && forall n :: 0 <= n < |es| ==> r[n] == es[n].category
  {
    if es == [] then [] else CatsIn(es[..|es| - 1]) + [es[|es| - 1].category]
  }

  /** The country of every entry of category `c`, in row order, repeats included. */
  function CountriesIn(es: seq<Entry>, c: string): seq<string>
  {
    if es == [] then []
    else CountriesIn(es[..|es| - 1], c) + (if es[|es| - 1].category == c then [es[|es| - 1].country] else [])
  }

  /** The model of every entry of category `c` and country `k`, in row order. */
  function ModelsIn(es: seq<Entry>, c: string, k: string): seq<Model>
  {
    if es == [] then []
    else
      var e := es[|es| - 1];
      ModelsIn(es[..|es| - 1], c, k) + (if e.category == c && e.country == k then [e.model] else [])
  }

  /** The total of the first entry of category `c`. */
  function FirstTotal(es: seq<Entry>, c: string): Option<int>
    requires c in CatsIn(es)
  {
    var init := es[..|es| - 1];
    if c in CatsIn(init) then FirstTotal(init, c) else es[|es| - 1].total
  }

  /** One country per name in `ks`, holding the models of the entries of category `c` and
      that country. */
  function CountriesOf(es: seq<Entry>, c: string, ks: seq<string>): (r: seq<Country>)
    ensures |r| == |ks|
  {
    if ks == [] then []
    else
      var k := ks[|ks| - 1];
      CountriesOf(es, c, ks[..|ks| - 1]) + [Country(k, ModelsIn(es, c, k))]
  }

  /** The category `c`: the total of its first entry, and one country per distinct country
      of its entries, in order of first occurrence. */
  function RefCategory(es: seq<Entry>, c: string): Category
    requires c in CatsIn(es)
  {
    Category(c, FirstTotal(es, c), CountriesOf(es, c, Distinct(CountriesIn(es, c))))
  }

  /** One category per name in `cats`. */
  function CategoriesOf(es: seq<Entry>, cats: seq<string>): (r: seq<Category>)
    requires forall i :: 0 <= i < |cats| ==> cats[i] in CatsIn(es)
    ensures |r| == |cats|
  {
    if cats == [] then []
    else CategoriesOf(es, cats[..|cats| - 1]) + [RefCategory(es, cats[|cats| - 1])]
  }

  /** One category per distinct category value, in order of first occurrence; in each, one
      country per distinct country of its rows, in order of first occurrence; in each, the
      models of its rows in row order. */
  function Reference(es: seq<Entry>): seq<Category>
  {
    CategoriesOf(es, Distinct(CatsIn(es)))
  }

  lemma {:induction false} CountriesOfAt(es: seq<Entry>, c: string, ks: seq<string>, j: nat)
    requires j < |ks|
    ensures CountriesOf(es, c, ks)[j] == Country(ks[j], ModelsIn(es, c, ks[j]))
  {
    if j < |ks| - 1 {
      CountriesOfAt(es, c, ks[..|ks| - 1], j);
    }
  }

  /** The countries depend on the entries only through the models of the listed countries. */
  lemma {:induction false} CountriesOfFrame(es1: seq<Entry>, es2: seq<Entry>, c: string, ks: seq<string>)
    requires forall j :: 0 <= j < |ks| ==> ModelsIn(es1, c, ks[j]) == ModelsIn(es2, c, ks[j])
    ensures CountriesOf(es1, c, ks) == CountriesOf(es2, c, ks)
  {
    forall j | 0 <= j < |ks|
      ensures CountriesOf(es1, c, ks)[j] == CountriesOf(es2, c, ks)[j]
    {
      CountriesOfAt(es1, c, ks, j);
      CountriesOfAt(es2, c, ks, j);
    }
  }

  lemma {:induction false} CountriesOfUpdate(es1: seq<Entry>, es2: seq<Entry>, c: string, ks: seq<string>, j: nat)
    requires j < |ks|
    requires forall j' :: 0 <= j' < |ks| && j' != j ==> ModelsIn(es1, c, ks[j']) == ModelsIn(es2, c, ks[j'])
    ensures CountriesOf(es2, c, ks) == CountriesOf(es1, c, ks)[j := Country(ks[j], ModelsIn(es2, c, ks[j]))]
  {
    var before, after := CountriesOf(es1, c, ks), CountriesOf(es2, c, ks);
    forall j' | 0 <= j' < |ks| && j' != j
      ensures before[j'] == after[j']
    {
      CountriesOfAt(es1, c, ks, j');
      CountriesOfAt(es2, c, ks, j');
    }
    CountriesOfAt(es2, c, ks, j);
    UpdateAt(before, after, j, Country(ks[j], ModelsIn(es2, c, ks[j])));
  }

  lemma {:induction false} CategoriesOfAt(es: seq<Entry>, cats: seq<string>, i: nat)
    requires forall i' :: 0 <= i' < |cats| ==> cats[i'] in CatsIn(es)
    requires i < |cats|
    ensures CategoriesOf(es, cats)[i] == RefCategory(es, cats[i])
  {
    if i < |cats| - 1 {
      CategoriesOfAt(es, cats[..|cats| - 1], i);
    }
  }

  lemma {:induction false} CategoriesOfFrame(es1: seq<Entry>, es2: seq<Entry>, cats: seq<string>)
    requires forall i :: 0 <= i < |cats| ==> cats[i] in CatsIn(es1) && cats[i] in CatsIn(es2)
    requires forall i :: 0 <= i < |cats| ==> RefCategory(es1, cats[i]) == RefCategory(es2, cats[i])
    ensures CategoriesOf(es1, cats) == CategoriesOf(es2, cats)
  {
    forall i | 0 <= i < |cats|
      ensures CategoriesOf(es1, cats)[i] == CategoriesOf(es2, cats)[i]
    {
      CategoriesOfAt(es1, cats, i);
      CategoriesOfAt(es2, cats, i);
    }
  }

  lemma {:induction false} CategoriesOfUpdate(es1: seq<Entry>, es2: seq<Entry>, cats: seq<string>, i: nat)
    requires forall i' :: 0 <= i' < |cats| ==> cats[i'] in CatsIn(es1) && cats[i'] in CatsIn(es2)
    requires i < |cats|
    requires forall i' :: 0 <= i' < |cats| && i' != i ==> RefCategory(es1, cats[i']) == RefCategory(es2, cats[i'])
    ensures CategoriesOf(es2, cats) == CategoriesOf(es1, cats)[i := RefCategory(es2, cats[i])]
  {
    var before, after := CategoriesOf(es1, cats), CategoriesOf(es2, cats);
    forall i' | 0 <= i' < |cats| && i' != i
      ensures before[i'] == after[i']
    {
      CategoriesOfAt(es1, cats, i');
      CategoriesOfAt(es2, cats, i');
    }
    CategoriesOfAt(es2, cats, i);
    UpdateAt(before, after, i, RefCategory(es2, cats[i]));
  }

  lemma {:induction false} CountriesInWithoutCategory(es: seq<Entry>, c: string)
    requires c !in CatsIn(es)
    ensures CountriesIn(es, c) == []
  {
    if es != [] {
      assert CatsIn(es)[..|es| - 1] == CatsIn(es[..|es| - 1]);
      CountriesInWithoutCategory(es[..|es| - 1], c);
    }
  }

  lemma {:induction false} ModelsInWithoutCountry(es: seq<Entry>, c: string, k: string)
    requires k !in CountriesIn(es, c)
    ensures ModelsIn(es, c, k) == []
  {
    if es != [] {
      ModelsInWithoutCountry(es[..|es| - 1], c, k);
    }
  }

  /** The models under every country other than the last entry's are unchanged by it. */
  lemma {:induction false} ModelsInOther(es: seq<Entry>, c: string, k: string)
    requires es != [] && (es[|es| - 1].category != c || es[|es| - 1].country != k)
    ensures ModelsIn(es, c, k) == ModelsIn(es[..|es| - 1], c, k)
  {
  }

  lemma {:induction false} CountryNamesOfRefCategory(es: seq<Entry>, c: string)
    requires c in CatsIn(es)
    ensures CountryNames(RefCategory(es, c).countries) == Distinct(CountriesIn(es, c))
  {
    var ks := Distinct(CountriesIn(es, c));
    forall j | 0 <= j < |ks|
      ensures CountryNames(RefCategory(es, c).countries)[j] == ks[j]
    {
      CountriesOfAt(es, c, ks, j);
    }
  }

  lemma {:induction false} NamesOfReference(es: seq<Entry>)
    ensures Names(Reference(es)) == Distinct(CatsIn(es))
  {
    var cats := Distinct(CatsIn(es));
    forall i | 0 <= i < |cats|
      ensures Names(Reference(es))[i] == cats[i]
    {
      CategoriesOfAt(es, cats, i);
    }
  }

  /** The last entry leaves every other category as it was. */
  lemma {:induction false} RefCategoryOther(es: seq<Entry>, c: string)
    requires es != [] && c != es[|es| - 1].category && c in CatsIn(es[..|es| - 1])
    ensures c in CatsIn(es)
    ensures RefCategory(es, c) == RefCategory(es[..|es| - 1], c)
  {
    var init := es[..|es| - 1];
    assert CatsIn(es) == CatsIn(init) + [es[|es| - 1].category];
    assert CountriesIn(es, c) == CountriesIn(init, c);
    var ks := Distinct(CountriesIn(es, c));
    forall j | 0 <= j < |ks|
      ensures ModelsIn(es, c, ks[j]) == ModelsIn(init, c, ks[j])
    {
      ModelsInOther(es, c, ks[j]);
    }
    CountriesOfFrame(es, init, c, ks);
  }

  /** The first entry of a category creates it with one country holding one model. */
  lemma {:induction false} RefCategoryNew(es: seq<Entry>)
    requires es != [] && es[|es| - 1].category !in CatsIn(es[..|es| - 1])
    ensures var e := es[|es| - 1];
      e.category in CatsIn(es)
      && RefCategory(es, e.category) == Category(e.category, e.total, [Country(e.country, [e.model])])
  {
    var init, e := es[..|es| - 1], es[|es| - 1];
    var c := e.category;
    assert CatsIn(es) == CatsIn(init) + [c];
    CountriesInWithoutCategory(init, c);
    assert CountriesIn(es, c) == [e.country];
    assert Distinct(CountriesIn(es, c)) == [e.country] by {
      assert CountriesIn(es, c)[..0] == [];
    }
    ModelsInWithoutCountry(init, c, e.country);
    assert ModelsIn(es, c, e.country) == [e.model];
    assert [e.country][..0] == [];
  }

  /** A later entry of a category, in a country new to that category, appends the country. */
  lemma {:induction false} NewCountryDistinct(es: seq<Entry>)
    requires es != []
    requires es[|es| - 1].country !in CountriesIn(es[..|es| - 1], es[|es| - 1].category)
    ensures var init, e := es[..|es| - 1], es[|es| - 1];
      var ks', ks := Distinct(CountriesIn(init, e.category)), Distinct(CountriesIn(es, e.category));
      ks == ks' + [e.country] && ks[..|ks'|] == ks'
  {
    var init, e := es[..|es| - 1], es[|es| - 1];
    var c, k := e.category, e.country;
    assert CountriesIn(es, c) == CountriesIn(init, c) + [k];
    assert CountriesIn(es, c)[..|CountriesIn(es, c)| - 1] == CountriesIn(init, c);
  }

  lemma {:induction false} RefCategoryNewCountry(es: seq<Entry>)
    requires es != []
    requires es[|es| - 1].category in CatsIn(es[..|es| - 1])
    requires es[|es| - 1].country !in CountriesIn(es[..|es| - 1], es[|es| - 1].category)
    ensures var init, e := es[..|es| - 1], es[|es| - 1];
      e.category in CatsIn(es)
      && RefCategory(es, e.category).countries
         == RefCategory(init, e.category).countries + [Country(e.country, [e.model])]
  {
    var init, e := es[..|es| - 1], es[|es| - 1];
    var c, k := e.category, e.country;
    assert CatsIn(es) == CatsIn(init) + [c];
    var ks' := Distinct(CountriesIn(init, c));
    var ks := Distinct(CountriesIn(es, c));
    NewCountryDistinct(es);
    ModelsInWithoutCountry(init, c, k);
    assert ModelsIn(es, c, k) == [e.model];
    forall j | 0 <= j < |ks'|
      ensures ModelsIn(es, c, ks'[j]) == ModelsIn(init, c, ks'[j])
    {
      ModelsInOther(es, c, ks'[j]);
    }
    CountriesOfFrame(es, init, c, ks');
    assert ks[..|ks| - 1] == ks' && ks[|ks| - 1] == k;
    assert CountriesOf(es, c, ks) == CountriesOf(es, c, ks') + [Country(k, ModelsIn(es, c, k))];
    assert RefCategory(es, c).countries == CountriesOf(es, c, ks);
    assert RefCategory(init, c).countries == CountriesOf(init, c, ks');
  }

  /** A later entry of a category, in a country the category already has, extends that
      country's models. */
  lemma {:induction false} RefCategoryOldCountry(es: seq<Entry>, j: nat)
    requires es != []
    requires es[|es| - 1].category in CatsIn(es[..|es| - 1])
    requires j < |Distinct(CountriesIn(es[..|es| - 1], es[|es| - 1].category))|
    requires Distinct(CountriesIn(es[..|es| - 1], es[|es| - 1].category))[j] == es[|es| - 1].country
    ensures var init, e := es[..|es| - 1], es[|es| - 1];
      e.category in CatsIn(es)
      && j < |RefCategory(init, e.category).countries|
      && RefCategory(es, e.category).countries
         == RefCategory(init, e.category).countries[j := Country(e.country, ModelsIn(init, e.category, e.country) + [e.model])]
  {
    var init, e := es[..|es| - 1], es[|es| - 1];
    var c, k := e.category, e.country;
    assert CatsIn(es) == CatsIn(init) + [c];
    var ks := Distinct(CountriesIn(init, c));
    assert CountriesIn(es, c) == CountriesIn(init, c) + [k];
    assert CountriesIn(es, c)[..|CountriesIn(es, c)| - 1] == CountriesIn(init, c);
    assert Distinct(CountriesIn(es, c)) == ks;
    forall j' | 0 <= j' < |ks| && j' != j
      ensures ModelsIn(init, c, ks[j']) == ModelsIn(es, c, ks[j'])
    {
      assert ks[j'] != k;
      ModelsInOther(es, c, ks[j']);
    }
    CountriesOfUpdate(init, es, c, ks, j);
  }

  /** A later entry of a category adds its model under its country in that category. */
  lemma {:induction false} RefCategorySame(es: seq<Entry>)
    requires es != [] && es[|es| - 1].category in CatsIn(es[..|es| - 1])
    ensures var init, e := es[..|es| - 1], es[|es| - 1];
      e.category in CatsIn(es)
      && RefCategory(es, e.category)
         == RefCategory(init, e.category).(countries := AddToCountries(RefCategory(init, e.category).countries, e.country, e.model))
  {
    var init, e := es[..|es| - 1], es[|es| - 1];
    var c, k := e.category, e.country;
    assert CatsIn(es) == CatsIn(init) + [c];
    var before := RefCategory(init, c);
    CountryNamesOfRefCategory(init, c);
    var ks' := Distinct(CountriesIn(init, c));
    var j := IndexOf(ks', k);
    assert FirstTotal(es, c) == FirstTotal(init, c);
    if j == |ks'| {
      RefCategoryNewCountry(es);
    } else {
      RefCategoryOldCountry(es, j);
      CountriesOfAt(init, c, ks', j);
    }
  }

  /** The first entry of a category appends that category. */
  lemma {:induction false} ReferenceNewCategory(es: seq<Entry>)
    requires es != [] && es[|es| - 1].category !in CatsIn(es[..|es| - 1])
    ensures var init, e := es[..|es| - 1], es[|es| - 1];
      Reference(es) == Reference(init) + [Category(e.category, e.total, [Country(e.country, [e.model])])]
  {
    var init, e := es[..|es| - 1], es[|es| - 1];
    var c := e.category;
    assert CatsIn(es) == CatsIn(init) + [c];
    assert CatsIn(es)[..|CatsIn(es)| - 1] == CatsIn(init);
    var cats' := Distinct(CatsIn(init));
    var cats := Distinct(CatsIn(es));
    assert cats == cats' + [c];
    assert cats[..|cats'|] == cats';
    RefCategoryNew(es);
    forall i | 0 <= i < |cats'|
      ensures cats'[i] in CatsIn(init) && cats'[i] in CatsIn(es)
      ensures RefCategory(init, cats'[i]) == RefCategory(es, cats'[i])
    {
      RefCategoryOther(es, cats'[i]);
    }
    CategoriesOfFrame(init, es, cats');
  }

  /** A later entry of a category changes that category only. */
  lemma {:induction false} ReferenceOldCategory(es: seq<Entry>, i: nat)
    requires es != []
    requires i < |Distinct(CatsIn(es[..|es| - 1]))|
    requires Distinct(CatsIn(es[..|es| - 1]))[i] == es[|es| - 1].category
    ensures var init, e := es[..|es| - 1], es[|es| - 1];
      e.category in CatsIn(init)
      && i < |Reference(init)|
      && Reference(es) == Reference(init)[i := RefCategory(es, e.category)]
  {
    var init, e := es[..|es| - 1], es[|es| - 1];
    var c := e.category;
    assert CatsIn(es) == CatsIn(init) + [c];
    assert CatsIn(es)[..|CatsIn(es)| - 1] == CatsIn(init);
    var cats := Distinct(CatsIn(init));
    assert Distinct(CatsIn(es)) == cats;
    forall i' | 0 <= i' < |cats|
      ensures cats[i'] in CatsIn(init) && cats[i'] in CatsIn(es)
    {
    }
    forall i' | 0 <= i' < |cats| && i' != i
      ensures RefCategory(init, cats[i']) == RefCategory(es, cats[i'])
    {
      assert cats[i'] != c;
      RefCategoryOther(es, cats[i']);
    }
    CategoriesOfUpdate(init, es, cats, i);
  }

  lemma {:induction false} ReferenceStep(es: seq<Entry>)
    requires es != []
    ensures Reference(es) == AddEntry(Reference(es[..|es| - 1]), es[|es| - 1])
  {
    var init, e := es[..|es| - 1], es[|es| - 1];
    var cats' := Distinct(CatsIn(init));
    NamesOfReference(init);
    var i := IndexOf(cats', e.category);
    if i == |cats'| {
      ReferenceNewCategory(es);
    } else {
      ReferenceOldCategory(es, i);
      RefCategorySame(es);
      CategoriesOfAt(init, cats', i);
    }
  }

  /** The in-place grouping computes the reference grouping. */
  lemma {:induction false} GroupIsReference(es: seq<Entry>)
    ensures Group(es) == Reference(es)
  {
    if es != [] {
      GroupIsReference(es[..|es| - 1]);
      ReferenceStep(es);
    }
  }

  // ---------------------------------------------------------------------------
  // The reference definition in terms of the entries

  lemma {:induction false} CatsInIff(es: seq<Entry>, c: string)
    ensures c in CatsIn(es) <==> exists n :: 0 <= n < |es| && es[n].category == c
  {
    if c in CatsIn(es) {
      var n :| 0 <= n < |es| && CatsIn(es)[n] == c;
    }
  }

  /** A category has a country exactly when some entry of that category names it. */
  lemma {:induction false} CountriesInIff(es: seq<Entry>, c: string, k: string)
    ensures k in CountriesIn(es, c) <==> exists n :: 0 <= n < |es| && es[n].category == c && es[n].country == k
  {
    if es != [] {
      var init, e := es[..|es| - 1], es[|es| - 1];
      CountriesInIff(init, c, k);
      var added: seq<string> := if e.category == c then [e.country] else [];
      assert CountriesIn(es, c) == CountriesIn(init, c) + added;
      if k in CountriesIn(init, c) {
        var n :| 0 <= n < |init| && init[n].category == c && init[n].country == k;
        assert es[n] == init[n];
      } else if k in added {
        assert es[|es| - 1].country == k;
      }
      if exists n :: 0 <= n < |es| && es[n].category == c && es[n].country == k {
        var n :| 0 <= n < |es| && es[n].category == c && es[n].country == k;
        if n < |init| {
          assert init[n] == es[n];
        }
      }
    }
  }

  /** A country of a category holds a model exactly when some entry of both carries it. */
  lemma {:induction false} ModelsInIff(es: seq<Entry>, c: string, k: string, m: Model)
    ensures m in ModelsIn(es, c, k)
      <==> exists n :: 0 <= n < |es| && es[n].category == c && es[n].country == k && es[n].model == m
  {
    if es != [] {
      var init, e := es[..|es| - 1], es[|es| - 1];
      ModelsInIff(init, c, k, m);
      var added: seq<Model> := if e.category == c && e.country == k then [e.model] else [];
      assert ModelsIn(es, c, k) == ModelsIn(init, c, k) + added;
      if m in ModelsIn(init, c, k) {
        var n :| 0 <= n < |init| && init[n].category == c && init[n].country == k && init[n].model == m;
        assert es[n] == init[n];
      } else if m in added {
        assert es[|es| - 1].model == m;
      }
      if exists n :: 0 <= n < |es| && es[n].category == c && es[n].country == k && es[n].model == m {
        var n :| 0 <= n < |es| && es[n].category == c && es[n].country == k && es[n].model == m;
        if n < |init| {
          assert init[n] == es[n];
        }
      }
    }
  }

  /** The total of a category comes from its first entry. */
  lemma {:induction false} FirstTotalIsFirst(es: seq<Entry>, c: string) returns (n: nat)
    requires c in CatsIn(es)
    ensures n < |es| && es[n].category == c && FirstTotal(es, c) == es[n].total
    ensures forall m :: 0 <= m < n ==> es[m].category != c
  {
    var init := es[..|es| - 1];
    assert CatsIn(es) == CatsIn(init) + [es[|es| - 1].category];
    if c in CatsIn(init) {
      n := FirstTotalIsFirst(init, c);
      assert es[n] == init[n];
      forall m | 0 <= m < n
        ensures es[m].category != c
      {
        assert es[m] == init[m];
      }
    } else {
      n := |es| - 1;
      CatsInIff(init, c);
      forall m | 0 <= m < n
        ensures es[m].category != c
      {
        assert es[m] == init[m];
      }
    }
  }

  // ---------------------------------------------------------------------------
  // What `transformSheetData` returns, in terms of the rows

  /** The steps come from the headers alone, and the categories follow the reference grouping
      of the rows' entries (also when there are no rows). */
  lemma {:induction false} TransformIsReference(parsed: Parsed)
    requires parsed.Table?
    ensures var t := TransformResult(parsed);
      t.processSteps == (if parsed.data == [] then [] else ProcessSteps(parsed.headers))
      && t.projectData == Reference(Entries(parsed.headers, ProcessSteps(parsed.headers), parsed.data))
  {
    GroupIsReference(Entries(parsed.headers, ProcessSteps(parsed.headers), parsed.data));
  }

  /** Every row's category value appears among the entries' categories, and only those. */
  lemma {:induction false} CategoriesOfRows(headers: seq<string>, processSteps: seq<string>, data: seq<Row>, c: string)
    ensures c in CatsIn(Entries(headers, processSteps, data))
      <==> exists n :: 0 <= n < |data| && CategoryOf(headers, data[n]) == c
  {
    var es := Entries(headers, processSteps, data);
    CatsInIff(es, c);
    if exists n :: 0 <= n < |data| && CategoryOf(headers, data[n]) == c {
      var n :| 0 <= n < |data| && CategoryOf(headers, data[n]) == c;
      assert es[n].category == c;
    }
  }

  /** The countries of a category's entries are the country values of that category's rows. */
  lemma {:induction false} CountriesOfRows(headers: seq<string>, processSteps: seq<string>, data: seq<Row>, c: string, k: string)
    ensures k in CountriesIn(Entries(headers, processSteps, data), c)
      <==> exists n :: 0 <= n < |data| && CategoryOf(headers, data[n]) == c && CountryOf(headers, data[n]) == k
  {
    var es := Entries(headers, processSteps, data);
    CountriesInIff(es, c, k);
    if exists n :: 0 <= n < |data| && CategoryOf(headers, data[n]) == c && CountryOf(headers, data[n]) == k {
      var n :| 0 <= n < |data| && CategoryOf(headers, data[n]) == c && CountryOf(headers, data[n]) == k;
      assert es[n].category == c && es[n].country == k;
    }
  }

  /** One category per distinct category value of the rows, none repeated; a row's category
      is `CategoryOf`, the field read through header 1, or "Uncategorized". */
  lemma {:induction false} TransformedCategories(parsed: Parsed)
    requires parsed.Table?
    ensures var headers, data, pd := parsed.headers, parsed.data, TransformResult(parsed).projectData;
      NoDuplicates(Names(pd))
      && (forall c :: c in Names(pd) <==> exists n :: 0 <= n < |data| && CategoryOf(headers, data[n]) == c)
  {
    var es := Entries(parsed.headers, ProcessSteps(parsed.headers), parsed.data);
    TransformIsReference(parsed);
    NamesOfReference(es);
    forall c
      ensures c in Distinct(CatsIn(es)) <==> exists n :: 0 <= n < |parsed.data| && CategoryOf(parsed.headers, parsed.data[n]) == c
    {
      CategoriesOfRows(parsed.headers, ProcessSteps(parsed.headers), parsed.data, c);
    }
  }

  /** The categories come in the order in which their first rows come. */
  lemma {:induction false} TransformedCategoryOrder(parsed: Parsed)
    requires parsed.Table?
    ensures var pd, cats := TransformResult(parsed).projectData, CatsIn(Entries(parsed.headers, ProcessSteps(parsed.headers), parsed.data));
      forall i, j :: 0 <= i < j < |pd| ==> IndexOf(cats, pd[i].category) < IndexOf(cats, pd[j].category)
  {
    var es := Entries(parsed.headers, ProcessSteps(parsed.headers), parsed.data);
    TransformIsReference(parsed);
    NamesOfReference(es);
    DistinctFirstOccurrence(CatsIn(es));
  }

  /** The `i`-th category of `projectData` is the reference category of the `i`-th distinct
      category value. */
  lemma {:induction false} ProjectCategory(parsed: Parsed, i: nat)
    requires parsed.Table? && i < |TransformResult(parsed).projectData|
    ensures var es := Entries(parsed.headers, ProcessSteps(parsed.headers), parsed.data);
      var cats := Distinct(CatsIn(es));
      i < |cats| && cats[i] in CatsIn(es)
      && TransformResult(parsed).projectData[i] == RefCategory(es, cats[i])
  {
    var es := Entries(parsed.headers, ProcessSteps(parsed.headers), parsed.data);
    TransformIsReference(parsed);
    CategoriesOfAt(es, Distinct(CatsIn(es)), i);
  }

  /** Inside one category: one country per distinct country of its rows, none repeated. */
  lemma {:induction false} TransformedCountries(parsed: Parsed, i: nat)
    requires parsed.Table? && i < |TransformResult(parsed).projectData|
    ensures var headers, data := parsed.headers, parsed.data;
      var cat := TransformResult(parsed).projectData[i];
      NoDuplicates(CountryNames(cat.countries))
      && (forall k :: k in CountryNames(cat.countries)
            <==> exists n :: 0 <= n < |data| && CategoryOf(headers, data[n]) == cat.category && CountryOf(headers, data[n]) == k)
  {
    var headers, data := parsed.headers, parsed.data;
    var es := Entries(headers, ProcessSteps(headers), data);
    ProjectCategory(parsed, i);
    var c := Distinct(CatsIn(es))[i];
    CountryNamesOfRefCategory(es, c);
    forall k
      ensures k in Distinct(CountriesIn(es, c))
        <==> exists n :: 0 <= n < |data| && CategoryOf(headers, data[n]) == c && CountryOf(headers, data[n]) == k
    {
      CountriesOfRows(headers, ProcessSteps(headers), data, c, k);
    }
  }

  /** A category's `totalModels` is that of its first row. */
  lemma {:induction false} TransformedTotal(parsed: Parsed, i: nat)
    requires parsed.Table? && i < |TransformResult(parsed).projectData|
    ensures var headers, data := parsed.headers, parsed.data;
      var cat := TransformResult(parsed).projectData[i];
      exists n :: 0 <= n < |data| && CategoryOf(headers, data[n]) == cat.category
        && (forall m :: 0 <= m < n ==> CategoryOf(headers, data[m]) != cat.category)
        && cat.totalModels == TotalModelsOf(headers, data[n])
  {
    var headers, data := parsed.headers, parsed.data;
    var es := Entries(headers, ProcessSteps(headers), data);
    ProjectCategory(parsed, i);
    var c := Distinct(CatsIn(es))[i];
    var n := FirstTotalIsFirst(es, c);
    forall m | 0 <= m < n
      ensures CategoryOf(headers, data[m]) != c
    {
      assert es[m].category != c;
    }
    assert CategoryOf(headers, data[n]) == c;
  }

  /** Under each country of a category: the models of the rows of that category and
      country, in row order. */
  lemma {:induction false} TransformedModels(parsed: Parsed, i: nat)
    requires parsed.Table? && i < |TransformResult(parsed).projectData|
    ensures var es := Entries(parsed.headers, ProcessSteps(parsed.headers), parsed.data);
      var cat := TransformResult(parsed).projectData[i];
      forall j :: 0 <= j < |cat.countries| ==> cat.countries[j].models == ModelsIn(es, cat.category, cat.countries[j].name)
  {
    var es := Entries(parsed.headers, ProcessSteps(parsed.headers), parsed.data);
    ProjectCategory(parsed, i);
    var c := Distinct(CatsIn(es))[i];
    var ks := Distinct(CountriesIn(es, c));
    var cat := RefCategory(es, c);
    forall j | 0 <= j < |cat.countries|
      ensures cat.countries[j].models == ModelsIn(es, c, cat.countries[j].name)
    {
      CountriesOfAt(es, c, ks, j);
    }
  }
}
