/** `calculateProgress` (src/App.js:83-87) and the summary figures the dashboard derives
    from `projectData` (src/App.js:210-231). */
module Dashboard {
  import opened JsText
  import opened Seqs
  import opened Csv
  import opened Sheet

  // ---------------------------------------------------------------------------
  // calculateProgress

  /** `items.filter(item => item.status === '완료').length` */
  function CountCompleted(steps: seq<Step>): (r: nat)
    ensures r <= |steps|
    ensures r == |steps| <==> forall j :: 0 <= j < |steps| ==> steps[j].status == Completed
    ensures r == 0 <==> forall j :: 0 <= j < |steps| ==> steps[j].status != Completed
  {
    if steps == [] then 0
    else
      var rest := CountCompleted(steps[1..]);
      assert forall j :: 1 <= j < |steps| ==> steps[j] == steps[1..][j - 1];
      (if steps[0].status == Completed then 1 else 0) + rest
  }

  /** `calculateProgress(items)`: the percentage of completed steps rounded to the nearest
      integer, halves rounded up as `Math.round` does; 0 for no steps. */
  function Progress(items: seq<Step>): (r: nat)
    ensures r <= 100
    ensures items == [] ==> r == 0
    ensures items != [] ==>
      2 * |items| * r <= 200 * CountCompleted(items) + |items| < 2 * |items| * (r + 1)
  {
    if items == [] then 0
    else
      var n, c := |items|, CountCompleted(items);
      RoundedPercent(c, n);
      (200 * c + n) / (2 * n)
  }

  /** `Math.round(c / n * 100)` on exact rationals: the only integer within one half of
      `100 * c / n`, and at most 100 when `c <= n`. */
  lemma {:induction false} RoundedPercent(c: nat, n: nat)
    requires 0 < n && c <= n
    ensures var r := (200 * c + n) / (2 * n);
      0 <= r <= 100 && 2 * n * r <= 200 * c + n < 2 * n * (r + 1)
  {
    var m, x := 2 * n, 200 * c + n;
    var r := x / m;
    DivBounds(x, m);
    assert x < m * 101;
    MulCancel(m, r, 101);
  }

  lemma {:induction false} DivBounds(x: int, d: int)
    requires 0 <= x && 0 < d
    ensures 0 <= x / d && d * (x / d) <= x < d * (x / d + 1)
  {
    assert x == d * (x / d) + x % d;
    assert d * (x / d + 1) == d * (x / d) + d;
  }

  lemma {:induction false} MulCancel(d: int, a: int, b: int)
    requires 0 < d && d * a < d * b
    ensures a < b
  {
    if a >= b {
      MulMonotone(d, b, a);
    }
  }

  lemma {:induction false} MulMonotone(d: int, a: int, b: int)
    requires 0 < d && a <= b
    ensures d * a <= d * b
  {
    assert d * b == d * a + d * (b - a);
  }

  lemma {:induction false} CountCompletedUpdate(steps: seq<Step>, j: nat, s: Step)
    requires j < |steps|
    ensures CountCompleted(steps[j := s]) + (if steps[j].status == Completed then 1 else 0)
         == CountCompleted(steps) + (if s.status == Completed then 1 else 0)
  {
    if j > 0 {
      assert steps[j := s][1..] == steps[1..][j - 1 := s];
      CountCompletedUpdate(steps[1..], j - 1, s);
    } else {
      assert steps[j := s][1..] == steps[1..];
    }
  }

  lemma {:induction false} DivMonotone(a: int, b: int, d: int)
    requires 0 <= a <= b && 0 < d
    ensures a / d <= b / d
  {
    DivBounds(a, d);
    DivBounds(b, d);
    if a / d > b / d {
      MulMonotone(d, b / d + 1, a / d);
    }
  }

  /** Every step completed: 100 percent. */
  lemma {:induction false} ProgressAllCompleted(items: seq<Step>)
    requires items != [] && forall j :: 0 <= j < |items| ==> items[j].status == Completed
    ensures Progress(items) == 100
  {
    var n, r := |items|, Progress(items);
    assert CountCompleted(items) == n;
    assert 2 * n * 100 < 2 * n * (r + 1);
    MulCancel(2 * n, 100, r + 1);
  }

  /** No step completed: 0 percent. */
  lemma {:induction false} ProgressNoneCompleted(items: seq<Step>)
    requires forall j :: 0 <= j < |items| ==> items[j].status != Completed
    ensures Progress(items) == 0
  {
  }

  /** Completing one more step never lowers the progress. */
  lemma {:induction false} ProgressMonotone(items: seq<Step>, j: nat)
    requires j < |items|
    ensures Progress(items[j := items[j].(status := Completed)]) >= Progress(items)
  {
    var done := items[j := items[j].(status := Completed)];
    CountCompletedUpdate(items, j, items[j].(status := Completed));
    var n := |items|;
    DivMonotone(200 * CountCompleted(items) + n, 200 * CountCompleted(done) + n, 2 * n);
  }

  // ---------------------------------------------------------------------------
  // The flattened views: allModels, allSteps and the country names

  function ModelLists(cs: seq<Country>): (r: seq<seq<Model>>)
    ensures |r| == |cs| && forall j :: 0 <= j < |cs| ==> r[j] == cs[j].models
  {
    seq(|cs|, j requires 0 <= j < |cs| => cs[j].models)
  }

  /** `cat.countries.flatMap(c => c.models)` */
  function CountryModels(cs: seq<Country>): seq<Model>
  {
    Flatten(ModelLists(cs))
  }

  function CategoryModelLists(pd: seq<Category>): (r: seq<seq<Model>>)
    ensures |r| == |pd| && forall i :: 0 <= i < |pd| ==> r[i] == CountryModels(pd[i].countries)
  {
    seq(|pd|, i requires 0 <= i < |pd| => CountryModels(pd[i].countries))
  }

  /** `allModels = projectData.flatMap(cat => cat.countries.flatMap(c => c.models))` */
  function AllModels(pd: seq<Category>): seq<Model>
  {
    Flatten(CategoryModelLists(pd))
  }

  function StepLists(ms: seq<Model>): (r: seq<seq<Step>>)
    ensures |r| == |ms| && forall i :: 0 <= i < |ms| ==> r[i] == ms[i].steps
  {
    seq(|ms|, i requires 0 <= i < |ms| => ms[i].steps)
  }

  /** `allSteps = allModels.flatMap(m => m.steps)` */
  function AllSteps(pd: seq<Category>): seq<Step>
  {
    Flatten(StepLists(AllModels(pd)))
  }

  function NameLists(pd: seq<Category>): (r: seq<seq<string>>)
    ensures |r| == |pd| && forall i :: 0 <= i < |pd| ==> r[i] == CountryNames(pd[i].countries)
  {
    seq(|pd|, i requires 0 <= i < |pd| => CountryNames(pd[i].countries))
  }

  /** `projectData.flatMap(cat => cat.countries.map(c => c.name))` */
  function AllCountryNames(pd: seq<Category>): seq<string>
  {
    Flatten(NameLists(pd))
  }

  // ---------------------------------------------------------------------------
  // uniqueModels and the total model count

  /** One property of `uniqueModels`: a category name and the total recorded for it. */
  datatype Tally = Tally(category: string, total: Option<int>)

  function Keys(acc: seq<Tally>): (r: seq<string>)
    ensures |r| == |acc| && forall i :: 0 <= i < |acc| ==> r[i] == acc[i].category
  {
    seq(|acc|, i requires 0 <= i < |acc| => acc[i].category)
  }

  function Values(acc: seq<Tally>): (r: seq<Option<int>>)
    ensures |r| == |acc| && forall i :: 0 <= i < |acc| ==> r[i] == acc[i].total
  {
    seq(|acc|, i requires 0 <= i < |acc| => acc[i].total)
  }

  /** A total JavaScript treats as false: NaN (None) or 0. */
  predicate Falsy(v: Option<int>)
  {
    v.None? || v.value == 0
  }

  /** `if (!uniqueModels[cat.category]) uniqueModels[cat.category] = cat.totalModels;` an
      absent key is added at the end; a present key keeps its place and is overwritten only
      while its value is falsy. */
  function RecordTotal(acc: seq<Tally>, cat: Category): seq<Tally>
  {
    var k := IndexOf(Keys(acc), cat.category);
    if k == |acc| then acc + [Tally(cat.category, cat.totalModels)]
    else if Falsy(acc[k].total) then acc[k := Tally(cat.category, cat.totalModels)]
    else acc
  }

  /** `uniqueModels` after `projectData.forEach`. */
  function TotalsOf(pd: seq<Category>): seq<Tally>
  {
    if pd == [] then [] else RecordTotal(TotalsOf(pd[..|pd| - 1]), pd[|pd| - 1])
  }

  /** `projectData.forEach(...)` filling `uniqueModels`. */
  method UniqueTotals(pd: seq<Category>) returns (acc: seq<Tally>)
    ensures acc == TotalsOf(pd)
  {
    acc := [];
    var i := 0;
    while i < |pd|
      invariant 0 <= i <= |pd|
      invariant acc == TotalsOf(pd[..i])
    {
      var cat := pd[i];
      var k := IndexOf(Keys(acc), cat.category);
      if k == |acc| {
        acc := acc + [Tally(cat.category, cat.totalModels)];
      } else if Falsy(acc[k].total) {
        acc := acc[k := Tally(cat.category, cat.totalModels)];
      }
      assert pd[..i + 1][..i] == pd[..i];
      i := i + 1;
    }
    assert pd[..i] == pd;
  }

  /** `sum + models` on numbers that may be NaN: NaN absorbs everything. */
  function AddTotal(a: Option<int>, b: Option<int>): Option<int>
  {
    if a.Some? && b.Some? then Some(a.value + b.value) else None
  }

  /** `values.reduce((sum, models) => sum + models, 0)` */
  function SumTotals(vals: seq<Option<int>>): Option<int>
  {
    if vals == [] then Some(0) else AddTotal(SumTotals(vals[..|vals| - 1]), vals[|vals| - 1])
  }

  // ---------------------------------------------------------------------------
  // The summary

  datatype Summary = Summary(overallProgress: nat, completedTasks: nat, totalTasks: nat,
                             totalModels: Option<int>, countryCount: nat)

  /** The value the `useMemo` callback returns for `projectData`. */
  function SummaryOf(pd: seq<Category>): (s: Summary)
    ensures s.completedTasks <= s.totalTasks
    ensures s.overallProgress <= 100 && (s.totalTasks == 0 ==> s.overallProgress == 0)
    ensures s.totalTasks > 0 ==>
      2 * s.totalTasks * s.overallProgress <= 200 * s.completedTasks + s.totalTasks
      < 2 * s.totalTasks * (s.overallProgress + 1)
  {
    var steps := AllSteps(pd);
    Summary(Progress(steps), CountCompleted(steps), |steps|, SumTotals(Values(TotalsOf(pd))),
            |Elems(AllCountryNames(pd))|)
  }

  /** The `useMemo` callback. */
  method Aggregate(pd: seq<Category>) returns (s: Summary)
    ensures s == SummaryOf(pd)
  {
    var allModels := AllModels(pd);
    var allSteps := Flatten(StepLists(allModels));
    var uniqueCountries := Elems(AllCountryNames(pd));
    var uniqueModels := UniqueTotals(pd);
    var totalModelCount := SumTotals(Values(uniqueModels));
    s := Summary(Progress(allSteps), CountCompleted(allSteps), |allSteps|, totalModelCount, |uniqueCountries|);
  }

  // ---------------------------------------------------------------------------
  // The flattened views after one more entry

  lemma {:induction false} ModelListsAppend(cs: seq<Country>, c: Country)
    ensures ModelLists(cs + [c]) == ModelLists(cs) + [c.models]
  {
    assert |ModelLists(cs + [c])| == |ModelLists(cs) + [c.models]|;
    forall j | 0 <= j < |cs| + 1
      ensures ModelLists(cs + [c])[j] == (ModelLists(cs) + [c.models])[j]
    {
    }
  }

  lemma {:induction false} ModelListsUpdate(cs: seq<Country>, j: nat, c: Country)
    requires j < |cs|
    ensures ModelLists(cs[j := c]) == ModelLists(cs)[j := c.models]
  {
    var a, b := ModelLists(cs[j := c]), ModelLists(cs)[j := c.models];
    assert |a| == |b|;
    forall j' | 0 <= j' < |a|
      ensures a[j'] == b[j']
    {
    }
  }

  /** Adding a model under a country adds exactly that model to the category's models. */
  lemma {:induction false} AddToCountriesModels(cs: seq<Country>, k: string, m: Model)
    ensures multiset(CountryModels(AddToCountries(cs, k, m))) == multiset(CountryModels(cs)) + multiset{m}
  {
    var j := IndexOf(CountryNames(cs), k);
    if j == |cs| {
      ModelListsAppend(cs, Country(k, [m]));
      FlattenAppend(ModelLists(cs), [m]);
    } else {
      var c := cs[j].(models := cs[j].models + [m]);
      assert AddToCountries(cs, k, m) == cs[j := c];
      ModelListsUpdate(cs, j, c);
      FlattenUpdate(ModelLists(cs), j, c.models);
      var before, after := multiset(CountryModels(cs)), multiset(CountryModels(cs[j := c]));
      assert multiset(c.models) == multiset(cs[j].models) + multiset{m};
      MultisetCancel(after, before + multiset{m}, multiset(cs[j].models));
    }
  }

  lemma {:induction false} CategoryModelListsAppend(g: seq<Category>, c: Category)
    ensures CategoryModelLists(g + [c]) == CategoryModelLists(g) + [CountryModels(c.countries)]
  {
    assert |CategoryModelLists(g + [c])| == |CategoryModelLists(g) + [CountryModels(c.countries)]|;
    forall i | 0 <= i < |g| + 1
      ensures CategoryModelLists(g + [c])[i] == (CategoryModelLists(g) + [CountryModels(c.countries)])[i]
    {
    }
  }

  lemma {:induction false} CategoryModelListsUpdate(g: seq<Category>, i: nat, c: Category)
    requires i < |g|
    ensures CategoryModelLists(g[i := c]) == CategoryModelLists(g)[i := CountryModels(c.countries)]
  {
    var a, b := CategoryModelLists(g[i := c]), CategoryModelLists(g)[i := CountryModels(c.countries)];
    assert |a| == |b|;
    forall i' | 0 <= i' < |a|
      ensures a[i'] == b[i']
    {
    }
  }

  lemma {:induction false} NewCategoryModels(g: seq<Category>, e: Entry)
    ensures var c := Category(e.category, e.total, [Country(e.country, [e.model])]);
      AllModels(g + [c]) == AllModels(g) + [e.model]
  {
    var c := Category(e.category, e.total, [Country(e.country, [e.model])]);
    CategoryModelListsAppend(g, c);
    assert ModelLists(c.countries) == [[e.model]];
    FlattenSingleton([e.model]);
    FlattenAppend(CategoryModelLists(g), [e.model]);
  }

  lemma {:induction false} SameCategoryModels(g: seq<Category>, i: nat, e: Entry)
    requires i < |g|
    ensures var c := g[i].(countries := AddToCountries(g[i].countries, e.country, e.model));
      multiset(AllModels(g[i := c])) == multiset(AllModels(g)) + multiset{e.model}
  {
    var c := g[i].(countries := AddToCountries(g[i].countries, e.country, e.model));
    CategoryModelListsUpdate(g, i, c);
    AddToCountriesModels(g[i].countries, e.country, e.model);
    FlattenUpdate(CategoryModelLists(g), i, CountryModels(c.countries));
    var before, after := multiset(AllModels(g)), multiset(AllModels(g[i := c]));
    var old' := multiset(CountryModels(g[i].countries));
    MultisetCancel(after, before + multiset{e.model}, old');
  }

  /** One pass of the grouping adds the entry's model to `allModels` and nothing else. */
  lemma {:induction false} AddEntryModels(g: seq<Category>, e: Entry)
    ensures multiset(AllModels(AddEntry(g, e))) == multiset(AllModels(g)) + multiset{e.model}
  {
    var i := IndexOf(Names(g), e.category);
    if i == |g| {
      NewCategoryModels(g, e);
    } else {
      SameCategoryModels(g, i, e);
    }
  }

  /** The models of the entries, in row order. */
  function EntryModels(es: seq<Entry>): (r: seq<Model>)
    ensures |r| == |es| && forall n :: 0 <= n < |es| ==> r[n] == es[n].model
  {
    seq(|es|, n requires 0 <= n < |es| => es[n].model)
  }

  /** `allModels` holds every row's model exactly once. */
  lemma {:induction false} GroupModels(es: seq<Entry>)
    ensures multiset(AllModels(Group(es))) == multiset(EntryModels(es))
  {
    if es != [] {
      var init := es[..|es| - 1];
      var e := es[|es| - 1];
      GroupModels(init);
      AddEntryModels(Group(init), e);
      var before, after := EntryModels(init), EntryModels(es);
      assert |after| == |before + [e.model]|;
      forall n | 0 <= n < |after|
        ensures after[n] == (before + [e.model])[n]
      {
        if n < |init| {
          assert es[n] == init[n];
        }
      }
      assert after == before + [e.model];
    }
  }

  lemma {:induction false} NameListsAppend(g: seq<Category>, c: Category)
    ensures NameLists(g + [c]) == NameLists(g) + [CountryNames(c.countries)]
  {
    assert |NameLists(g + [c])| == |NameLists(g) + [CountryNames(c.countries)]|;
    forall i | 0 <= i < |g| + 1
      ensures NameLists(g + [c])[i] == (NameLists(g) + [CountryNames(c.countries)])[i]
    {
    }
  }

  lemma {:induction false} NameListsUpdate(g: seq<Category>, i: nat, c: Category)
    requires i < |g|
    ensures NameLists(g[i := c]) == NameLists(g)[i := CountryNames(c.countries)]
  {
    var a, b := NameLists(g[i := c]), NameLists(g)[i := CountryNames(c.countries)];
    assert |a| == |b|;
    forall i' | 0 <= i' < |a|
      ensures a[i'] == b[i']
    {
    }
  }

  /** Adding a model under a country adds that country's name to the category, if new. */
  lemma {:induction false} AddToCountriesNames(cs: seq<Country>, k: string, m: Model)
    ensures Elems(CountryNames(AddToCountries(cs, k, m))) == Elems(CountryNames(cs)) + {k}
  {
    var j := IndexOf(CountryNames(cs), k);
    if j == |cs| {
      assert CountryNames(cs + [Country(k, [m])]) == CountryNames(cs) + [k];
      ElemsConcat(CountryNames(cs), [k]);
    } else {
      assert CountryNames(AddToCountries(cs, k, m)) == CountryNames(cs);
      assert k in CountryNames(cs);
    }
  }

  /** One pass of the grouping adds the entry's country to the set of country names. */
  lemma {:induction false} AddEntryCountries(g: seq<Category>, e: Entry)
    ensures Elems(AllCountryNames(AddEntry(g, e))) == Elems(AllCountryNames(g)) + {e.country}
  {
    var i := IndexOf(Names(g), e.category);
    if i == |g| {
      var c := Category(e.category, e.total, [Country(e.country, [e.model])]);
      NameListsAppend(g, c);
      assert CountryNames(c.countries) == [e.country];
      FlattenAppend(NameLists(g), [e.country]);
      ElemsConcat(AllCountryNames(g), [e.country]);
    } else {
      var c := g[i].(countries := AddToCountries(g[i].countries, e.country, e.model));
      NameListsUpdate(g, i, c);
      AddToCountriesNames(g[i].countries, e.country, e.model);
      FlattenUpdateElems(NameLists(g), i, CountryNames(c.countries), e.country);
    }
  }

  /** The countries of the entries, in row order. */
  function EntryCountries(es: seq<Entry>): (r: seq<string>)
    ensures |r| == |es| && forall n :: 0 <= n < |es| ==> r[n] == es[n].country
  {
    seq(|es|, n requires 0 <= n < |es| => es[n].country)
  }

  /** The country names are exactly the entries' countries. */
  lemma {:induction false} GroupCountries(es: seq<Entry>)
    ensures Elems(AllCountryNames(Group(es))) == Elems(EntryCountries(es))
  {
    if es != [] {
      var init := es[..|es| - 1];
      GroupCountries(init);
      AddEntryCountries(Group(init), es[|es| - 1]);
      assert EntryCountries(es) == EntryCountries(init) + [es[|es| - 1].country];
      ElemsConcat(EntryCountries(init), [es[|es| - 1].country]);
    }
  }

  // ---------------------------------------------------------------------------
  // uniqueModels and its sum

  /** `uniqueModels` has one key per distinct category name, and no other. */
  lemma {:induction false} TotalsKeys(pd: seq<Category>)
    ensures NoDuplicates(Keys(TotalsOf(pd)))
    ensures Elems(Keys(TotalsOf(pd))) == Elems(Names(pd))
  {
    if pd != [] {
      var init, cat := pd[..|pd| - 1], pd[|pd| - 1];
      TotalsKeys(init);
      var acc := TotalsOf(init);
      var k := IndexOf(Keys(acc), cat.category);
      assert Names(pd) == Names(init) + [cat.category];
      ElemsConcat(Names(init), [cat.category]);
      if k == |acc| {
        assert Keys(acc + [Tally(cat.category, cat.totalModels)]) == Keys(acc) + [cat.category];
        ElemsConcat(Keys(acc), [cat.category]);
      } else {
        assert Keys(TotalsOf(pd)) == Keys(acc);
      }
    }
  }

  /** The categories' own totals, in order. */
  function CategoryTotals(pd: seq<Category>): (r: seq<Option<int>>)
    ensures |r| == |pd| && forall i :: 0 <= i < |pd| ==> r[i] == pd[i].totalModels
  {
    seq(|pd|, i requires 0 <= i < |pd| => pd[i].totalModels)
  }

  /** When the category names are distinct, as `transformSheetData` makes them, every
      category records its own name and total, in order. */
  lemma {:induction false} TotalsOfDistinct(pd: seq<Category>)
    requires NoDuplicates(Names(pd))
    ensures |TotalsOf(pd)| == |pd|
    ensures forall i :: 0 <= i < |pd| ==> TotalsOf(pd)[i] == Tally(pd[i].category, pd[i].totalModels)
  {
    if pd != [] {
      var init, cat := pd[..|pd| - 1], pd[|pd| - 1];
      assert NoDuplicates(Names(init)) by {
        forall i, j | 0 <= i < j < |init|
          ensures Names(init)[i] != Names(init)[j]
        {
          assert Names(pd)[i] != Names(pd)[j];
        }
      }
      TotalsOfDistinct(init);
      var acc := TotalsOf(init);
      assert cat.category !in Keys(acc) by {
        forall i | 0 <= i < |acc|
          ensures Keys(acc)[i] != cat.category
        {
          assert Names(pd)[i] != Names(pd)[|pd| - 1];
        }
      }
      assert IndexOf(Keys(acc), cat.category) == |acc|;
      assert TotalsOf(pd) == acc + [Tally(cat.category, cat.totalModels)];
    }
  }

  /** So `Object.values(uniqueModels)` lists the categories' totals in order. */
  lemma {:induction false} ValuesOfDistinct(pd: seq<Category>)
    requires NoDuplicates(Names(pd))
    ensures Values(TotalsOf(pd)) == CategoryTotals(pd)
    ensures Keys(TotalsOf(pd)) == Names(pd)
  {
    TotalsOfDistinct(pd);
  }

  /** A NaN total makes the sum NaN, and only a NaN total does. */
  lemma {:induction false} SumTotalsNaN(vals: seq<Option<int>>)
    ensures SumTotals(vals).None? <==> exists i :: 0 <= i < |vals| && vals[i].None?
  {
    if vals != [] {
      var init := vals[..|vals| - 1];
      SumTotalsNaN(init);
      if exists i :: 0 <= i < |init| && init[i].None? {
        var i :| 0 <= i < |init| && init[i].None?;
        assert vals[i] == init[i];
      }
      if exists i :: 0 <= i < |vals| && vals[i].None? {
        var i :| 0 <= i < |vals| && vals[i].None?;
        if i < |init| {
          assert init[i] == vals[i];
        }
      }
    }
  }

  lemma {:induction false} SumTotalsConcat(a: seq<Option<int>>, b: seq<Option<int>>)
    ensures SumTotals(a + b) == AddTotal(SumTotals(a), SumTotals(b))
    decreases |b|
  {
    if b == [] {
      assert a + b == a;
    } else {
      var b' := b[..|b| - 1];
      assert (a + b)[..|a + b| - 1] == a + b';
      SumTotalsConcat(a, b');
    }
  }

  /** Taking one total out of the list and adding it last gives the same sum. */
  lemma {:induction false} SumTotalsRemove(b: seq<Option<int>>, p: nat)
    requires p < |b|
    ensures SumTotals(b) == AddTotal(SumTotals(b[..p] + b[p + 1..]), b[p])
  {
    var before, x, after := b[..p], b[p], b[p + 1..];
    assert b == (before + [x]) + after;
    SumTotalsConcat(before + [x], after);
    SumTotalsConcat(before, [x]);
    SumTotalsConcat(before, after);
    assert [x][..0] == [];
    assert SumTotals([x]) == AddTotal(Some(0), x);
  }

  lemma {:induction false} MultisetRemove<T>(b: seq<T>, p: nat)
    requires p < |b|
    ensures multiset(b[..p] + b[p + 1..]) + multiset{b[p]} == multiset(b)
  {
    assert b == b[..p] + [b[p]] + b[p + 1..];
  }

  /** The sum does not depend on the order `Object.values` lists the totals in. */
  lemma {:induction false} SumTotalsPermutation(a: seq<Option<int>>, b: seq<Option<int>>)
    requires multiset(a) == multiset(b)
    ensures SumTotals(a) == SumTotals(b)
    decreases |a|
  {
    if a == [] {
      assert |b| == |multiset(b)| == 0;
    } else {
      var init, x := a[..|a| - 1], a[|a| - 1];
      assert a == init + [x];
      assert x in multiset(b);
      var p :| 0 <= p < |b| && b[p] == x;
      var rest := b[..p] + b[p + 1..];
      MultisetRemove(b, p);
      MultisetCancel(multiset(rest), multiset(init), multiset{x});
      SumTotalsPermutation(init, rest);
      SumTotalsRemove(b, p);
    }
  }
}
