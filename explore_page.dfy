/** The data-preparation half of the salary explorer page: the category
    remap builder (shorten_categories), the experience and education
    normalisers (clean_experience, clean_education) and the filter/map
    pipeline of load_data that turns raw survey rows into cleaned records. */
module ExplorePage {
  import opened Collections

  // ---------------------------------------------------------------------
  // Literals of the source
  // ---------------------------------------------------------------------

  const Other: string := "Other"
  const FullTime: string := "Employed full-time"
  const CountryCutoff: int := 400
  const MinSalary: real := 10000.0
  const MaxSalary: real := 250000.0

  const MoreThan50Years: string := "More than 50 years"
  const LessThan1Year: string := "Less than 1 year"

  const Bachelors: string := "Bachelor\U{2019}s degree"
  const Masters: string := "Master\U{2019}s degree"
  const ProfessionalDegree: string := "Professional degree"
  const OtherDoctoral: string := "Other doctoral"
  const PostGrad: string := "Post grad"
  const LessThanBachelors: string := "Less than a Bachelors"

  // ---------------------------------------------------------------------
  // shorten_categories
  // ---------------------------------------------------------------------

  /** A value-counts series: (category, count) pairs, index then value. */
  type Counts = seq<(string, int)>

  /** The categories (the index) of a counts series. */
  function Names(categories: Counts): set<string>
  {
    set i | 0 <= i < |categories| :: categories[i].0
  }

  /** The label given to a category seen `count` times. */
  function Shorten(name: string, count: int, cutoff: int): string
  {
    if count >= cutoff then name else Other
  }

  /** The dictionary obtained by storing the pairs one after the other, a
      later entry for the same category overwriting an earlier one. */
  function CategoryMap(categories: Counts, cutoff: int): map<string, string>
  {
    if categories == [] then map[]
    else
      var last := categories[|categories| - 1];
      CategoryMap(categories[..|categories| - 1], cutoff)[last.0 := Shorten(last.0, last.1, cutoff)]
  }

  /** shorten_categories: an index loop fills the dictionary entry by entry. */
  method ShortenCategories(categories: Counts, cutoff: int) returns (categoricalMap: map<string, string>)
    ensures categoricalMap == CategoryMap(categories, cutoff)
    ensures categoricalMap.Keys == Names(categories)
    ensures forall c :: c in categoricalMap ==> categoricalMap[c] == c || categoricalMap[c] == Other
  {
    categoricalMap := map[];
    var i := 0;
    while i < |categories|
      invariant 0 <= i <= |categories|
      invariant categoricalMap == CategoryMap(categories[..i], cutoff)
    {
      assert categories[..i + 1][..i] == categories[..i];
      if categories[i].1 >= cutoff {
        categoricalMap := categoricalMap[categories[i].0 := categories[i].0];
      } else {
        categoricalMap := categoricalMap[categories[i].0 := Other];
      }
      i := i + 1;
    }
    assert categories[..i] == categories;
    CategoryMapKeys(categories, cutoff);
    CategoryMapValues(categories, cutoff);
  }

  /** The dictionary has exactly one key per category of the series. */
  lemma {:induction false} CategoryMapKeys(categories: Counts, cutoff: int)
    ensures CategoryMap(categories, cutoff).Keys == Names(categories)
  {
    if categories != [] {
      var n := |categories| - 1;
      var init := categories[..n];
      CategoryMapKeys(init, cutoff);
      assert forall i :: 0 <= i < n ==> init[i] == categories[i];
      assert Names(categories) == Names(init) + {categories[n].0};
    }
  }

  /** Every category is sent to itself or to 'Other'. */
  lemma {:induction false} CategoryMapValues(categories: Counts, cutoff: int)
    ensures forall c :: c in CategoryMap(categories, cutoff) ==>
      CategoryMap(categories, cutoff)[c] == c || CategoryMap(categories, cutoff)[c] == Other
  {
    if categories != [] {
      CategoryMapValues(categories[..|categories| - 1], cutoff);
    }
  }

  /** The entry of a category that is not repeated later in the series: kept
      as itself when its count reaches the cutoff (a count equal to the
      cutoff included), folded into 'Other' when it falls below. */
  lemma {:induction false} CategoryMapEntry(categories: Counts, cutoff: int, i: int)
    requires 0 <= i < |categories|
    requires forall j :: i < j < |categories| ==> categories[j].0 != categories[i].0
    ensures categories[i].0 in CategoryMap(categories, cutoff)
    ensures categories[i].1 >= cutoff ==> CategoryMap(categories, cutoff)[categories[i].0] == categories[i].0
    ensures categories[i].1 < cutoff ==> CategoryMap(categories, cutoff)[categories[i].0] == Other
  {
    var n := |categories| - 1;
    if i < n {
      var init := categories[..n];
      assert init[i] == categories[i];
      forall j | i < j < |init| ensures init[j].0 != init[i].0 {
        assert init[j] == categories[j];
      }
      CategoryMapEntry(init, cutoff, i);
    }
  }

  // ---------------------------------------------------------------------
  // clean_experience
  // ---------------------------------------------------------------------

  /** A raw YearsCodePro cell: the survey text, or a number. */
  datatype YearsValue = Text(text: string) | Number(number: real)

  /** clean_experience: the two phrases of the survey become 50 and 0.5;
      anything else goes to Python's float(), given here as `toFloat`,
      whose None stands for the ValueError it raises. */
  function CleanExperience(x: YearsValue, toFloat: string -> Option<real>): (r: Option<real>)
    ensures x == Text(MoreThan50Years) ==> r == Some(50.0)
    ensures x == Text(LessThan1Year) ==> r == Some(0.5)
    ensures x.Text? && x.text != MoreThan50Years && x.text != LessThan1Year ==> r == toFloat(x.text)
    ensures x.Number? ==> r == Some(x.number)
    ensures r.None? <==>
      x.Text? && x.text != MoreThan50Years && x.text != LessThan1Year && toFloat(x.text).None?
  {
    if x == Text(MoreThan50Years) then Some(50.0)
    else if x == Text(LessThan1Year) then Some(0.5)
    else
      match x
      case Text(t) => toFloat(t)
      case Number(n) => Some(n)
  }

  // ---------------------------------------------------------------------
  // clean_education
  // ---------------------------------------------------------------------

  /** The four education buckets. */
  predicate IsBucket(s: string)
  {
    s == Bachelors || s == Masters || s == PostGrad || s == LessThanBachelors
  }

  /** clean_education: an ordered substring classifier, first match wins. */
  function CleanEducation(x: string): (r: string)
    ensures IsBucket(r)
    ensures r == Bachelors <==> Contains(x, Bachelors)
    ensures r == Masters <==> !Contains(x, Bachelors) && Contains(x, Masters)
    ensures r == PostGrad <==>
      !Contains(x, Bachelors) && !Contains(x, Masters) &&
      (Contains(x, ProfessionalDegree) || Contains(x, OtherDoctoral))
    ensures r == LessThanBachelors <==>
      !Contains(x, Bachelors) && !Contains(x, Masters) &&
      !Contains(x, ProfessionalDegree) && !Contains(x, OtherDoctoral)
  {
    if Contains(x, Bachelors) then Bachelors
    else if Contains(x, Masters) then Masters
    else if Contains(x, ProfessionalDegree) || Contains(x, OtherDoctoral) then PostGrad
    else LessThanBachelors
  }

  /** One classification rule: any of `phrases` occurring selects `bucket`. */
  datatype Rule = Rule(phrases: seq<string>, bucket: string)

  /** The classifier written as an ordered list of rules. */
  const EducationRules: seq<Rule> := [
    Rule([Bachelors], Bachelors),
    Rule([Masters], Masters),
    Rule([ProfessionalDegree, OtherDoctoral], PostGrad)
  ]

  /** Some phrase of `phrases` occurs in `x`. */
  function AnyContained(x: string, phrases: seq<string>): (b: bool)
    ensures b <==> exists i :: 0 <= i < |phrases| && Contains(x, phrases[i])
  {
    if phrases == [] then false else Contains(x, phrases[0]) || AnyContained(x, phrases[1..])
  }

  /** The bucket of the first rule that matches `x`, else `fallback`. */
  function FirstMatch(rules: seq<Rule>, x: string, fallback: string): string
  {
    if rules == [] then fallback
    else if AnyContained(x, rules[0].phrases) then rules[0].bucket
    else FirstMatch(rules[1..], x, fallback)
  }

  /** clean_education agrees with the rule list read top to bottom. */
  lemma CleanEducationFollowsRules(x: string)
    ensures CleanEducation(x) == FirstMatch(EducationRules, x, LessThanBachelors)
  {
    var rules := EducationRules;
    assert AnyContained(x, [Bachelors]) == Contains(x, Bachelors);
    assert AnyContained(x, [Masters]) == Contains(x, Masters);
    assert AnyContained(x, [OtherDoctoral]) == Contains(x, OtherDoctoral);
    assert [ProfessionalDegree, OtherDoctoral][1..] == [OtherDoctoral];
    assert AnyContained(x, [ProfessionalDegree, OtherDoctoral])
        == (Contains(x, ProfessionalDegree) || Contains(x, OtherDoctoral));
    assert rules[1..][1..][1..] == [];
    assert FirstMatch(rules[1..][1..], x, LessThanBachelors)
        == if AnyContained(x, [ProfessionalDegree, OtherDoctoral]) then PostGrad else LessThanBachelors;
  }

  /** Cleaning 'Bachelor's degree' again gives it back. */
  lemma RecleaningBachelors()
    ensures CleanEducation(Bachelors) == Bachelors
  {
    PrefixContained(Bachelors, Bachelors);
  }

  /** Cleaning 'Master's degree' again gives it back. */
  lemma RecleaningMasters()
    ensures CleanEducation(Masters) == Masters
  {
    ShorterNotContained(Masters, Bachelors);
    PrefixContained(Masters, Masters);
  }

  /** Cleaning 'Less than a Bachelors' again gives it back. */
  lemma RecleaningLessThanBachelors()
    ensures CleanEducation(LessThanBachelors) == LessThanBachelors
  {
    LessThanBachelorsLacksDegrees();
    LessThanBachelorsLacksPostGrad();
  }

  /** 'Less than a Bachelors' has no typographic apostrophe, so neither
      degree phrase occurs in it. */
  lemma LessThanBachelorsLacksDegrees()
    ensures !Contains(LessThanBachelors, Bachelors) && !Contains(LessThanBachelors, Masters)
  {
    assert !Contains(LessThanBachelors, Bachelors) by {
      assert Bachelors[8] == '\U{2019}';
      MissingCharNotContained(LessThanBachelors, Bachelors, '\U{2019}');
    }
    assert !Contains(LessThanBachelors, Masters) by {
      assert Masters[6] == '\U{2019}';
      MissingCharNotContained(LessThanBachelors, Masters, '\U{2019}');
    }
  }

  /** 'Less than a Bachelors' has no capital 'P' or 'O', so neither
      post-graduate phrase occurs in it. */
  lemma LessThanBachelorsLacksPostGrad()
    ensures !Contains(LessThanBachelors, ProfessionalDegree) && !Contains(LessThanBachelors, OtherDoctoral)
  {
    assert !Contains(LessThanBachelors, ProfessionalDegree) by {
      assert ProfessionalDegree[0] == 'P';
      MissingCharNotContained(LessThanBachelors, ProfessionalDegree, 'P');
    }
    assert !Contains(LessThanBachelors, OtherDoctoral) by {
      assert OtherDoctoral[0] == 'O';
      MissingCharNotContained(LessThanBachelors, OtherDoctoral, 'O');
    }
  }

  /** Cleaning 'Post grad' again does not give it back: it contains none of
      the four phrases and falls to 'Less than a Bachelors', so the
      normaliser is not idempotent (load_data applies it once). */
  lemma RecleaningPostGrad()
    ensures CleanEducation(PostGrad) == LessThanBachelors
  {
    ShorterNotContained(PostGrad, Bachelors);
    ShorterNotContained(PostGrad, Masters);
    ShorterNotContained(PostGrad, ProfessionalDegree);
    ShorterNotContained(PostGrad, OtherDoctoral);
  }

  // ---------------------------------------------------------------------
  // load_data: rows and the per-row steps
  // ---------------------------------------------------------------------

  /** A raw survey row: the five columns the page uses, each possibly null,
      and every other column of the file. */
  datatype SurveyRow = SurveyRow(
    country: Option<string>,
    edLevel: Option<string>,
    yearsCodePro: Option<YearsValue>,
    employment: Option<string>,
    convertedComp: Option<real>,
    otherColumns: map<string, Option<string>>)

  /** A row after the projection onto the five columns. */
  datatype ProjectedRow = ProjectedRow(
    country: Option<string>,
    edLevel: Option<string>,
    yearsCodePro: Option<YearsValue>,
    employment: Option<string>,
    convertedComp: Option<real>)

  /** A projected row without nulls. */
  datatype CompleteRow = CompleteRow(
    country: string, edLevel: string, yearsCodePro: YearsValue, employment: string, convertedComp: real)

  /** A row after the Employment column is dropped. */
  datatype EmployedRow = EmployedRow(
    country: string, edLevel: string, yearsCodePro: YearsValue, convertedComp: real)

  /** A row whose YearsCodePro has been normalised. */
  datatype ExperienceRow = ExperienceRow(
    country: string, edLevel: string, yearsCodePro: real, convertedComp: real)

  /** A cleaned survey record, ConvertedComp renamed to Salary. */
  datatype CleanRecord = CleanRecord(
    country: string, edLevel: string, yearsCodePro: real, salary: real)

  function ProjectRow(r: SurveyRow): ProjectedRow
  {
    ProjectedRow(r.country, r.edLevel, r.yearsCodePro, r.employment, r.convertedComp)
  }

  predicate HasComp(r: ProjectedRow)
  {
    r.convertedComp.Some?
  }

  /** The row without nulls, if it has none (dropna). */
  function Complete(r: ProjectedRow): Option<CompleteRow>
  {
    if r.country.Some? && r.edLevel.Some? && r.yearsCodePro.Some? && r.employment.Some? && r.convertedComp.Some?
    then Some(CompleteRow(r.country.value, r.edLevel.value, r.yearsCodePro.value, r.employment.value, r.convertedComp.value))
    else None
  }

  predicate IsFullTime(r: CompleteRow)
  {
    r.employment == FullTime
  }

  function DropEmployment(r: CompleteRow): EmployedRow
  {
    EmployedRow(r.country, r.edLevel, r.yearsCodePro, r.convertedComp)
  }

  function CountryOf(r: EmployedRow): string
  {
    r.country
  }

  function RemapRow(r: EmployedRow, countryMap: map<string, string>): EmployedRow
    requires r.country in countryMap
  {
    r.(country := countryMap[r.country])
  }

  /** The Country column sent through the remap dictionary. */
  function RemapCountries(rows: seq<EmployedRow>, countryMap: map<string, string>): (r: seq<EmployedRow>)
    requires forall i :: 0 <= i < |rows| ==> rows[i].country in countryMap
    ensures |r| == |rows|
  {
    if rows == [] then [] else [RemapRow(rows[0], countryMap)] + RemapCountries(rows[1..], countryMap)
  }

  predicate SalaryAtMost(r: EmployedRow)
  {
    r.convertedComp <= MaxSalary
  }

  predicate SalaryAtLeast(r: EmployedRow)
  {
    r.convertedComp >= MinSalary
  }

  predicate NotOther(r: EmployedRow)
  {
    r.country != Other
  }

  function CleanExperienceIn(r: EmployedRow, toFloat: string -> Option<real>): Option<ExperienceRow>
  {
    match CleanExperience(r.yearsCodePro, toFloat)
    case None => None
    case Some(y) => Some(ExperienceRow(r.country, r.edLevel, y, r.convertedComp))
  }

  function ExperienceCleaning(toFloat: string -> Option<real>): EmployedRow -> Option<ExperienceRow>
  {
    r => CleanExperienceIn(r, toFloat)
  }

  function CleanEducationIn(r: ExperienceRow): ExperienceRow
  {
    r.(edLevel := CleanEducation(r.edLevel))
  }

  function RenameSalary(r: ExperienceRow): CleanRecord
  {
    CleanRecord(r.country, r.edLevel, r.yearsCodePro, r.convertedComp)
  }

  /** value_counts: each distinct value once, with its number of occurrences. */
  function ValueCounts(values: seq<string>): (counts: Counts)
    ensures Names(counts) == set v | v in values
    ensures forall i :: 0 <= i < |counts| ==> counts[i].1 == Count(values, counts[i].0) >= 1
    ensures forall i, j :: 0 <= i < j < |counts| ==> counts[i].0 != counts[j].0
  {
    var d := Distinct(values);
    var counts := Map(d, v => (v, Count(values, v)));
    assert forall i :: 0 <= i < |counts| ==> counts[i].0 == d[i];
    assert Names(counts) == set v | v in values by {
      forall v | v in values ensures v in Names(counts) {
        var i :| 0 <= i < |values| && values[i] == v;
        var j :| 0 <= j < |d| && d[j] == v;
        assert counts[j].0 == v;
      }
    }
    counts
  }

  // ---------------------------------------------------------------------
  // load_data: the row-at-a-time specification
  // ---------------------------------------------------------------------

  /** Steps 1-4 for one row: kept when none of its five cells is null and
      the respondent is employed full time; Employment is then dropped. */
  function EligibleRow(r: SurveyRow): Option<EmployedRow>
  {
    match Complete(ProjectRow(r))
    case None => None
    case Some(c) => if IsFullTime(c) then Some(DropEmployment(c)) else None
  }

  /** The Country column the counts are taken over: that of the rows that
      pass the null and employment filters, before the salary filter. */
  function EligibleCountries(raw: seq<SurveyRow>): seq<string>
  {
    Map(FilterMap(raw, EligibleRow), CountryOf)
  }

  /** The country remap load_data builds, with cutoff 400. */
  function CountryMapFor(raw: seq<SurveyRow>): map<string, string>
  {
    CategoryMap(ValueCounts(EligibleCountries(raw)), CountryCutoff)
  }

  /** Steps 1-7 for one row, given the country remap. */
  function SurvivingRow(r: SurveyRow, countryMap: map<string, string>): Option<EmployedRow>
  {
    match EligibleRow(r)
    case None => None
    case Some(e) =>
      if e.country in countryMap then
        var m := RemapRow(e, countryMap);
        if SalaryAtMost(m) && SalaryAtLeast(m) && NotOther(m) then Some(m) else None
      else None
  }

  function Survival(countryMap: map<string, string>): SurveyRow -> Option<EmployedRow>
  {
    r => SurvivingRow(r, countryMap)
  }

  /** Steps 8-9 for one row. */
  function FinishRow(e: EmployedRow, toFloat: string -> Option<real>): Option<CleanRecord>
  {
    match CleanExperienceIn(e, toFloat)
    case None => None
    case Some(x) => Some(RenameSalary(CleanEducationIn(x)))
  }

  function Finishing(toFloat: string -> Option<real>): EmployedRow -> Option<CleanRecord>
  {
    e => FinishRow(e, toFloat)
  }

  /** What load_data computes, one row at a time: the surviving rows in
      their order, each finished; None when float() raises on one of them. */
  function Prepared(raw: seq<SurveyRow>, toFloat: string -> Option<real>): Option<seq<CleanRecord>>
  {
    MapAll(FilterMap(raw, Survival(CountryMapFor(raw))), Finishing(toFloat))
  }

  /** The positions of the input rows that reach the output, in order. */
  function Survivors(raw: seq<SurveyRow>): seq<nat>
  {
    KeptIndices(raw, Survival(CountryMapFor(raw)), 0)
  }

  /** A cleaned record meets the invariants of the cleaned table. */
  predicate ValidRecord(c: CleanRecord)
  {
    MinSalary <= c.salary <= MaxSalary && c.country != Other && IsBucket(c.edLevel)
  }

  /** `c` is the cleaned form of the raw row `r`: a full-time row without
      nulls, its country unchanged, its two text columns normalised and its
      compensation carried over as the salary. */
  ghost predicate DerivedFrom(r: SurveyRow, c: CleanRecord, toFloat: string -> Option<real>)
  {
    && r.country == Some(c.country)
    && r.edLevel.Some? && c.edLevel == CleanEducation(r.edLevel.value)
    && r.yearsCodePro.Some? && CleanExperience(r.yearsCodePro.value, toFloat) == Some(c.yearsCodePro)
    && r.employment == Some(FullTime)
    && r.convertedComp == Some(c.salary)
  }

  // ---------------------------------------------------------------------
  // load_data: the column-by-column pipeline
  // ---------------------------------------------------------------------

  /** load_data after the file is read: each assignment is one step of the
      source, applied to the whole table. */
  method LoadData(raw: seq<SurveyRow>, toFloat: string -> Option<real>) returns (df: Option<seq<CleanRecord>>)
    ensures df == Prepared(raw, toFloat)
    ensures df.Some? ==> forall k :: 0 <= k < |df.value| ==> ValidRecord(df.value[k])
  {
    var projected := Map(raw, ProjectRow);
    var withComp := Filter(projected, HasComp);
    var complete := FilterMap(withComp, Complete);
    var fullTime := Filter(complete, IsFullTime);
    var employed := Map(fullTime, DropEmployment);
    EligibleStepsAgree(raw);

    var countryMap := ShortenCategories(ValueCounts(Map(employed, CountryOf)), CountryCutoff);
    EligibleCountriesMapped(raw);
    var remapped := RemapCountries(employed, countryMap);
    var capped := Filter(remapped, SalaryAtMost);
    var paid := Filter(capped, SalaryAtLeast);
    var major := Filter(paid, NotOther);
    SurvivalStepsAgree(raw, countryMap);

    var experienced := MapAll(major, ExperienceCleaning(toFloat));
    FinishStepsAgree(major, toFloat);
    if experienced.None? {
      df := None;
    } else {
      var educated := Map(experienced.value, CleanEducationIn);
      df := Some(Map(educated, RenameSalary));
      PreparedRows(raw, toFloat);
    }
  }

  /** Steps 1-4 applied column by column equal EligibleRow applied row by row. */
  lemma {:induction false} EligibleStepsAgree(rows: seq<SurveyRow>)
    ensures Map(Filter(FilterMap(Filter(Map(rows, ProjectRow), HasComp), Complete), IsFullTime), DropEmployment)
         == FilterMap(rows, EligibleRow)
  {
    if rows != [] {
      EligibleStepsAgree(rows[1..]);
      var r := rows[0];
      var p := ProjectRow(r);
      var projected := Map(rows[1..], ProjectRow);
      assert Map(rows, ProjectRow) == [p] + projected;
      var withComp := Filter(projected, HasComp);
      var complete := FilterMap(withComp, Complete);
      var fullTime := Filter(complete, IsFullTime);
      if HasComp(p) {
        assert Filter([p] + projected, HasComp) == [p] + withComp;
        if Complete(p).Some? {
          var c := Complete(p).value;
          assert FilterMap([p] + withComp, Complete) == [c] + complete;
          if IsFullTime(c) {
            assert Filter([c] + complete, IsFullTime) == [c] + fullTime;
          } else {
            assert Filter([c] + complete, IsFullTime) == fullTime;
          }
        } else {
          assert FilterMap([p] + withComp, Complete) == complete;
        }
      } else {
        assert Filter([p] + projected, HasComp) == withComp;
      }
    }
  }

  /** Steps 1-5 for one row: an eligible row with its country remapped. */
  function Remapped(countryMap: map<string, string>): SurveyRow -> Option<EmployedRow>
  {
    r =>
      match EligibleRow(r)
      case None => None
      case Some(e) => if e.country in countryMap then Some(RemapRow(e, countryMap)) else None
  }

  /** Steps 1-6a: a remapped row whose compensation is at most 250000. */
  function Capped(countryMap: map<string, string>): SurveyRow -> Option<EmployedRow>
  {
    r => if Remapped(countryMap)(r).Some? && SalaryAtMost(Remapped(countryMap)(r).value) then Remapped(countryMap)(r) else None
  }

  /** Steps 1-6b: a capped row whose compensation is at least 10000. */
  function Paid(countryMap: map<string, string>): SurveyRow -> Option<EmployedRow>
  {
    r => if Capped(countryMap)(r).Some? && SalaryAtLeast(Capped(countryMap)(r).value) then Capped(countryMap)(r) else None
  }

  /** Remapping the countries of the eligible rows, row by row. */
  lemma {:induction false} RemapStepAgrees(rows: seq<SurveyRow>, countryMap: map<string, string>)
    requires forall i :: 0 <= i < |FilterMap(rows, EligibleRow)| ==> FilterMap(rows, EligibleRow)[i].country in countryMap
    ensures RemapCountries(FilterMap(rows, EligibleRow), countryMap) == FilterMap(rows, Remapped(countryMap))
  {
    if rows != [] {
      var eligible := FilterMap(rows[1..], EligibleRow);
      var e := EligibleRow(rows[0]);
      assert FilterMap(rows, EligibleRow) == (if e.Some? then [e.value] else []) + eligible;
      assert forall i :: 0 <= i < |eligible| ==> eligible[i].country in countryMap by {
        forall i | 0 <= i < |eligible| ensures eligible[i].country in countryMap {
          assert eligible[i] == FilterMap(rows, EligibleRow)[if e.Some? then i + 1 else i];
        }
      }
      RemapStepAgrees(rows[1..], countryMap);
      var tail := FilterMap(rows[1..], Remapped(countryMap));
      if e.Some? {
        assert e.value.country in countryMap;
        assert RemapCountries([e.value] + eligible, countryMap)
            == [RemapRow(e.value, countryMap)] + RemapCountries(eligible, countryMap);
        assert Remapped(countryMap)(rows[0]) == Some(RemapRow(e.value, countryMap));
        assert FilterMap(rows, Remapped(countryMap)) == [RemapRow(e.value, countryMap)] + tail;
      } else {
        assert FilterMap(rows, EligibleRow) == eligible;
        assert Remapped(countryMap)(rows[0]).None?;
        assert FilterMap(rows, Remapped(countryMap)) == tail;
      }
    }
  }

  /** Steps 5-7 applied column by column equal SurvivingRow row by row. */
  lemma SurvivalStepsAgree(rows: seq<SurveyRow>, countryMap: map<string, string>)
    requires forall i :: 0 <= i < |FilterMap(rows, EligibleRow)| ==> FilterMap(rows, EligibleRow)[i].country in countryMap
    ensures Filter(Filter(Filter(RemapCountries(FilterMap(rows, EligibleRow), countryMap), SalaryAtMost), SalaryAtLeast), NotOther)
         == FilterMap(rows, Survival(countryMap))
  {
    RemapStepAgrees(rows, countryMap);
    FilterAfterFilterMap(rows, Remapped(countryMap), SalaryAtMost, Capped(countryMap));
    FilterAfterFilterMap(rows, Capped(countryMap), SalaryAtLeast, Paid(countryMap));
    FilterAfterFilterMap(rows, Paid(countryMap), NotOther, Survival(countryMap));
  }

  /** Steps 8-9 applied column by column equal FinishRow row by row. */
  lemma FinishStepsAgree(rows: seq<EmployedRow>, toFloat: string -> Option<real>)
    ensures MapAll(rows, ExperienceCleaning(toFloat)).None? <==> MapAll(rows, Finishing(toFloat)).None?
    ensures MapAll(rows, ExperienceCleaning(toFloat)).Some? ==>
      MapAll(rows, Finishing(toFloat))
        == Some(Map(Map(MapAll(rows, ExperienceCleaning(toFloat)).value, CleanEducationIn), RenameSalary))
  {
    var experienced := MapAll(rows, ExperienceCleaning(toFloat));
    var finished := MapAll(rows, Finishing(toFloat));
    assert forall i :: 0 <= i < |rows| ==>
      (ExperienceCleaning(toFloat)(rows[i]).Some? <==> Finishing(toFloat)(rows[i]).Some?);
    if experienced.Some? {
      var expected := Map(Map(experienced.value, CleanEducationIn), RenameSalary);
      assert finished.Some?;
      assert |finished.value| == |expected|;
      forall i | 0 <= i < |rows| ensures finished.value[i] == expected[i] {
        assert ExperienceCleaning(toFloat)(rows[i]) == Some(experienced.value[i]);
        assert Finishing(toFloat)(rows[i]) == Some(finished.value[i]);
      }
    }
  }

  // ---------------------------------------------------------------------
  // load_data: what the cleaned table satisfies
  // ---------------------------------------------------------------------

  /** Every country of the rows that pass the null and employment filters
      is a key of the remap. */
  lemma EligibleCountriesMapped(raw: seq<SurveyRow>)
    ensures forall c :: c in EligibleCountries(raw) ==> c in CountryMapFor(raw)
    ensures forall i :: 0 <= i < |FilterMap(raw, EligibleRow)| ==>
      FilterMap(raw, EligibleRow)[i].country in CountryMapFor(raw)
  {
    CategoryMapKeys(ValueCounts(EligibleCountries(raw)), CountryCutoff);
    assert forall i :: 0 <= i < |FilterMap(raw, EligibleRow)| ==>
      EligibleCountries(raw)[i] == FilterMap(raw, EligibleRow)[i].country;
  }

  /** A country's fate depends only on how many rows that pass the null and
      employment filters carry it: at least 400 keeps it, fewer folds it
      into 'Other'. */
  lemma CountryFate(raw: seq<SurveyRow>, c: string)
    requires c in EligibleCountries(raw)
    ensures c in CountryMapFor(raw)
    ensures Count(EligibleCountries(raw), c) >= CountryCutoff ==> CountryMapFor(raw)[c] == c
    ensures Count(EligibleCountries(raw), c) < CountryCutoff ==> CountryMapFor(raw)[c] == Other
  {
    var counts := ValueCounts(EligibleCountries(raw));
    assert c in Names(counts);
    var i :| 0 <= i < |counts| && counts[i].0 == c;
    CategoryMapEntry(counts, CountryCutoff, i);
    EligibleCountriesMapped(raw);
  }

  /** Exactly which raw rows survive steps 1-7. */
  lemma SurvivalCriteria(raw: seq<SurveyRow>, i: int)
    requires 0 <= i < |raw|
    ensures SurvivingRow(raw[i], CountryMapFor(raw)).Some? <==>
      && raw[i].country.Some? && raw[i].edLevel.Some? && raw[i].yearsCodePro.Some?
      && raw[i].employment == Some(FullTime)
      && raw[i].convertedComp.Some? && MinSalary <= raw[i].convertedComp.value <= MaxSalary
      && raw[i].country.value != Other
      && Count(EligibleCountries(raw), raw[i].country.value) >= CountryCutoff
  {
    var e := EligibleRow(raw[i]);
    if e.Some? {
      var fm := FilterMap(raw, EligibleRow);
      assert e.value in fm;
      var j :| 0 <= j < |fm| && fm[j] == e.value;
      assert EligibleCountries(raw)[j] == e.value.country;
      CountryFate(raw, e.value.country);
      EligibleCountriesMapped(raw);
    }
  }

  /** A survivor's finished record is a valid cleaned record derived from it. */
  lemma SurvivorFinished(r: SurveyRow, raw: seq<SurveyRow>, toFloat: string -> Option<real>)
    requires SurvivingRow(r, CountryMapFor(raw)).Some?
    requires FinishRow(SurvivingRow(r, CountryMapFor(raw)).value, toFloat).Some?
    ensures ValidRecord(FinishRow(SurvivingRow(r, CountryMapFor(raw)).value, toFloat).value)
    ensures DerivedFrom(r, FinishRow(SurvivingRow(r, CountryMapFor(raw)).value, toFloat).value, toFloat)
  {
    var e := EligibleRow(r).value;
    CategoryMapValues(ValueCounts(EligibleCountries(raw)), CountryCutoff);
    assert CountryMapFor(raw)[e.country] == e.country;
  }

  /** The cleaned table is the survivors of the raw table, in their
      original order, each turned into its cleaned record. */
  lemma PreparedRows(raw: seq<SurveyRow>, toFloat: string -> Option<real>)
    requires Prepared(raw, toFloat).Some?
    ensures |Prepared(raw, toFloat).value| == |Survivors(raw)|
    ensures forall k, l :: 0 <= k < l < |Survivors(raw)| ==> Survivors(raw)[k] < Survivors(raw)[l]
    ensures forall k :: 0 <= k < |Survivors(raw)| ==>
      Survivors(raw)[k] < |raw| && DerivedFrom(raw[Survivors(raw)[k]], Prepared(raw, toFloat).value[k], toFloat)
    ensures forall k :: 0 <= k < |Prepared(raw, toFloat).value| ==> ValidRecord(Prepared(raw, toFloat).value[k])
    ensures forall i :: 0 <= i < |raw| && SurvivingRow(raw[i], CountryMapFor(raw)).Some? ==> i in Survivors(raw)
  {
    var f := Survival(CountryMapFor(raw));
    var kept := FilterMap(raw, f);
    var out := Prepared(raw, toFloat).value;
    var idx := Survivors(raw);
    KeptIndicesIncreasing(raw, f, 0);
    KeptIndicesComplete(raw, f, 0);
    forall k | 0 <= k < |idx| ensures DerivedFrom(raw[idx[k]], out[k], toFloat) && ValidRecord(out[k]) {
      KeptIndexSound(raw, f, 0, k);
      assert FinishRow(kept[k], toFloat) == Some(out[k]);
      SurvivorFinished(raw[idx[k]], raw, toFloat);
    }
  }

  /** load_data fails exactly when float() raises on the YearsCodePro of a
      row that survives steps 1-7. */
  lemma PreparedFails(raw: seq<SurveyRow>, toFloat: string -> Option<real>)
    ensures Prepared(raw, toFloat).None? <==> exists i :: 0 <= i < |raw| && ParseFailsOn(raw, i, toFloat)
  {
    var m := CountryMapFor(raw);
    var f := Survival(m);
    MapAllAfterFilterMap(raw, f, Finishing(toFloat));
    forall i | 0 <= i < |raw|
      ensures ParseFailsOn(raw, i, toFloat) <==> f(raw[i]).Some? && Finishing(toFloat)(f(raw[i]).value).None?
    {
      if SurvivingRow(raw[i], m).Some? {
        FinishFailsOnlyOnExperience(raw[i], m, toFloat);
      }
    }
  }

  /** A surviving row fails to finish exactly when its experience fails to parse. */
  lemma FinishFailsOnlyOnExperience(r: SurveyRow, countryMap: map<string, string>, toFloat: string -> Option<real>)
    requires SurvivingRow(r, countryMap).Some?
    ensures r.yearsCodePro.Some?
    ensures FinishRow(SurvivingRow(r, countryMap).value, toFloat).None? <==>
      CleanExperience(r.yearsCodePro.value, toFloat).None?
  {
  }

  /** Row `i` survives steps 1-7 and float() raises on its YearsCodePro. */
  ghost predicate ParseFailsOn(raw: seq<SurveyRow>, i: int, toFloat: string -> Option<real>)
    requires 0 <= i < |raw|
  {
    SurvivingRow(raw[i], CountryMapFor(raw)).Some? &&
    CleanExperience(raw[i].yearsCodePro.value, toFloat).None?
  }

  /** Whatever the remap, a row paid below 10000 does not survive. */
  lemma LowSalaryNeverSurvives(r: SurveyRow, countryMap: map<string, string>)
    requires r.convertedComp.Some? && r.convertedComp.value < MinSalary
    ensures SurvivingRow(r, countryMap).None?
  {
  }

  /** A row with a compensation below 10000 never reaches the table. */
  lemma LowSalaryDropped(raw: seq<SurveyRow>, i: int)
    requires 0 <= i < |raw|
    requires raw[i].convertedComp.Some? && raw[i].convertedComp.value < MinSalary
    ensures i !in Survivors(raw)
  {
    LowSalaryNeverSurvives(raw[i], CountryMapFor(raw));
    KeptOnlyIfSome(raw, Survival(CountryMapFor(raw)), 0, i);
  }

  /** The raw row of the worked example. */
  const ExampleEdLevel: string := "Bachelor\U{2019}s degree (BA, BS, B.Eng., etc.)"

  /** Steps 8-9 on the worked example: 'Less than 1 year' becomes 0.5 and the
      free-text degree becomes the bachelor's bucket. */
  lemma ExampleRowFinished(toFloat: string -> Option<real>)
    ensures FinishRow(EmployedRow("United States", ExampleEdLevel, Text(LessThan1Year), 50000.0), toFloat)
         == Some(CleanRecord("United States", Bachelors, 0.5, 50000.0))
  {
    PrefixContained(ExampleEdLevel, Bachelors);
  }

  /** The worked example: a full-time respondent from a country with at least
      400 eligible rows, a bachelor's degree, less than a year of experience
      and a compensation of 50000 survives steps 1-7 unchanged. */
  lemma ExampleRowSurvives(raw: seq<SurveyRow>, i: int)
    requires 0 <= i < |raw|
    requires raw[i].country == Some("United States")
    requires raw[i].edLevel == Some(ExampleEdLevel)
    requires raw[i].yearsCodePro == Some(Text(LessThan1Year))
    requires raw[i].employment == Some(FullTime)
    requires raw[i].convertedComp == Some(50000.0)
    requires Count(EligibleCountries(raw), "United States") >= CountryCutoff
    ensures SurvivingRow(raw[i], CountryMapFor(raw))
         == Some(EmployedRow("United States", ExampleEdLevel, Text(LessThan1Year), 50000.0))
  {
    SurvivalCriteria(raw, i);
    var e := EligibleRow(raw[i]).value;
    EligibleCountriesMapped(raw);
    CategoryMapValues(ValueCounts(EligibleCountries(raw)), CountryCutoff);
    assert CountryMapFor(raw)[e.country] == e.country;
  }

  /** The worked example appears in the cleaned table as
      (United States, Bachelor's degree, 0.5, 50000). */
  lemma ExampleRowCleaned(raw: seq<SurveyRow>, i: int, toFloat: string -> Option<real>)
    requires 0 <= i < |raw|
    requires raw[i].country == Some("United States")
    requires raw[i].edLevel == Some(ExampleEdLevel)
    requires raw[i].yearsCodePro == Some(Text(LessThan1Year))
    requires raw[i].employment == Some(FullTime)
    requires raw[i].convertedComp == Some(50000.0)
    requires Count(EligibleCountries(raw), "United States") >= CountryCutoff
    requires Prepared(raw, toFloat).Some?
    ensures CleanRecord("United States", Bachelors, 0.5, 50000.0) in Prepared(raw, toFloat).value
  {
    var m := CountryMapFor(raw);
    var f := Survival(m);
    ExampleRowSurvives(raw, i);
    ExampleRowFinished(toFloat);
    KeptIndicesComplete(raw, f, 0);
    var idx := KeptIndices(raw, f, 0);
    var k :| 0 <= k < |idx| && idx[k] == i;
    KeptIndexSound(raw, f, 0, k);
    var kept := FilterMap(raw, f);
    var out := Prepared(raw, toFloat).value;
    assert Finishing(toFloat)(kept[k]) == Some(out[k]);
  }
}
