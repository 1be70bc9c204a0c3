/** What the fetcher downloads and under which name: the URL templates of the
    three dataset families, the date fragments that fill the Paraná template,
    and the CSV file names of the Paraná and Hopkins downloads. */
module Sources {
  import opened Wrappers
  import opened Text
  import opened Calendar

  /** The two placeholders of the URL templates. */
  const Var1 := "#VAR1#"
  const Var2 := "#VAR2#"

  // The long URL literals are written as concatenations of shorter pieces;
  // each constant is the same string as the class attribute it stands for.

  /** `__urlHopkinsDatasets` is `HopkinsPrefix + Var1 + HopkinsSuffix`. */
  const HopkinsPrefix := "https://raw.githubusercontent.com/" + "CSSEGISandData/COVID-19/master/"
                         + "csse_covid_19_data/" + "csse_covid_19_time_series/" + "time_series_covid19_"
  const HopkinsSuffix := "_global.csv"
  const HopkinsTemplate := HopkinsPrefix + Var1 + HopkinsSuffix

  /** `__urlParanaDataset`, as initialised, is
      `ParanaPrefix + Var1 + ParanaMiddle + Var2 + ParanaSuffix`. */
  const ParanaPrefix := "https://www.saude.pr.gov.br/sites/" + "default/arquivos_restritos/files/" + "documento/"
  const ParanaMiddle := "/informe_epidemiologico_"
  const ParanaSuffix := "_geral.csv"
  const ParanaTemplate := ParanaPrefix + Var1 + ParanaMiddle + Var2 + ParanaSuffix

  /** `__urlOwnDatasets` is `OwnPrefix + Var1 + OwnSuffix`. */
  const OwnPrefix := "https://raw.githubusercontent.com/" + "FlavioLucasFer/datascience/master/" + "datasets/"
  const OwnSuffix := ".csv"
  const OwnTemplate := OwnPrefix + Var1 + OwnSuffix

  /** The table identifier both author-table downloads put into the template. */
  const ParanaCitiesTable := "parana_cities_with_ibge_code"

  /** `__datasetsDir` as initialised. */
  const DefaultDatasetsDir := "./datasets-covid"

  /** Default `csvFileName` arguments of the download methods. */
  const DefaultParanaCsvFileName := "daily_newsletter_covid_parana"
  const DefaultHopkinsCsvFileName := "hopkins_global_"
  const DefaultParanaCitiesCsvFileName := "parana_cities_with_ibge_code.csv"
  const DefaultParanavaiRegionCitiesCsvFileName := "paranavai_region_cities_with_ibge_code.csv"

  /** The fixed text around the placeholders holds no `#`, and the two
      placeholders are distinct and of the repository's shape. */
  lemma FixedTextMarkerFree()
    ensures '#' !in HopkinsPrefix && '#' !in HopkinsSuffix
    ensures '#' !in ParanaPrefix && '#' !in ParanaMiddle && '#' !in ParanaSuffix
    ensures '#' !in OwnPrefix && '#' !in OwnSuffix
    ensures IsPlaceholder(Var1) && IsPlaceholder(Var2) && Var1 != Var2
  {
    HopkinsTextMarkerFree();
    ParanaTextMarkerFree();
    OwnTextMarkerFree();
    assert Var1[4] != Var2[4];
  }

  lemma HopkinsTextMarkerFree()
    ensures '#' !in HopkinsPrefix && '#' !in HopkinsSuffix
  {
    GithubHostMarkerFree();
    HopkinsPathMarkerFree();
  }

  lemma GithubHostMarkerFree()
    ensures '#' !in "https://raw.githubusercontent.com/"
  {
  }

  lemma HopkinsPathMarkerFree()
    ensures '#' !in "CSSEGISandData/COVID-19/master/"
    ensures '#' !in "csse_covid_19_data/" && '#' !in "csse_covid_19_time_series/"
    ensures '#' !in "time_series_covid19_"
  {
  }

  lemma ParanaTextMarkerFree()
    ensures '#' !in ParanaPrefix && '#' !in ParanaMiddle && '#' !in ParanaSuffix
  {
    ParanaHostMarkerFree();
  }

  lemma ParanaHostMarkerFree()
    ensures '#' !in "https://www.saude.pr.gov.br/sites/"
    ensures '#' !in "default/arquivos_restritos/files/" && '#' !in "documento/"
  {
  }

  lemma OwnTextMarkerFree()
    ensures '#' !in OwnPrefix && '#' !in OwnSuffix
  {
    GithubHostMarkerFree();
    assert '#' !in "FlavioLucasFer/datascience/master/";
  }

  /** Text without `#` holds neither placeholder, so `replace` leaves it alone. */
  lemma MarkerFreeUnchanged(s: string, rep: string)
    requires '#' !in s
    ensures !Occurs(s, Var1) && !Occurs(s, Var2)
    ensures Replace(s, Var1, rep) == s && Replace(s, Var2, rep) == s
  {
    MarkerFreeAbsent(s, Var1);
    MarkerFreeAbsent(s, Var2);
    ReplaceAbsent(s, Var1, rep);
    ReplaceAbsent(s, Var2, rep);
  }

  // ---------------------------------------------------------------------
  // Hopkins University time series

  /** `__getUrlHopkinsDatasets().replace('#VAR1#', kind)`. */
  function HopkinsUrl(kind: string): string
  {
    Replace(HopkinsTemplate, Var1, kind)
  }

  /** A kind without `#` fills the one placeholder and leaves none behind. */
  lemma HopkinsUrlFilled(kind: string)
    requires '#' !in kind
    ensures HopkinsUrl(kind) == HopkinsPrefix + kind + HopkinsSuffix
    ensures '#' !in HopkinsUrl(kind) && !Occurs(HopkinsUrl(kind), Var1)
  {
    FixedTextMarkerFree();
    FillSingle(HopkinsPrefix, HopkinsSuffix, Var1, kind);
    MarkerFreeUnchanged(HopkinsPrefix + kind + HopkinsSuffix, kind);
  }

  /** `getUrlHopkinsGlobalConfirmedCases`. */
  function GetUrlHopkinsGlobalConfirmedCases(): (url: string)
    ensures url == HopkinsPrefix + "confirmed" + HopkinsSuffix
    ensures '#' !in url && !Occurs(url, Var1)
  {
    HopkinsUrlFilled("confirmed");
    HopkinsUrl("confirmed")
  }

  /** `getUrlHopkinsGlobalDeaths`. */
  function GetUrlHopkinsGlobalDeaths(): (url: string)
    ensures url == HopkinsPrefix + "deaths" + HopkinsSuffix
    ensures '#' !in url && !Occurs(url, Var1)
  {
    HopkinsUrlFilled("deaths");
    HopkinsUrl("deaths")
  }

  /** `getUrlHopkinsGlobalRecovered`. */
  function GetUrlHopkinsGlobalRecovered(): (url: string)
    ensures url == HopkinsPrefix + "recovered" + HopkinsSuffix
    ensures '#' !in url && !Occurs(url, Var1)
  {
    HopkinsUrlFilled("recovered");
    HopkinsUrl("recovered")
  }

  /** The URL `downloadHopkinsDataset` fetches: the confirmed-cases URL with
      `#VAR1#` replaced by `kind`. The placeholder is already gone, so the URL
      is the confirmed-cases URL whatever `kind` is. */
  function HopkinsDownloadUrl(kind: string): (url: string)
    ensures url == GetUrlHopkinsGlobalConfirmedCases()
  {
    var confirmed := GetUrlHopkinsGlobalConfirmedCases();
    MarkerFreeUnchanged(confirmed, kind);
    Replace(confirmed, Var1, kind)
  }

  /** The suffix `downloadHopkinsDataset` appends for `kind`, compared
      case-insensitively; an unrecognised kind appends nothing. */
  function KindSuffix(kind: string): string
  {
    var k := Lower(kind);
    if k == "confirmed" then "confirmed_cases"
    else if k == "deaths" then "deaths"
    else if k == "recovered" then "recovered"
    else ""
  }

  /** The kind is matched ignoring case. */
  lemma KindSuffixIgnoresCase(kind: string)
    ensures KindSuffix(Lower(kind)) == KindSuffix(kind)
  {
    LowerOfLower(Lower(kind));
  }

  /** Kinds that differ only in letter case select the same suffix. */
  lemma KindSuffixCaseInsensitive(kind: string, other: string)
    requires |kind| == |other|
    requires forall i :: 0 <= i < |kind| ==> SameLetterIgnoringCase(kind[i], other[i])
    ensures KindSuffix(kind) == KindSuffix(other)
  {
    LowerIgnoresCase(kind, other);
  }

  /** Capitalised and upper-case spellings of the recognised kinds. */
  lemma KindSuffixSpellings()
    ensures KindSuffix("CONFIRMED") == "confirmed_cases" && KindSuffix("Confirmed") == "confirmed_cases"
    ensures KindSuffix("DEATHS") == "deaths" && KindSuffix("Deaths") == "deaths"
    ensures KindSuffix("RECOVERED") == "recovered" && KindSuffix("Recovered") == "recovered"
  {
    assert Lower("CONFIRMED") == "confirmed";
    assert Lower("Confirmed") == "confirmed";
    assert Lower("DEATHS") == "deaths";
    assert Lower("Deaths") == "deaths";
    assert Lower("RECOVERED") == "recovered";
    assert Lower("Recovered") == "recovered";
  }

  /** The end of a CSV file name: `_<date>.csv` when the date is wanted,
      otherwise `.csv`. */
  function DateSuffix(withDate: bool, date: string): string
  {
    if withDate then "_" + date + ".csv" else ".csv"
  }

  /** The file name `downloadHopkinsDataset` saves under; the date is that of
      `now`, with no cutoff applied. */
  function HopkinsCsvFileName(csvFileName: string, kind: string, withDate: bool, now: DateTime): string
    requires Valid(now)
  {
    csvFileName + KindSuffix(kind) + DateSuffix(withDate, FormatDayMonthYear(now))
  }

  /** The three recognised kinds select their suffix, and every other kind
      leaves the name without one. */
  lemma HopkinsCsvFileNameCases(csvFileName: string, kind: string, withDate: bool, now: DateTime)
    requires Valid(now)
    ensures var rest := DateSuffix(withDate, FormatDayMonthYear(now));
      var name := HopkinsCsvFileName(csvFileName, kind, withDate, now);
      (Lower(kind) == "confirmed" ==> name == csvFileName + "confirmed_cases" + rest) &&
      (Lower(kind) == "deaths" ==> name == csvFileName + "deaths" + rest) &&
      (Lower(kind) == "recovered" ==> name == csvFileName + "recovered" + rest) &&
      (Lower(kind) !in {"confirmed", "deaths", "recovered"} ==> name == csvFileName + rest)
  {
    if Lower(kind) !in {"confirmed", "deaths", "recovered"} {
      assert KindSuffix(kind) == "";
      assert csvFileName + "" == csvFileName;
    }
  }

  // ---------------------------------------------------------------------
  // Author-provided tables

  /** `__getUrlOwnDatasets().replace('#VAR1#', table)`. */
  function OwnUrl(table: string): (url: string)
    requires '#' !in table
    ensures url == OwnPrefix + table + OwnSuffix
    ensures '#' !in url && !Occurs(url, Var1)
  {
    FixedTextMarkerFree();
    FillSingle(OwnPrefix, OwnSuffix, Var1, table);
    MarkerFreeUnchanged(OwnPrefix + table + OwnSuffix, table);
    Replace(OwnTemplate, Var1, table)
  }

  /** The URL `downloadParanaCitiesWithIBGECodeDataset` fetches. */
  function ParanaCitiesUrl(): (url: string)
    ensures url == OwnPrefix + "parana_cities_with_ibge_code" + OwnSuffix
  {
    OwnUrl(ParanaCitiesTable)
  }

  /** The URL `downloadParanavaiRegionCitiesWithIBGECodeDataset` fetches: the
      source fills in the Paraná table identifier here as well, so it is the
      Paraná cities URL and not one for the Paranavaí region. */
  function ParanavaiRegionCitiesUrl(): (url: string)
    ensures url == ParanaCitiesUrl()
    ensures url != OwnPrefix + "paranavai_region_cities_with_ibge_code" + OwnSuffix
  {
    var url := OwnUrl(ParanaCitiesTable);
    assert url[|OwnPrefix| + 4] == 'n';
    url
  }

  // ---------------------------------------------------------------------
  // Paraná daily report

  /** `__setUrlParanaDataset`'s rewrite of the stored URL:
      `url.replace('#VAR1#', yearAndMonth).replace('#VAR2#', targetDate)`. */
  function FillParana(url: string, yearAndMonth: string, targetDate: string): string
  {
    Replace(Replace(url, Var1, yearAndMonth), Var2, targetDate)
  }

  /** On the initial template, fragments without `#` land in their two places
      and no placeholder remains. */
  lemma FillParanaTemplate(yearAndMonth: string, targetDate: string)
    requires '#' !in yearAndMonth && '#' !in targetDate
    ensures FillParana(ParanaTemplate, yearAndMonth, targetDate)
            == ParanaPrefix + yearAndMonth + ParanaMiddle + targetDate + ParanaSuffix
    ensures '#' !in FillParana(ParanaTemplate, yearAndMonth, targetDate)
  {
    FixedTextMarkerFree();
    FillFirstOfTwo(ParanaPrefix, ParanaMiddle, ParanaSuffix, Var1, Var2, yearAndMonth);
    var head := ParanaPrefix + yearAndMonth + ParanaMiddle;
    assert ParanaPrefix + yearAndMonth + ParanaMiddle + Var2 + ParanaSuffix == head + Var2 + ParanaSuffix;
    FillSingle(head, ParanaSuffix, Var2, targetDate);
  }

  /** A URL without placeholders is left as it is, whatever the fragments. */
  lemma FillParanaConsumed(url: string, yearAndMonth: string, targetDate: string)
    requires !Occurs(url, Var1) && !Occurs(url, Var2)
    ensures FillParana(url, yearAndMonth, targetDate) == url
  {
    ReplaceAbsent(url, Var1, yearAndMonth);
    ReplaceAbsent(url, Var2, targetDate);
  }

  /** The stored template is consumed by its first rewrite: every later one,
      with any fragments, keeps the URL the first one produced. */
  lemma ParanaTemplateConsumedOnce(ym1: string, td1: string, ym2: string, td2: string)
    requires '#' !in ym1 && '#' !in td1
    ensures var first := FillParana(ParanaTemplate, ym1, td1);
      FillParana(first, ym2, td2) == first
  {
    FillParanaTemplate(ym1, td1);
    var first := FillParana(ParanaTemplate, ym1, td1);
    MarkerFreeUnchanged(first, "");
    FillParanaConsumed(first, ym2, td2);
  }

  /** The two fragments that fill the Paraná URL. */
  datatype DateFragments = DateFragments(yearAndMonth: string, targetDate: string)

  /** Why no fragments could be produced: `tDate` has fewer than three
      `/`-separated fields (`IndexError`), or yesterday is before 0001-01-01
      (`OverflowError`). */
  datatype DateError = MissingDateField | DateOutOfRange

  /** Lines 286-304 of `downloadParanaDataset`: an explicit `d/m/Y` date is
      split and its fields used verbatim; without one the current time decides
      between today and yesterday, while the year-month fragment is always the
      current one. */
  function ResolveParanaDate(tDate: string, now: DateTime): Result<DateFragments, DateError>
    requires Valid(now)
  {
    if tDate != "" then
      var date := Split(tDate, '/');
      if |date| < 3 then Err(MissingDateField)
      else Ok(DateFragments(date[2] + "-" + date[1], date[0] + "_" + date[1] + "_" + date[2]))
    else
      var yearAndMonth := FormatYearMonth(now);
      if AtOrAfterCutoff(now) then Ok(DateFragments(yearAndMonth, FormatDayMonthYear(now)))
      else match PrevDay(now)
        case None => Err(DateOutOfRange)
        case Some(yesterday) => Ok(DateFragments(yearAndMonth, FormatDayMonthYear(yesterday)))
  }

  /** An explicit `d/m/y` gives `y-m` and `d_m_y`, the fields taken verbatim. */
  lemma ExplicitDate(d: string, m: string, y: string, now: DateTime)
    requires Valid(now)
    requires '/' !in d && '/' !in m && '/' !in y
    ensures ResolveParanaDate(d + "/" + m + "/" + y, now)
            == Ok(DateFragments(y + "-" + m, d + "_" + m + "_" + y))
  {
    SplitPlain(y, '/');
    SplitField(m, y, '/');
    SplitField(d, m + "/" + y, '/');
    assert d + "/" + m + "/" + y == d + ['/'] + (m + ['/'] + y);
    assert Split(d + "/" + m + "/" + y, '/') == [d, m, y];
  }

  /** The date 05/03/2021 is filed under 2021-03 as 05_03_2021. */
  lemma FifthOfMarchExplicit(now: DateTime)
    requires Valid(now)
    ensures ResolveParanaDate("05/03/2021", now) == Ok(DateFragments("2021-03", "05_03_2021"))
  {
    ExplicitDate("05", "03", "2021", now);
    assert "05" + "/" + "03" + "/" + "2021" == "05/03/2021";
    assert "2021" + "-" + "03" == "2021-03";
    assert "05" + "_" + "03" + "_" + "2021" == "05_03_2021";
  }

  /** Fields after the third are ignored. */
  lemma ExplicitDateExtraFields(d: string, m: string, y: string, rest: string, now: DateTime)
    requires Valid(now)
    requires '/' !in d && '/' !in m && '/' !in y
    ensures ResolveParanaDate(d + "/" + m + "/" + y + "/" + rest, now)
            == Ok(DateFragments(y + "-" + m, d + "_" + m + "_" + y))
  {
    var t3 := y + "/" + rest;
    var t2 := m + "/" + t3;
    var t1 := d + "/" + t2;
    assert t1 == d + "/" + m + "/" + y + "/" + rest;
    SplitField(y, rest, '/');
    SplitField(m, t3, '/');
    SplitField(d, t2, '/');
    var parts := Split(t1, '/');
    assert parts == [d] + ([m] + ([y] + Split(rest, '/')));
    assert parts[0] == d && parts[1] == m && parts[2] == y;
  }

  /** A non-empty explicit date fails exactly when it has fewer than two `/`. */
  lemma ExplicitDateError(tDate: string, now: DateTime)
    requires Valid(now) && tDate != ""
    ensures ResolveParanaDate(tDate, now).Err? <==> Count(tDate, '/') < 2
    ensures ResolveParanaDate(tDate, now).Err? ==> ResolveParanaDate(tDate, now).error == MissingDateField
  {
    SplitCount(tDate, '/');
  }

  /** Without an explicit date: at or after 15:00 the target date is today,
      before it yesterday; the year-month fragment is today's in both cases. */
  lemma CurrentDate(now: DateTime)
    requires Valid(now)
    ensures now.hour >= CutoffHour ==>
      ResolveParanaDate("", now) == Ok(DateFragments(FormatYearMonth(now), FormatDayMonthYear(now)))
    ensures now.hour < CutoffHour && PrevDay(now).Some? ==>
      ResolveParanaDate("", now) == Ok(DateFragments(FormatYearMonth(now), FormatDayMonthYear(PrevDay(now).value)))
    ensures now.hour < CutoffHour && PrevDay(now).None? ==>
      ResolveParanaDate("", now) == Err(DateOutOfRange)
  {
    CutoffByHour(now);
  }

  /** On the first day of a month before the cutoff, the two fragments name
      different months: the target date rolls back, the year-month does not. */
  lemma YearMonthNotRolledBack(now: DateTime)
    requires Valid(now) && now.day == 1 && now.hour < CutoffHour
    requires !(now.year == MinYear && now.month == 1)
    ensures ResolveParanaDate("", now).Ok?
    ensures var f := ResolveParanaDate("", now).value;
      f.yearAndMonth[5..] != f.targetDate[3..5]
  {
    CutoffByHour(now);
    var yesterday := PrevDay(now).value;
    assert yesterday.month != now.month;
    var f := ResolveParanaDate("", now).value;
    assert Value(f.yearAndMonth[5..]) == now.month;
    assert Value(f.targetDate[3..5]) == yesterday.month;
  }

  /** The target date changes across the cutoff on the same day: the report
      asked for at 14:59:59.999999 is not the one asked for at 15:00. */
  lemma CutoffChangesTargetDate(before: DateTime, after: DateTime)
    requires Valid(before) && Valid(after)
    requires before.year == after.year && before.month == after.month && before.day == after.day
    requires before.hour < CutoffHour <= after.hour
    requires ResolveParanaDate("", before).Ok?
    ensures ResolveParanaDate("", before).value.yearAndMonth == ResolveParanaDate("", after).value.yearAndMonth
    ensures ResolveParanaDate("", before).value.targetDate != ResolveParanaDate("", after).value.targetDate
  {
    CurrentDate(before);
    CurrentDate(after);
    var yesterday := PrevDay(before).value;
    if FormatDayMonthYear(yesterday) == FormatDayMonthYear(after) {
      FormatDayMonthYearInjective(yesterday, after);
    }
  }

  /** A worked example: 1 March 2021 at 09:30 asks for the report of
      28 February 2021 filed under 2021-03. */
  lemma MorningOfFirstOfMarch()
    ensures ResolveParanaDate("", DateTime(2021, 3, 1, 9, 30, 0, 0))
            == Ok(DateFragments("2021-03", "28_02_2021"))
  {
    var now := DateTime(2021, 3, 1, 9, 30, 0, 0);
    CutoffByHour(now);
    assert PrevDay(now) == Some(DateTime(2021, 2, 28, 9, 30, 0, 0));
    assert Pad4(2021) == "2021" && Pad2(3) == "03" && Pad2(2) == "02" && Pad2(28) == "28";
    assert FormatYearMonth(now) == "2021-03";
    assert FormatDayMonthYear(DateTime(2021, 2, 28, 9, 30, 0, 0)) == "28_02_2021";
  }

  /** The file name `downloadParanaDataset` saves under. */
  function ParanaCsvFileName(csvFileName: string, targetDate: string, withDate: bool): (name: string)
  {
    csvFileName + DateSuffix(withDate, targetDate)
  }
}
