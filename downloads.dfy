/** The `DownloadCovidDatasets` class of lib/DownloadCovidDatasets.py: its two
    mutable class attributes, the existence checks, the idempotent
    `downloadDataset` and the four download entry points. */
module Downloads {
  import opened Wrappers
  import opened Text
  import opened Calendar
  import opened Sources
  import opened FileSystems

  /** Why a download did not happen. */
  datatype DownloadError =
    | DateError(reason: Sources.DateError)
    | DirectoryCreationFailed(path: string)

  /** The directory arguments fall back to the configured directory when
      they are empty. */
  function EffectiveDir(dir: string, defaultDir: string): string
  {
    if dir != "" then dir else defaultDir
  }

  /** The filesystem after a download, and what the download returned. */
  datatype Outcome = Outcome(fs: FsState, result: Result<string, DownloadError>)

  /** What `downloadDataset(url, dirToSave, csvFileName, overwrite)` does when
      the configured directory is `defaultDir`. The path it builds and returns
      uses `dirToSave` as given; the two existence checks use `dirToSave`, or
      `defaultDir` when `dirToSave` is empty. */
  function DownloadOutcome(st: FsState, defaultDir: string, url: string, dirToSave: string,
                           csvFileName: string, overwrite: bool): (o: Outcome)
    ensures var checkedDir := EffectiveDir(dirToSave, defaultDir);
      var path := dirToSave + "/" + csvFileName;
      var fetch := checkedDir + "/" + csvFileName !in st.files || overwrite;
      (o.result.Err? <==> checkedDir !in st.dirs && !CanMkdir(st, dirToSave)) &&
      (o.result.Err? ==> o.result.error == DirectoryCreationFailed(dirToSave) && o.fs == st) &&
      (o.result.Ok? ==>
        o.result.value == path &&
        o.fs.dirs == (if checkedDir in st.dirs then st.dirs else st.dirs + {dirToSave}) &&
        o.fs.files == (if fetch then st.files + {path} else st.files) &&
        o.fs.fetches == (if fetch then st.fetches + [Fetch(url, path)] else st.fetches))
  {
    var datasetPath := dirToSave + "/" + csvFileName;
    var checkedDir := EffectiveDir(dirToSave, defaultDir);
    if checkedDir !in st.dirs && !CanMkdir(st, dirToSave) then
      Outcome(st, Err(DirectoryCreationFailed(dirToSave)))
    else
      var st1 := if checkedDir in st.dirs then st else AfterMkdir(st, dirToSave);
      if checkedDir + "/" + csvFileName !in st1.files || overwrite then
        Outcome(AfterRetrieve(st1, url, datasetPath), Ok(datasetPath))
      else
        Outcome(st1, Ok(datasetPath))
  }

  /** Downloading the same file twice without `overwrite` fetches it once:
      the second call changes nothing and returns the same path. */
  lemma DownloadTwiceWithoutOverwrite(st: FsState, defaultDir: string, url: string,
                                      dirToSave: string, csvFileName: string)
    requires dirToSave != ""
    requires DownloadOutcome(st, defaultDir, url, dirToSave, csvFileName, false).result.Ok?
    ensures var first := DownloadOutcome(st, defaultDir, url, dirToSave, csvFileName, false);
      var second := DownloadOutcome(first.fs, defaultDir, url, dirToSave, csvFileName, false);
      second.fs == first.fs && second.result == first.result &&
      |second.fs.fetches| <= |st.fetches| + 1
  {
  }

  /** With `overwrite`, every call fetches again: two calls, two fetches of
      the same URL to the same path. */
  lemma DownloadTwiceWithOverwrite(st: FsState, defaultDir: string, url: string,
                                   dirToSave: string, csvFileName: string)
    requires DownloadOutcome(st, defaultDir, url, dirToSave, csvFileName, true).result.Ok?
    ensures var first := DownloadOutcome(st, defaultDir, url, dirToSave, csvFileName, true);
      var second := DownloadOutcome(first.fs, defaultDir, url, dirToSave, csvFileName, true);
      var f := Fetch(url, dirToSave + "/" + csvFileName);
      second.result == first.result &&
      second.fs.fetches == st.fetches + [f, f]
  {
  }

  /** With an empty `dirToSave` the checks look under the configured
      directory while the file is written to `"/" + csvFileName`, so a call
      repeated without `overwrite` fetches again. */
  lemma EmptyDirectoryFetchesAgain(st: FsState, defaultDir: string, url: string, csvFileName: string)
    requires defaultDir != "" && defaultDir in st.dirs
    requires defaultDir + "/" + csvFileName !in st.files
    ensures var first := DownloadOutcome(st, defaultDir, url, "", csvFileName, false);
      var second := DownloadOutcome(first.fs, defaultDir, url, "", csvFileName, false);
      var f := Fetch(url, "/" + csvFileName);
      first.result == Ok("/" + csvFileName) && second.result == first.result &&
      second.fs.fetches == st.fetches + [f, f]
  {
    assert "" + "/" + csvFileName == "/" + csvFileName;
    assert |defaultDir + "/" + csvFileName| != |"/" + csvFileName|;
  }

  /** On a well-formed filesystem, a download with both the directory
      argument and the configured directory empty fails at `os.mkdir('')`. */
  lemma EmptyDirectoriesFail(st: FsState, url: string, csvFileName: string, overwrite: bool)
    requires WellFormed(st)
    ensures DownloadOutcome(st, "", url, "", csvFileName, overwrite) == Outcome(st, Err(DirectoryCreationFailed("")))
  {
  }

  /** A download keeps the filesystem well-formed unless the file it writes
      is an existing directory, where Python raises instead. */
  lemma DownloadKeepsWellFormed(st: FsState, defaultDir: string, url: string, dirToSave: string,
                                csvFileName: string, overwrite: bool)
    requires WellFormed(st)
    requires dirToSave + "/" + csvFileName !in st.dirs
    ensures WellFormed(DownloadOutcome(st, defaultDir, url, dirToSave, csvFileName, overwrite).fs)
  {
    var path := dirToSave + "/" + csvFileName;
    assert path != dirToSave by {
      assert |path| == |dirToSave| + 1 + |csvFileName|;
    }
  }

  /** The fetcher. Python keeps the URL of the Paraná report and the datasets
      directory as class attributes shared by every call; one object of this
      class stands for the class and its attributes. */
  class DownloadCovidDatasets {
    /** `__urlParanaDataset`: a template until the first Paraná download. */
    var urlParanaDataset: string
    /** `__datasetsDir`. */
    var datasetsDir: string

    /** The attributes as the class body initialises them. */
    constructor ()
      ensures urlParanaDataset == ParanaTemplate && datasetsDir == DefaultDatasetsDir
    {
      urlParanaDataset := ParanaTemplate;
      datasetsDir := DefaultDatasetsDir;
    }

    /** `getUrlParanaDataset`. */
    function GetUrlParanaDataset(): string
      reads this
    {
      urlParanaDataset
    }

    /** `getDatasetsDir`. */
    function GetDatasetsDir(): string
      reads this
    {
      datasetsDir
    }

    /** `setDatasetsDir`: later reads of the directory see `dir`. */
    method SetDatasetsDir(dir: string)
      modifies this
      ensures GetDatasetsDir() == dir
      ensures urlParanaDataset == old(urlParanaDataset)
    {
      datasetsDir := dir;
    }

    /** `__setUrlParanaDataset`: rewrites the stored URL in place. */
    method SetUrlParanaDataset(yearAndMonth: string, targetDate: string)
      modifies this
      ensures urlParanaDataset == FillParana(old(urlParanaDataset), yearAndMonth, targetDate)
      ensures datasetsDir == old(datasetsDir)
    {
      urlParanaDataset := Replace(Replace(urlParanaDataset, Var1, yearAndMonth), Var2, targetDate);
    }

    /** `checkDatasetDir`: is `dir`, or the configured directory when `dir` is
        empty, an existing directory? */
    function CheckDatasetDir(fs: FileSystem, dir: string): (found: bool)
      reads this, fs
      ensures dir != "" ==> (found <==> fs.IsDir(dir))
      ensures dir == "" ==> (found <==> fs.IsDir(datasetsDir))
    {
      var d := if dir != "" then dir else datasetsDir;
      fs.IsDir(d)
    }

    /** `checkDataset`: is `dir/name`, with the configured directory when `dir`
        is empty, an existing file? */
    function CheckDataset(fs: FileSystem, name: string, dir: string := ""): (found: bool)
      reads this, fs
      ensures dir != "" ==> (found <==> fs.IsFile(dir + "/" + name))
      ensures dir == "" ==> (found <==> fs.IsFile(datasetsDir + "/" + name))
    {
      var d := if dir != "" then dir else datasetsDir;
      fs.IsFile(d + "/" + name)
    }

    /** `downloadDataset`: create the directory when it is missing, fetch when
        the file is missing or `overwrite` is set, return the path. */
    method DownloadDataset(fs: FileSystem, url: string, dirToSave: string, csvFileName: string,
                           overwrite: bool := false)
      returns (r: Result<string, DownloadError>)
      modifies fs
      ensures var o := DownloadOutcome(old(fs.State()), datasetsDir, url, dirToSave, csvFileName, overwrite);
        fs.State() == o.fs && r == o.result
    {
      var datasetPath := dirToSave + "/" + csvFileName;
      if !CheckDatasetDir(fs, dirToSave) {
        var ok := fs.Mkdir(dirToSave);
        if !ok {
          return Err(DirectoryCreationFailed(dirToSave));
        }
      }
      if !CheckDataset(fs, csvFileName, dirToSave) || overwrite {
        fs.Retrieve(url, datasetPath);
      }
      return Ok(datasetPath);
    }

    /** `downloadParanaDataset`: resolve the date fragments, rewrite the stored
        URL with them, build the file name and download. */
    method DownloadParanaDataset(fs: FileSystem, now: DateTime,
                                 csvFileName: string := DefaultParanaCsvFileName,
                                 tDate: string := "", dirToSave: string := "",
                                 csvFileNameWithTDate: bool := false, overwrite: bool := false)
      returns (r: Result<string, DownloadError>)
      requires Valid(now)
      modifies this, fs
      ensures datasetsDir == old(datasetsDir)
      ensures ResolveParanaDate(tDate, now).Err? ==>
        r == Err(DateError(ResolveParanaDate(tDate, now).error)) &&
        urlParanaDataset == old(urlParanaDataset) && fs.State() == old(fs.State())
      ensures ResolveParanaDate(tDate, now).Ok? ==>
        var f := ResolveParanaDate(tDate, now).value;
        var o := DownloadOutcome(old(fs.State()), datasetsDir, urlParanaDataset,
                                 EffectiveDir(dirToSave, datasetsDir),
                                 ParanaCsvFileName(csvFileName, f.targetDate, csvFileNameWithTDate), overwrite);
        urlParanaDataset == FillParana(old(urlParanaDataset), f.yearAndMonth, f.targetDate) &&
        fs.State() == o.fs && r == o.result
    {
      var dir := if dirToSave != "" then dirToSave else GetDatasetsDir();
      var fragments := ResolveParanaDate(tDate, now);
      if fragments.Err? {
        return Err(DateError(fragments.error));
      }
      var yearAndMonth, targetDate := fragments.value.yearAndMonth, fragments.value.targetDate;
      SetUrlParanaDataset(yearAndMonth, targetDate);
      var name := csvFileName;
      if csvFileNameWithTDate {
        name := name + "_" + targetDate + ".csv";
      } else {
        name := name + ".csv";
      }
      assert name == ParanaCsvFileName(csvFileName, targetDate, csvFileNameWithTDate);
      r := DownloadDataset(fs, GetUrlParanaDataset(), dir, name, overwrite);
    }

    /** `downloadHopkinsDataset`: the file name follows `kind`, the URL is the
        confirmed-cases one whatever `kind` is. */
    method DownloadHopkinsDataset(fs: FileSystem, now: DateTime,
                                  csvFileName: string := DefaultHopkinsCsvFileName,
                                  kind: string := "confirmed", dirToSave: string := "",
                                  csvFileNameWithTDate: bool := false, overwrite: bool := false)
      returns (r: Result<string, DownloadError>)
      requires Valid(now)
      modifies fs
      ensures var o := DownloadOutcome(old(fs.State()), datasetsDir, GetUrlHopkinsGlobalConfirmedCases(),
                                       EffectiveDir(dirToSave, datasetsDir),
                                       HopkinsCsvFileName(csvFileName, kind, csvFileNameWithTDate, now), overwrite);
        fs.State() == o.fs && r == o.result
    {
      var dir := if dirToSave != "" then dirToSave else GetDatasetsDir();
      var name := HopkinsCsvFileName(csvFileName, kind, csvFileNameWithTDate, now);
      var url := HopkinsDownloadUrl(kind);
      r := DownloadDataset(fs, url, dir, name, overwrite);
    }

    /** `downloadParanaCitiesWithIBGECodeDataset`. */
    method DownloadParanaCitiesWithIBGECodeDataset(fs: FileSystem,
                                                   csvFileName: string := DefaultParanaCitiesCsvFileName,
                                                   dirToSave: string := "", overwrite: bool := false)
      returns (r: Result<string, DownloadError>)
      modifies fs
      ensures var o := DownloadOutcome(old(fs.State()), datasetsDir, ParanaCitiesUrl(),
                                       EffectiveDir(dirToSave, datasetsDir), csvFileName, overwrite);
        fs.State() == o.fs && r == o.result
    {
      var dir := if dirToSave != "" then dirToSave else GetDatasetsDir();
      var url := OwnUrl(ParanaCitiesTable);
      r := DownloadDataset(fs, url, dir, csvFileName, overwrite);
    }

    /** `downloadParanavaiRegionCitiesWithIBGECodeDataset`: saves under its own
        file name but fetches the Paraná cities table. */
    method DownloadParanavaiRegionCitiesWithIBGECodeDataset(fs: FileSystem,
                                                            csvFileName: string := DefaultParanavaiRegionCitiesCsvFileName,
                                                            dirToSave: string := "", overwrite: bool := false)
      returns (r: Result<string, DownloadError>)
      modifies fs
      ensures var o := DownloadOutcome(old(fs.State()), datasetsDir, ParanaCitiesUrl(),
                                       EffectiveDir(dirToSave, datasetsDir), csvFileName, overwrite);
        fs.State() == o.fs && r == o.result
    {
      var dir := if dirToSave != "" then dirToSave else GetDatasetsDir();
      var url := ParanavaiRegionCitiesUrl();
      r := DownloadDataset(fs, url, dir, csvFileName, overwrite);
    }
  }

  /** Two Paraná downloads on the initial class state, the first with an
      explicit date: the stored URL is fixed by the first one, so the second
      fetches from the same URL whatever date it is given. */
  method ParanaUrlFixedByFirstDownload(fs: FileSystem, now: DateTime,
                                       d: string, m: string, y: string, laterDate: string)
    returns (first: string, second: string)
    requires Valid(now)
    requires '/' !in d && '/' !in m && '/' !in y
    requires '#' !in d && '#' !in m && '#' !in y
    modifies fs
    ensures first == ParanaPrefix + (y + "-" + m) + ParanaMiddle + (d + "_" + m + "_" + y) + ParanaSuffix
    ensures second == first
  {
    var fetcher := new DownloadCovidDatasets();
    ExplicitDate(d, m, y, now);
    var ym, td := y + "-" + m, d + "_" + m + "_" + y;
    FillParanaTemplate(ym, td);
    var r1 := fetcher.DownloadParanaDataset(fs, now, tDate := d + "/" + m + "/" + y);
    first := fetcher.GetUrlParanaDataset();
    ParanaTemplateConsumedOnce(ym, td, "", "");
    MarkerFreeUnchanged(first, "");
    var r2 := fetcher.DownloadParanaDataset(fs, now, tDate := laterDate);
    if ResolveParanaDate(laterDate, now).Ok? {
      var f := ResolveParanaDate(laterDate, now).value;
      FillParanaConsumed(first, f.yearAndMonth, f.targetDate);
    }
    second := fetcher.GetUrlParanaDataset();
  }
}
