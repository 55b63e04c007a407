/** The pure parts of `main`: the default output file names and the rows of
    the two CSV files. */
module Output {

  import opened Wrappers
  import opened Text

  /** The literal defaults of `--output` and `--failed`; only these are
      replaced by date-stamped names. */
  const DefaultSuffix: string := "-from_date-to_date.csv"
  const OutputStem: string := "output"
  const FailedStem: string := "failed"
  const OutputDefault: string := OutputStem + DefaultSuffix
  const FailedDefault: string := FailedStem + DefaultSuffix
  const BioprojectUrlBase: string := "https://www.ncbi.nlm.nih.gov/bioproject/"
  const Header: seq<string> := ["study_id", "desc", "url"]

  /** `s` ends with `suffix`. */
  predicate EndsWith(s: string, suffix: string) {
    |suffix| <= |s| && s[|s| - |suffix|..] == suffix
  }

  /** `f"{stem}-{from_date.replace('/', '-')}-{to_date.replace('/', '-')}.csv"`
      when `path` is the literal default `{stem}-from_date-to_date.csv`;
      otherwise `path` unchanged. */
  function FileName(path: string, stem: string, fromDate: string, toDate: string): (name: string)
    ensures path != stem + DefaultSuffix ==> name == path
    ensures path == stem + DefaultSuffix ==>
      && |name| == |stem| + |fromDate| + |toDate| + 6
      && StartsWith(name, stem + "-")
      && (forall i :: 0 <= i < |fromDate| ==>
            name[|stem| + 1 + i] == (if fromDate[i] == '/' then '-' else fromDate[i]))
      && name[|stem| + 1 + |fromDate|] == '-'
      && (forall i :: 0 <= i < |toDate| ==>
            name[|stem| + |fromDate| + 2 + i] == (if toDate[i] == '/' then '-' else toDate[i]))
      && EndsWith(name, ".csv")
      && ('/' !in stem ==> '/' !in name)
  {
    if path == stem + DefaultSuffix then
      var name := stem + "-" + ReplaceChar(fromDate, '/', '-') + "-" + ReplaceChar(toDate, '/', '-') + ".csv";
      assert name[..|stem| + 1] == stem + "-";
      name
    else
      path
  }

  function OutputFileName(path: string, fromDate: string, toDate: string): string {
    FileName(path, OutputStem, fromDate, toDate)
  }

  function FailedFileName(path: string, fromDate: string, toDate: string): string {
    FileName(path, FailedStem, fromDate, toDate)
  }

  /** The default names hold no `/`, so they name a file in the working
      directory whatever the dates. */
  lemma DefaultNamesStayLocal(fromDate: string, toDate: string)
    ensures '/' !in OutputFileName(OutputDefault, fromDate, toDate)
    ensures '/' !in FailedFileName(FailedDefault, fromDate, toDate)
  {
  }

  /** `[key, value, f"https://www.ncbi.nlm.nih.gov/bioproject/{key}"]`: a row
      under the header's three columns whose URL reads back as the study id. */
  function ResultRow(key: string, value: string): (row: seq<string>)
    ensures |row| == |Header|
    ensures row[0] == key && row[1] == value
    ensures StartsWith(row[2], BioprojectUrlBase) && row[2][|BioprojectUrlBase|..] == key
  {
    [key, value, BioprojectUrlBase + key]
  }

  /** Different studies get different URLs, whatever their abstract lines. */
  lemma ResultUrlsDistinct(key1: string, value1: string, key2: string, value2: string)
    requires key1 != key2
    ensures ResultRow(key1, value1)[2] != ResultRow(key2, value2)[2]
  {
  }

  /** The rows written for a map, one per entry, in no particular order
      (the script writes them in dictionary order). */
  method Rows(m: map<string, string>, row: (string, string) -> seq<string>) returns (rows: seq<seq<string>>)
    ensures |rows| == |m|
    ensures forall i :: 0 <= i < |rows| ==> exists key :: key in m && rows[i] == row(key, m[key])
    ensures forall key :: key in m ==> exists i :: 0 <= i < |rows| && rows[i] == row(key, m[key])
  {
    var pending := m.Keys;
    rows := [];
    while pending != {}
      invariant pending <= m.Keys
      invariant |rows| + |pending| == |m|
      invariant forall i :: 0 <= i < |rows| ==> exists key :: key in m && rows[i] == row(key, m[key])
      invariant forall key :: key in m && key !in pending ==> exists i :: 0 <= i < |rows| && rows[i] == row(key, m[key])
      decreases pending
    {
      var key :| key in pending;
      var before := rows;
      rows := rows + [row(key, m[key])];
      pending := pending - {key};
      assert forall i :: 0 <= i < |before| ==> rows[i] == before[i];
      assert rows[|before|] == row(key, m[key]);
    }
  }

  /** The result file: the header, then one row per accession. */
  method ResultTable(accessions: map<string, string>) returns (table: seq<seq<string>>)
    ensures |table| == |accessions| + 1 && table[0] == Header
    ensures forall i :: 1 <= i < |table| ==>
      exists key :: key in accessions && table[i] == [key, accessions[key], BioprojectUrlBase + key]
    ensures forall key :: key in accessions ==>
      exists i :: 1 <= i < |table| && table[i] == [key, accessions[key], BioprojectUrlBase + key]
  {
    var rows := Rows(accessions, ResultRow);
    table := [Header] + rows;
    forall i | 1 <= i < |table|
      ensures exists key :: key in accessions && table[i] == [key, accessions[key], BioprojectUrlBase + key]
    {
      var key :| key in accessions && rows[i - 1] == ResultRow(key, accessions[key]);
      assert table[i] == rows[i - 1];
    }
    forall key | key in accessions
      ensures exists i :: 1 <= i < |table| && table[i] == [key, accessions[key], BioprojectUrlBase + key]
    {
      var i :| 0 <= i < |rows| && rows[i] == ResultRow(key, accessions[key]);
      assert table[i + 1] == rows[i];
    }
  }

  /** The failure file: written only when something failed, one row per
      failed identifier, no header. */
  method FailureTable(failed: map<string, string>) returns (table: Option<seq<seq<string>>>)
    ensures table.None? <==> |failed| == 0
    ensures table.Some? ==> |table.value| == |failed|
    ensures table.Some? ==> forall i :: 0 <= i < |table.value| ==>
      exists id :: id in failed && table.value[i] == [id, failed[id]]
    ensures table.Some? ==> forall id :: id in failed ==>
      exists i :: 0 <= i < |table.value| && table.value[i] == [id, failed[id]]
  {
    if |failed| == 0 {
      return None;
    }
    var rows := Rows(failed, (id: string, diagnostic: string) => [id, diagnostic]);
    table := Some(rows);
  }
}
