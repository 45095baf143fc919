/** The write step up to the file itself: the output path, the header and
    the rows the CSV writer receives. */
module Report {
  import opened Common
  import opened Records
  import opened Text
  import opened Scores
  import opened Sorting
  import opened Ranking

  const Suffix: string := "_analyzed.csv"

  /** `path[:-4] + '_analyzed.csv'`: the path without its last four
      characters (all of it when it is shorter), then the suffix. */
  function OutputPath(path: string): (r: string)
    ensures |r| == |Suffix| + (if |path| >= 4 then |path| - 4 else 0)
    ensures r[..|r| - |Suffix|] == path[..|r| - |Suffix|]
    ensures r[|r| - |Suffix|..] == Suffix
  {
    (if |path| >= 4 then path[..|path| - 4] else []) + Suffix
  }

  /** A `.csv` input is written next to itself with `_analyzed` before the extension. */
  lemma OutputPathOfCsv(stem: string)
    ensures OutputPath(stem + ".csv") == stem + Suffix
  {
    assert (stem + ".csv")[..|stem|] == stem;
  }

  /** A path of fewer than four characters loses all of them. */
  lemma OutputPathShort(path: string)
    requires |path| < 4
    ensures OutputPath(path) == Suffix
  {
    assert [] + Suffix == Suffix;
  }

  /** The text the CSV writer puts in a cell: `str` of the value. */
  function Render(v: Value): string {
    match v
    case Str(s) => s
    case Int(n) => ShowInt(n)
  }

  /** A rendered rate reads back as the same integer. */
  lemma RenderRate(n: int)
    ensures ParseInt(Render(Int(n))) == Some(n)
  {
    ParseShow(n);
  }

  /** What is written: the target path, the header row and the data rows. */
  datatype Sheet = Sheet(path: string, header: seq<string>, rows: seq<seq<string>>)

  /** `list(line.values())`, rendered. */
  function Row(r: Record): (row: seq<string>)
    ensures |row| == |r.keys|
    ensures forall j :: 0 <= j < |row| ==> row[j] == Render(At(r, r.keys[j]))
  {
    var vs := Values(r);
    seq(|vs|, j requires 0 <= j < |vs| => Render(vs[j]))
  }

  /** The write step: `data[0]` fails on an empty list; otherwise the header
      is the first record's keys and each record gives one row of its values
      in its own key order, so a row lines up with the header exactly when
      the record has the same keys in the same order. */
  function Output(path: string, recs: seq<Record>): (r: Result<Sheet>)
    ensures r.Failure? <==> recs == []
    ensures r.Failure? ==> r.error == EmptyIndex
    ensures r.Success? ==> r.value.path == OutputPath(path) && r.value.header == recs[0].keys
    ensures r.Success? ==> |r.value.rows| == |recs|
    ensures r.Success? ==> forall i :: 0 <= i < |recs| ==> |r.value.rows[i]| == |recs[i].keys|
    ensures r.Success? ==> forall i, j :: 0 <= i < |recs| && recs[i].keys == r.value.header && 0 <= j < |r.value.header|
                                         ==> r.value.rows[i][j] == Render(At(recs[i], r.value.header[j]))
    ensures r.Success? ==> forall i, j :: 0 <= i < |recs| && 0 <= j < |recs[i].keys|
                                         ==> r.value.rows[i][j] == Render(At(recs[i], recs[i].keys[j]))
  {
    if recs == [] then Failure(EmptyIndex)
    else Success(Sheet(OutputPath(path), recs[0].keys, seq(|recs|, i requires 0 <= i < |recs| => Row(recs[i]))))
  }

  // --------------------------------------------------------------- columns

  /** Every record has the keys `ks`, in that order (as `csv.DictReader`
      produces them: the header of the file). */
  predicate Columns(s: seq<Record>, ks: seq<string>) {
    forall i :: 0 <= i < |s| ==> s[i].keys == ks
  }

  /** The columns after the merge: `rate` is added last unless it is already a column. */
  function WithRate(ks: seq<string>): seq<string> {
    if "rate" in ks then ks else ks + ["rate"]
  }

  /** A completed merge gives every record the same new column set. */
  lemma MergedColumns(s: seq<Record>, table: ScoreTable, ks: seq<string>)
    requires Columns(s, ks) && forall i :: 0 <= i < |s| ==> s[i].Valid()
    requires FirstWithoutEmail(s) == |s|
    ensures Columns(Merged(s, table), WithRate(ks))
  {
    var m := Merged(s, table);
    forall i | 0 <= i < |s| ensures m[i].keys == WithRate(ks) {
      MergedAt(s, table, i);
      assert "rate" in s[i].vals <==> "rate" in ks;
    }
  }

  /** Sorting keeps the column set of every record. */
  lemma SortedColumns(s: seq<Record>, ks: seq<string>)
    requires Columns(s, ks)
    ensures Columns(SortByRate(s), ks)
  {
    var t := SortByRate(s);
    SortByRateSpec(s);
    forall i | 0 <= i < |t| ensures t[i].keys == ks {
      assert t[i] in multiset(s);
      var k :| 0 <= k < |s| && s[k] == t[i];
    }
  }

  /** Records that share their columns give a sheet whose header is those
      columns and whose row i holds record i's cells in header order. */
  lemma OutputAligned(path: string, t: seq<Record>, ks: seq<string>)
    requires t != [] && Columns(t, ks)
    ensures Output(path, t).Success?
    ensures Output(path, t).value.header == ks
    ensures forall i, j :: 0 <= i < |t| && 0 <= j < |ks| ==>
              Output(path, t).value.rows[i][j] == Render(At(t[i], ks[j]))
  {
  }
}

