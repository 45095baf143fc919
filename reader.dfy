/** The reader object: it holds the path of the review file, the records
    read from it, the last completion and the prompt template, and runs the
    pipeline read, request, format, write. */
module Reader {
  import opened Common
  import opened Records
  import opened Scores
  import opened Sorting
  import opened Ranking
  import opened Request
  import opened Report

  class CSVReader {
    /** The location of the review file. */
    var path: string
    /** The records of the file, in the order the pipeline leaves them. */
    var data: array<Record>
    /** The content of the completion's first choice, once a request succeeded. */
    var response: Option<string>
    /** The template the `[email, review text]` pairs are appended to. */
    var prompt: string

    /** A reader for `path`: no records, no response, the default prompt. */
    constructor (path: string)
      ensures this.path == path && data.Length == 0 && response == None && prompt == DefaultPrompt
    {
      this.path := path;
      data := new Record[0];
      response := None;
      prompt := DefaultPrompt;
    }

    /** `set_prompt` and the `prompt` setter: the template is replaced and
        nothing else changes. */
    method SetPrompt(p: string)
      modifies this`prompt
      ensures prompt == p
    {
      prompt := p;
    }

    /** The read step, given what opening the file yields: the parsed records,
        or None when the file does not exist. A missing file is reported and
        ignored, so the records stay what they were (none, on a new reader). */
    method ReadReviewFile(file: Option<seq<Record>>)
      modifies this`data
      ensures file.Some? ==> fresh(data) && data[..] == file.value
      ensures file.None? ==> data == old(data)
    {
      match file
      case None =>
      case Some(recs) =>
        data := new Record[|recs|](i requires 0 <= i < |recs| => recs[i]);
    }

    /** The request step, given the completion `reply` the service returns for
        the prompt: the prompt it sends, or the error it raises before sending.
        The response is stored only when the request is made. */
    method CallOpenAI(reply: string) returns (r: Result<string>)
      modifies this`response
      ensures r == BuildPrompt(prompt, data[..])
      ensures response == if r.Success? then Some(reply) else old(response)
    {
      r := BuildPrompt(prompt, data[..]);
      if r.Success? {
        response := Some(reply);
      }
    }

    /** The merge loop: each record in turn gets its score as `rate`; the
        first record without an e-mail raises a KeyError and ends the loop. */
    method MergeRates(table: ScoreTable) returns (r: Outcome)
      modifies data
      ensures data[..] == Merged(old(data[..]), table)
      ensures r.Done? <==> FirstWithoutEmail(old(data[..])) == data.Length
      ensures r.Raised? ==> r.error == KeyError("email")
    {
      ghost var s := data[..];
      ghost var m := Merged(s, table);
      var i := 0;
      assert s[..0] == [] && s[0..] == s;
      while i < data.Length
        invariant 0 <= i <= data.Length == |s| && i <= FirstWithoutEmail(s)
        invariant data[..] == m[..i] + s[i..]
      {
        ghost var before := data[..];
        Advance(before, m[..i], s[i..], data[i]);
        if "email" !in data[i].vals {
          MergeStops(s, table, i);
          assert data[..] == m;
          return Raised(KeyError("email"));
        }
        var rated := Rated(data[i], table);
        data[i] := rated;
        assert data[..] == before[i := rated];
        MergeAdvance(s, table, i, before);
        i := i + 1;
      }
      assert data[..] == m by { assert s[i..] == [] && m[..i] == m; }
      return Done;
    }

    /** The sort, as an insertion sort in place: each record moves down past
        the records of strictly lower rate, so equal rates keep their order.
        The result is the list the stable sort by descending rate gives. */
    method SortByRate()
      requires AllRated(data[..])
      modifies data
      ensures data[..] == Ranking.SortByRate(old(data[..]))
      ensures multiset(data[..]) == multiset(old(data[..]))
      ensures RatesDescend(data[..])
    {
      ghost var s := data[..];
      InsertionSort(data, SortKey);
      SortByRateSpec(s);
    }

    /** The format step: parse the stored response, merge, sort. */
    method FormatData() returns (r: Outcome)
      modifies data
      ensures (r, data[..]) == Formatted(response, old(data[..]))
    {
      ghost var s := data[..];
      ghost var f := Formatted(response, s);
      if response.None? {
        assert f == (Raised(NoResponse), s) by { FormattedErrors(response, s); }
        return Raised(NoResponse);
      }
      var t := ParseResponse(response.value);
      if t.Failure? {
        assert f == (Raised(t.error), s) by { FormattedErrors(response, s); }
        return Raised(t.error);
      }
      r := MergeRates(t.value);
      if r.Raised? {
        assert f == (Raised(KeyError("email")), Merged(s, t.value)) by { FormattedErrors(response, s); }
      } else {
        assert f == (Done, Ranking.SortByRate(Merged(s, t.value))) by { FormattedErrors(response, s); }
        MergedRated(s, t.value);
        SortByRate();
      }
    }

    /** The write step: the sheet handed to the CSV writer. */
    method WriteReviewFile() returns (r: Result<Sheet>)
      ensures r == Output(path, data[..])
    {
      r := Output(path, data[..]);
    }

    /** `make_estimation`: read, request, format, write, stopping at the first
        error. `file` is what opening the review file yields and `reply` the
        completion the service returns. */
    method MakeEstimation(file: Option<seq<Record>>, reply: string) returns (r: Result<Sheet>)
      modifies this, data
      ensures r == Estimation(old(path), old(prompt), old(data[..]), file, reply)
      ensures path == old(path) && prompt == old(prompt)
      ensures var recs := if file.Some? then file.value else old(data[..]);
              var sent := BuildPrompt(old(prompt), recs).Success?;
              && response == (if sent then Some(reply) else old(response))
              && data[..] == (if sent then Formatted(Some(reply), recs).1 else recs)
    {
      ReadReviewFile(file);
      var sent := CallOpenAI(reply);
      if sent.Failure? {
        return Failure(sent.error);
      }
      var f := FormatData();
      if f.Raised? {
        return Failure(f.error);
      }
      r := WriteReviewFile();
    }
  }

  /** The whole pipeline on the reader's path, template and records: the
      sheet it writes, or the error that stops it. */
  function Estimation(path: string, template: string, s: seq<Record>,
                      file: Option<seq<Record>>, reply: string): Result<Sheet>
  {
    var recs := if file.Some? then file.value else s;
    match BuildPrompt(template, recs)
    case Failure(e) => Failure(e)
    case Success(_) =>
      var f := Formatted(Some(reply), recs);
      if f.0.Raised? then Failure(f.0.error) else Output(path, f.1)
  }

  /** An empty file, or a missing file on a reader that holds no records,
      stops the pipeline with "No data to send" before any request. */
  lemma NoDataNoRequest(path: string, template: string, s: seq<Record>,
                        file: Option<seq<Record>>, reply: string)
    requires file == Some([]) || (file == None && s == [])
    ensures Estimation(path, template, s, file, reply) == Failure(NoDataToSend)
  {
  }

  /** A file whose records all have the columns `ks`, among them `email` and
      `review text`, and a completion that parses give one sheet: the one for
      the merged records sorted by descending rate, all of which have the
      file's columns plus `rate` (so OutputAligned lines every row up with
      the header). */
  lemma EstimationSheet(path: string, template: string, recs: seq<Record>,
                        reply: string, table: ScoreTable, ks: seq<string>)
    requires recs != [] && Columns(recs, ks) && forall i :: 0 <= i < |recs| ==> recs[i].Valid()
    requires "email" in ks && "review text" in ks
    requires Table(reply) == Success(table)
    ensures Estimation(path, template, [], Some(recs), reply) == Output(path, Formatted(Some(reply), recs).1)
    ensures Columns(Formatted(Some(reply), recs).1, WithRate(ks))
  {
    forall i | 0 <= i < |recs| ensures "email" in recs[i].vals && "review text" in recs[i].vals {
      assert recs[i].keys == ks;
    }
    assert FirstWithoutEmail(recs) == |recs|;
    var m := Merged(recs, table);
    MergedColumns(recs, table, ks);
    SortedColumns(m, WithRate(ks));
    FormattedSpec(reply, recs, table);
  }
}
