/** The response parser: the completion text becomes a table from
    identifier (the e-mail of a review) to integer score. */
module Scores {
  import opened Common
  import opened Text

  type ScoreTable = map<string, int>

  /** The lines of the completion: every "- " removed, the whole text
      stripped, then split on '\n'. */
  function Lines(content: string): (ls: seq<string>)
    ensures |ls| >= 1
  {
    SplitOn(Strip(RemoveDashSpace(content)), '\n')
  }

  /** `key, value = line.split()` followed by `int(value)`: a line must have
      exactly two whitespace-separated tokens, the second an integer. */
  function ParseLine(line: string): (r: Result<(string, int)>)
    ensures r.Success? ==> IsWord(r.value.0) && !AllSpace(line)
    ensures r.Failure? ==> r.error.UnpackError? || r.error.IntError?
    ensures r.Success? ==> |Tokens(line)| == 2
    ensures r.Failure? && r.error.UnpackError? ==> r.error.got != 2
  {
    var ts := Tokens(line);
    if |ts| != 2 then Failure(UnpackError(|ts|))
    else match ParseInt(ts[1])
      case None => Failure(IntError(ts[1]))
      case Some(n) =>
        TokensEmpty(line);
        Success((ts[0], n))
  }

  /** The pairs of all lines, in order, or the error of the first line that
      does not parse (the loop stops there). */
  function ParseLines(ls: seq<string>): Result<seq<(string, int)>> {
    Collect(seq(|ls|, i requires 0 <= i < |ls| => ParseLine(ls[i])))
  }

  /** The `estimation` dict built from the pairs in order: a later pair for
      the same identifier overwrites an earlier one. */
  function TableOf(ps: seq<(string, int)>): (t: ScoreTable)
    ensures forall k :: k in t <==> exists i :: 0 <= i < |ps| && ps[i].0 == k
    ensures forall i :: 0 <= i < |ps| && (forall j :: i < j < |ps| ==> ps[j].0 != ps[i].0) ==> t[ps[i].0] == ps[i].1
  {
    if ps == [] then map[]
    else
      var init := ps[..|ps| - 1];
      var last := ps[|ps| - 1];
      assert ps == init + [last];
      TableStep(init, last, TableOf(init));
      TableOf(init)[last.0 := last.1]
  }

  /** Adding one more pair to the dict keeps the two facts TableOf states. */
  lemma TableStep(init: seq<(string, int)>, last: (string, int), t: ScoreTable)
    requires forall k :: k in t <==> exists i :: 0 <= i < |init| && init[i].0 == k
    requires forall i :: 0 <= i < |init| && (forall j :: i < j < |init| ==> init[j].0 != init[i].0) ==> t[init[i].0] == init[i].1
    ensures var ps, t' := init + [last], t[last.0 := last.1];
      && (forall k :: k in t' <==> exists i :: 0 <= i < |ps| && ps[i].0 == k)
      && (forall i :: 0 <= i < |ps| && (forall j :: i < j < |ps| ==> ps[j].0 != ps[i].0) ==> t'[ps[i].0] == ps[i].1)
  {
    var ps, t' := init + [last], t[last.0 := last.1];
    forall k ensures k in t' <==> exists i :: 0 <= i < |ps| && ps[i].0 == k {
      if k in t && k != last.0 {
        var i :| 0 <= i < |init| && init[i].0 == k;
        assert ps[i] == init[i];
      }
      if exists i :: 0 <= i < |ps| && ps[i].0 == k {
        var i :| 0 <= i < |ps| && ps[i].0 == k;
        if i < |init| {
          assert ps[i] == init[i];
        }
      }
    }
    forall i | 0 <= i < |ps| && (forall j :: i < j < |ps| ==> ps[j].0 != ps[i].0) ensures t'[ps[i].0] == ps[i].1 {
      if i < |init| {
        assert ps[i] == init[i];
        forall j | i < j < |init| ensures init[j].0 != init[i].0 {
          assert ps[j] == init[j];
        }
        assert ps[|init|] == last;
      }
    }
  }

  /** The score table of a completion, or the error that stops the parse. */
  function Table(content: string): Result<ScoreTable> {
    match ParseLines(Lines(content))
    case Failure(e) => Failure(e)
    case Success(ps) => Success(TableOf(ps))
  }

  /** The parsing loop of the source: one line at a time into the dict. */
  method ParseResponse(content: string) returns (r: Result<ScoreTable>)
    ensures r == Table(content)
  {
    var lines := Lines(content);
    var estimation: ScoreTable := map[];
    ghost var pairs: seq<(string, int)> := [];
    var i := 0;
    while i < |lines|
      invariant 0 <= i <= |lines| && |pairs| == i
      invariant forall j :: 0 <= j < i ==> ParseLine(lines[j]) == Success(pairs[j])
      invariant estimation == TableOf(pairs)
    {
      var parsed := ParseLine(lines[i]);
      if parsed.Failure? {
        TableFails(content, i);
        return Failure(parsed.error);
      }
      var (key, value) := parsed.value;
      TableSnoc(pairs, (key, value));
      estimation := estimation[key := value];
      pairs := pairs + [(key, value)];
      i := i + 1;
    }
    TableSucceeds(content, pairs);
    return Success(estimation);
  }

  /** One more pair is one more assignment to the dict. */
  lemma TableSnoc(ps: seq<(string, int)>, p: (string, int))
    ensures TableOf(ps + [p]) == TableOf(ps)[p.0 := p.1]
  {
    assert (ps + [p])[..|ps|] == ps;
  }

  /** The first line that does not parse decides the error of the whole parse. */
  lemma TableFails(content: string, i: int)
    requires 0 <= i < |Lines(content)|
    requires forall j :: 0 <= j < i ==> ParseLine(Lines(content)[j]).Success?
    requires ParseLine(Lines(content)[i]).Failure?
    ensures Table(content) == Failure(ParseLine(Lines(content)[i]).error)
  {
    var ls := Lines(content);
    var steps := seq(|ls|, k requires 0 <= k < |ls| => ParseLine(ls[k]));
    assert steps[i] == ParseLine(ls[i]);
    assert forall j :: 0 <= j < i ==> steps[j].Success?;
  }

  /** When every line parses, the table is that of all the pairs in order. */
  lemma TableSucceeds(content: string, ps: seq<(string, int)>)
    requires |ps| == |Lines(content)|
    requires forall j :: 0 <= j < |ps| ==> ParseLine(Lines(content)[j]) == Success(ps[j])
    ensures Table(content) == Success(TableOf(ps))
  {
    var ls := Lines(content);
    var steps := seq(|ls|, k requires 0 <= k < |ls| => ParseLine(ls[k]));
    assert forall j :: 0 <= j < |ls| ==> steps[j] == Success(ps[j]);
    CollectAll(steps, ps);
    assert ParseLines(ls) == Success(ps);
  }

  /** A line in the "identifier score" form parses to that pair. */
  lemma ParseLineFormat(k: string, n: int)
    requires IsWord(k)
    ensures ParseLine(k + " " + ShowInt(n)) == Success((k, n))
  {
    ShowIntWord(n);
    TokensCons(k, ' ', ShowInt(n));
    assert k + " " + ShowInt(n) == k + [' '] + ShowInt(n);
    TokensWord(ShowInt(n));
    ParseShow(n);
  }

  /** The parse of a line laid out as words between whitespace runs (see
      Text.Layout): it fails to unpack unless there are exactly two words, and
      it then yields the first word with the integer value of the second. */
  lemma ParseLineLayout(ws: seq<string>, gaps: seq<string>)
    requires Layout(ws, gaps)
    ensures |ws| != 2 ==> ParseLine(Spaced(ws, gaps)) == Failure(UnpackError(|ws|))
    ensures |ws| == 2 && ParseInt(ws[1]).None? ==> ParseLine(Spaced(ws, gaps)) == Failure(IntError(ws[1]))
    ensures |ws| == 2 && ParseInt(ws[1]).Some? ==>
      ParseLine(Spaced(ws, gaps)) == Success((ws[0], ParseInt(ws[1]).value))
  {
    TokensSpaced(ws, gaps);
  }

  /** A key and a printed integer parse back whatever whitespace surrounds and
      separates them: leading blanks, tabs, repeated spaces, a trailing '\r'. */
  lemma ParseLineSpacing(k: string, n: int, a: string, b: string, c: string)
    requires IsWord(k) && AllSpace(a) && AllSpace(b) && b != [] && AllSpace(c)
    ensures ParseLine(a + k + b + ShowInt(n) + c) == Success((k, n))
  {
    ShowIntWord(n);
    ParseShow(n);
    var ws, gaps := [k, ShowInt(n)], [a, b, c];
    SpacedPair(k, ShowInt(n), a, b, c);
    LayoutPair(k, ShowInt(n), a, b, c);
    ParseLineLayout(ws, gaps);
  }

  /** `"alice@x.org 7\r"`, the shape of a line with a Windows line ending. */
  lemma ParseLineCarriageReturn(k: string, n: int)
    requires IsWord(k)
    ensures ParseLine(k + " " + ShowInt(n) + "\r") == Success((k, n))
  {
    ParseLineSpacing(k, n, "", " ", "\r");
    assert "" + k == k;
  }

  /** An empty or blank line has nothing to unpack: the parse fails. */
  lemma ParseLineBlank(line: string)
    requires AllSpace(line)
    ensures ParseLine(line) == Failure(UnpackError(0))
  {
    TokensEmpty(line);
  }

  /** A line with three tokens has too many values to unpack: the parse fails. */
  lemma ParseLineThree(a: string, b: string, c: string)
    requires IsWord(a) && IsWord(b) && IsWord(c)
    ensures ParseLine(a + " " + b + " " + c) == Failure(UnpackError(3))
  {
    TokensCons(b, ' ', c);
    TokensWord(c);
    TokensCons(a, ' ', b + " " + c);
    assert a + " " + b + " " + c == a + [' '] + (b + [' '] + c);
  }

  /** A second token that is not an integer fails the parse. */
  lemma ParseLineNotInt(a: string, b: string)
    requires IsWord(a) && IsWord(b) && ParseInt(b).None?
    ensures ParseLine(a + " " + b) == Failure(IntError(b))
  {
    TokensCons(a, ' ', b);
    TokensWord(b);
    assert a + " " + b == a + [' '] + b;
  }

  /** The whole parse fails as soon as one line fails, and succeeds with the
      table of all pairs exactly when every line parses. */
  lemma TableCases(content: string)
    ensures Table(content).Success? <==> forall i :: 0 <= i < |Lines(content)| ==> ParseLine(Lines(content)[i]).Success?
    ensures Table(content).Success? ==> forall i :: 0 <= i < |Lines(content)| ==>
      ParseLine(Lines(content)[i]).value.0 in Table(content).value
  {
    var ls := Lines(content);
    var steps := seq(|ls|, i requires 0 <= i < |ls| => ParseLine(ls[i]));
    assert forall i :: 0 <= i < |ls| ==> steps[i] == ParseLine(ls[i]);
    if Table(content).Success? {
      var ps := ParseLines(ls).value;
      forall i | 0 <= i < |ls| ensures ParseLine(ls[i]).Success? && ParseLine(ls[i]).value.0 in Table(content).value {
        assert steps[i] == Success(ps[i]);
      }
    }
  }

  // ------------------------------------------- well-formed responses

  /** One "identifier score" line per review: the form a response in the
      prompt's format takes once its "- " separators are removed. */
  function FormatLines(ks: seq<string>, ns: seq<int>): (ls: seq<string>)
    requires |ks| == |ns|
    ensures |ls| == |ks|
  {
    seq(|ks|, i requires 0 <= i < |ks| => ks[i] + " " + ShowInt(ns[i]))
  }

  function Zip(ks: seq<string>, ns: seq<int>): (ps: seq<(string, int)>)
    requires |ks| == |ns|
    ensures |ps| == |ks| && forall i :: 0 <= i < |ks| ==> ps[i] == (ks[i], ns[i])
  {
    seq(|ks|, i requires 0 <= i < |ks| => (ks[i], ns[i]))
  }

  /** An identifier that can stand in a well-formed response line. */
  predicate IsIdentifier(k: string) {
    IsWord(k) && k[|k| - 1] != '-'
  }

  lemma {:induction false} LineUnchanged(k: string, n: int)
    requires IsIdentifier(k)
    ensures RemoveDashSpace(k + " " + ShowInt(n)) == k + " " + ShowInt(n)
  {
    var s := ShowInt(n);
    calc {
      RemoveDashSpace(k + " " + s);
      { assert k + " " + s == k + (" " + s); }
      RemoveDashSpace(k + (" " + s));
      { RemoveDashSpaceAppend(k, " " + s); }
      RemoveDashSpace(k) + RemoveDashSpace(" " + s);
      { RemoveDashSpaceNone(k); }
      k + RemoveDashSpace(" " + s);
      { assert !StartsWithDashSpace(" " + s) && (" " + s)[1..] == s; }
      k + ([' '] + RemoveDashSpace(s));
      { ShowIntWord(n); RemoveDashSpaceNone(s); }
      k + ([' '] + s);
      k + " " + s;
    }
  }

  lemma LineHasNoBreak(k: string, n: int)
    requires IsWord(k)
    ensures '\n' !in k + " " + ShowInt(n)
  {
    var s := ShowInt(n);
    var l := k + " " + s;
    ShowIntWord(n);
    forall p | 0 <= p < |l| ensures l[p] != '\n' {
      if p < |k| { assert l[p] == k[p]; }
      else if p > |k| { assert l[p] == s[p - |k| - 1]; }
    }
  }

  /** A formatted line starts with its identifier and ends with a digit. */
  lemma LineEnds(k: string, n: int)
    requires IsWord(k)
    ensures var l := k + " " + ShowInt(n); l != [] && !IsSpace(l[0]) && IsDigit(l[|l| - 1])
  {
    var l, s := k + " " + ShowInt(n), ShowInt(n);
    ShowIntWord(n);
    assert l[0] == k[0] && l[|l| - 1] == s[|s| - 1];
    if n < 0 { assert s[|s| - 1] == ShowNat(-n)[|ShowNat(-n)| - 1]; }
  }

  lemma JoinCons(ls: seq<string>, sep: char)
    requires |ls| > 1
    ensures JoinWith(ls, sep) == ls[0] + ([sep] + JoinWith(ls[1..], sep))
  {
  }

  /** A line ending in a digit, a line break and text without "- " contain no "- ". */
  lemma BreakUnchanged(first: string, rest: string)
    requires first != [] && IsDigit(first[|first| - 1]) && RemoveDashSpace(first) == first
    requires RemoveDashSpace(rest) == rest
    ensures RemoveDashSpace(first + ("\n" + rest)) == first + ("\n" + rest)
  {
    calc {
      RemoveDashSpace(first + ("\n" + rest));
      { RemoveDashSpaceAppend(first, "\n" + rest); }
      RemoveDashSpace(first) + RemoveDashSpace("\n" + rest);
      { assert !StartsWithDashSpace("\n" + rest) && ("\n" + rest)[1..] == rest; }
      first + (['\n'] + rest);
    }
  }

  /** A response line that starts with a non-space, ends with a digit and
      holds no "- ". */
  predicate CleanLine(l: string) {
    l != [] && !IsSpace(l[0]) && IsDigit(l[|l| - 1]) && RemoveDashSpace(l) == l
  }

  /** Clean lines joined by line breaks hold no "- " either, and the text
      neither starts nor ends with whitespace. */
  lemma {:induction false} JoinUnchanged(ls: seq<string>)
    requires |ls| >= 1
    requires forall i :: 0 <= i < |ls| ==> CleanLine(ls[i])
    ensures CleanLine(JoinWith(ls, '\n'))
  {
    if |ls| > 1 {
      var first, rest := ls[0], JoinWith(ls[1..], '\n');
      assert CleanLine(first);
      JoinUnchanged(ls[1..]);
      JoinCons(ls, '\n');
      BreakUnchanged(first, rest);
      var j := first + ("\n" + rest);
      assert j[0] == first[0] && j[|j| - 1] == rest[|rest| - 1];
    }
  }

  /** The lines of a well-formed response are exactly the formatted lines. */
  lemma ResponseLines(ks: seq<string>, ns: seq<int>)
    requires |ks| == |ns| >= 1
    requires forall i :: 0 <= i < |ks| ==> IsIdentifier(ks[i])
    ensures Lines(JoinWith(FormatLines(ks, ns), '\n')) == FormatLines(ks, ns)
  {
    var ls := FormatLines(ks, ns);
    FormattedClean(ks, ns);
    JoinUnchanged(ls);
    CleanLines(JoinWith(ls, '\n'));
    SplitJoin(ls, '\n');
  }

  /** Every formatted line is clean and holds no line break. */
  lemma FormattedClean(ks: seq<string>, ns: seq<int>)
    requires |ks| == |ns|
    requires forall i :: 0 <= i < |ks| ==> IsIdentifier(ks[i])
    ensures forall i :: 0 <= i < |ks| ==> CleanLine(FormatLines(ks, ns)[i]) && '\n' !in FormatLines(ks, ns)[i]
  {
    var ls := FormatLines(ks, ns);
    forall i | 0 <= i < |ls| ensures CleanLine(ls[i]) && '\n' !in ls[i] {
      LineUnchanged(ks[i], ns[i]);
      LineEnds(ks[i], ns[i]);
      LineHasNoBreak(ks[i], ns[i]);
    }
  }

  /** A clean text reaches the split unchanged. */
  lemma CleanLines(text: string)
    requires CleanLine(text)
    ensures Lines(text) == SplitOn(text, '\n')
  {
    calc {
      Lines(text);
      SplitOn(Strip(RemoveDashSpace(text)), '\n');
      SplitOn(Strip(text), '\n');
      { StripEnds([], text, []); assert [] + text + [] == text; }
      SplitOn(text, '\n');
    }
  }

  /** Every formatted line parses to its own pair. */
  lemma ParseFormatted(ks: seq<string>, ns: seq<int>)
    requires |ks| == |ns|
    requires forall i :: 0 <= i < |ks| ==> IsWord(ks[i])
    ensures ParseLines(FormatLines(ks, ns)) == Success(Zip(ks, ns))
  {
    var ls := FormatLines(ks, ns);
    var steps := seq(|ls|, i requires 0 <= i < |ls| => ParseLine(ls[i]));
    forall i | 0 <= i < |ls| ensures steps[i] == Success(Zip(ks, ns)[i]) {
      ParseLineFormat(ks[i], ns[i]);
    }
    assert ParseLines(ls).value == Zip(ks, ns);
  }

  /** Round trip of the response format: a completion of "identifier score"
      lines, with identifiers that have no whitespace and do not end
      in '-', parses to the table of its pairs (the last pair per identifier wins). */
  lemma FormattedResponse(ks: seq<string>, ns: seq<int>)
    requires |ks| == |ns| >= 1
    requires forall i :: 0 <= i < |ks| ==> IsIdentifier(ks[i])
    ensures Table(JoinWith(FormatLines(ks, ns), '\n')) == Success(TableOf(Zip(ks, ns)))
  {
    ResponseLines(ks, ns);
    ParseFormatted(ks, ns);
  }

  /** The response the default prompt asks for ("email - happiness level"):
      one "identifier - score" line per review. */
  function DashLines(ks: seq<string>, ns: seq<int>): (ls: seq<string>)
    requires |ks| == |ns|
    ensures |ls| == |ks|
  {
    seq(|ks|, i requires 0 <= i < |ks| => ks[i] + " - " + ShowInt(ns[i]))
  }

  /** Removing "- " turns an "identifier - score" line into the
      "identifier score" line. */
  lemma DashLine(k: string, n: int)
    requires IsIdentifier(k)
    ensures RemoveDashSpace(k + " - " + ShowInt(n)) == k + " " + ShowInt(n)
  {
    var s := ShowInt(n);
    ShowIntWord(n);
    calc {
      RemoveDashSpace(k + " - " + s);
      { assert k + " - " + s == (k + " ") + "- " + s; }
      RemoveDashSpace((k + " ") + "- " + s);
      { RemoveDashSpaceAnywhere(k + " ", s); }
      RemoveDashSpace(k + " ") + RemoveDashSpace(s);
      { RemoveDashSpaceAppend(k, " "); }
      RemoveDashSpace(k) + RemoveDashSpace(" ") + RemoveDashSpace(s);
      { RemoveDashSpaceNone(k); RemoveDashSpaceNone(" "); RemoveDashSpaceNone(s); }
      k + " " + s;
    }
  }

  /** Lines that end in neither '-' nor an empty string are cleaned one by
      one when they are joined by line breaks. */
  lemma {:induction false} RemoveDashSpaceJoin(ds: seq<string>, fs: seq<string>)
    requires |ds| == |fs| >= 1
    requires forall i :: 0 <= i < |ds| ==> ds[i] != [] && ds[i][|ds[i]| - 1] != '-' && RemoveDashSpace(ds[i]) == fs[i]
    ensures RemoveDashSpace(JoinWith(ds, '\n')) == JoinWith(fs, '\n')
  {
    if |ds| > 1 {
      var rest := JoinWith(ds[1..], '\n');
      RemoveDashSpaceJoin(ds[1..], fs[1..]);
      JoinCons(ds, '\n');
      JoinCons(fs, '\n');
      calc {
        RemoveDashSpace(JoinWith(ds, '\n'));
        RemoveDashSpace(ds[0] + ("\n" + rest));
        { RemoveDashSpaceAppend(ds[0], "\n" + rest); }
        RemoveDashSpace(ds[0]) + RemoveDashSpace("\n" + rest);
        { assert !StartsWithDashSpace("\n" + rest) && ("\n" + rest)[1..] == rest; }
        fs[0] + (['\n'] + RemoveDashSpace(rest));
        JoinWith(fs, '\n');
      }
    }
  }

  /** A response in the prompt's format loses exactly its separators: it
      becomes the response of "identifier score" lines. */
  lemma DashedText(ks: seq<string>, ns: seq<int>)
    requires |ks| == |ns| >= 1
    requires forall i :: 0 <= i < |ks| ==> IsIdentifier(ks[i])
    ensures RemoveDashSpace(JoinWith(DashLines(ks, ns), '\n')) == JoinWith(FormatLines(ks, ns), '\n')
  {
    var ds, fs := DashLines(ks, ns), FormatLines(ks, ns);
    forall i | 0 <= i < |ds| ensures ds[i] != [] && ds[i][|ds[i]| - 1] != '-' && RemoveDashSpace(ds[i]) == fs[i] {
      DashLine(ks[i], ns[i]);
      DashLineEnd(ks[i], ns[i]);
    }
    RemoveDashSpaceJoin(ds, fs);
  }

  lemma DashLineEnd(k: string, n: int)
    requires IsWord(k)
    ensures var l := k + " - " + ShowInt(n); IsDigit(l[|l| - 1])
  {
    LineEnds(k, n);
    var s := ShowInt(n);
    assert (k + " - " + s)[|k + " - " + s| - 1] == s[|s| - 1] == (k + " " + s)[|k + " " + s| - 1];
  }

  /** Round trip of the prompt's format: a completion of "identifier - score"
      lines, one per review, parses to the table of its pairs (the last pair
      per identifier wins). */
  lemma DashedResponse(ks: seq<string>, ns: seq<int>)
    requires |ks| == |ns| >= 1
    requires forall i :: 0 <= i < |ks| ==> IsIdentifier(ks[i])
    ensures Table(JoinWith(DashLines(ks, ns), '\n')) == Success(TableOf(Zip(ks, ns)))
  {
    var d, f := JoinWith(DashLines(ks, ns), '\n'), JoinWith(FormatLines(ks, ns), '\n');
    DashedText(ks, ns);
    FormattedClean(ks, ns);
    JoinUnchanged(FormatLines(ks, ns));
    assert Lines(d) == Lines(f);
    FormattedResponse(ks, ns);
  }

  /** The completion text of the two-review example: one "<e-mail> <score>"
      line per review, joined by newlines. */
  lemma ExampleFormat(content: string)
    requires content == "a@x.com 9\nb@x.com 2"
    ensures JoinWith(FormatLines(["a@x.com", "b@x.com"], [9, 2]), '\n') == content
  {
    var ks := ["a@x.com", "b@x.com"];
    var ls := FormatLines(ks, [9, 2]);
    assert ShowInt(9) == "9" && ShowInt(2) == "2";
    assert ls[0] == "a@x.com 9" by { assert ls[0] == ks[0] + " " + ShowInt(9); }
    assert ls[1] == "b@x.com 2" by { assert ls[1] == ks[1] + " " + ShowInt(2); }
    assert ls[1..] == [ls[1]];
    assert JoinWith(ls, '\n') == ls[0] + "\n" + ls[1];
    assert "a@x.com 9" + "\n" + "b@x.com 2" == content;
  }

  lemma ExampleTable()
    ensures TableOf(Zip(["a@x.com", "b@x.com"], [9, 2])) == map["a@x.com" := 9, "b@x.com" := 2]
  {
    var ps := Zip(["a@x.com", "b@x.com"], [9, 2]);
    assert ps == [("a@x.com", 9), ("b@x.com", 2)];
    assert ps[..1] == [("a@x.com", 9)] && ps[..1][..0] == [];
  }

  /** The two-review example: "a@x.com 9" and "b@x.com 2" give 9 and 2. */
  lemma TwoReviewsExample(content: string)
    requires content == "a@x.com 9\nb@x.com 2"
    ensures Table(content) == Success(map["a@x.com" := 9, "b@x.com" := 2])
  {
    var ks := ["a@x.com", "b@x.com"];
    assert IsIdentifier(ks[0]) && IsIdentifier(ks[1]);
    FormattedResponse(ks, [9, 2]);
    ExampleFormat(content);
    ExampleTable();
  }
  /** The two-review example as the default prompt asks for it:
      "a@x.com - 9" and "b@x.com - 2" give 9 and 2. */
  lemma TwoReviewsDashExample(content: string)
    requires content == "a@x.com - 9\nb@x.com - 2"
    ensures Table(content) == Success(map["a@x.com" := 9, "b@x.com" := 2])
  {
    var ks := ["a@x.com", "b@x.com"];
    var ls := DashLines(ks, [9, 2]);
    assert ShowInt(9) == "9" && ShowInt(2) == "2";
    assert ls[0] == "a@x.com - 9" by { assert ls[0] == ks[0] + " - " + ShowInt(9); }
    assert ls[1] == "b@x.com - 2" by { assert ls[1] == ks[1] + " - " + ShowInt(2); }
    assert ls[1..] == [ls[1]];
    assert JoinWith(ls, '\n') == ls[0] + "\n" + ls[1];
    assert "a@x.com - 9" + "\n" + "b@x.com - 2" == content;
    assert IsIdentifier(ks[0]) && IsIdentifier(ks[1]);
    DashedResponse(ks, [9, 2]);
    ExampleTable();
  }
}
