/** The request step: the guard against an empty record list and the prompt
    that is sent, the template followed by the `[email, review text]` pairs. */
module Request {
  import opened Common
  import opened Records
  import opened Text

  /** The class-level prompt a new reader starts with. */
  const DefaultPrompt: string :=
    "subject: estimate 10 reviews by their happiness level from 1 to 10,\n"
    + "    output format: no numeration, email - happiness level, higher estimation goes first\n"
    + "    "

  /** `[data['email'], data['review text']]`: the two cells of a record the
      completion sees, or the KeyError of the first missing column. */
  function ReviewPair(r: Record): (p: Result<(Value, Value)>)
    ensures p.Success? <==> "email" in r.vals && "review text" in r.vals
    ensures p.Success? ==> p.value == (r.vals["email"], r.vals["review text"])
    ensures p.Failure? ==> p.error == KeyError(if "email" in r.vals then "review text" else "email")
  {
    if "email" !in r.vals then Failure(KeyError("email"))
    else if "review text" !in r.vals then Failure(KeyError("review text"))
    else Success((r.vals["email"], r.vals["review text"]))
  }

  /** The pair step reads nothing but the two columns: records that agree on
      them give the same pair, or the same KeyError. */
  lemma ReviewPairColumns(a: Record, b: Record)
    requires Get(a, "email") == Get(b, "email")
    requires Get(a, "review text") == Get(b, "review text")
    ensures ReviewPair(a) == ReviewPair(b)
  {
  }

  /** The pair step of every record, in record order. */
  function PairSteps(recs: seq<Record>): (steps: seq<Result<(Value, Value)>>)
    ensures |steps| == |recs|
    ensures forall i :: 0 <= i < |recs| ==> steps[i] == ReviewPair(recs[i])
  {
    seq(|recs|, i requires 0 <= i < |recs| => ReviewPair(recs[i]))
  }

  /** Python's `repr` of a cell, single-quoted strings without escaping. */
  function Repr(v: Value): string {
    match v
    case Str(s) => "'" + s + "'"
    case Int(n) => ShowInt(n)
  }

  function PairRepr(p: (Value, Value)): string {
    "[" + Repr(p.0) + ", " + Repr(p.1) + "]"
  }

  /** The items of a list display, separated by ", ". */
  function Items(ps: seq<(Value, Value)>): string
    decreases |ps|
  {
    if ps == [] then ""
    else if |ps| == 1 then PairRepr(ps[0])
    else Items(ps[..|ps| - 1]) + ", " + PairRepr(ps[|ps| - 1])
  }

  /** `str(pairs)`: the list display of the pairs. */
  function ListRepr(ps: seq<(Value, Value)>): (s: string)
    ensures |s| >= 2 && s[0] == '[' && s[|s| - 1] == ']'
  {
    "[" + Items(ps) + "]"
  }

  /** The lines of `__call_openai` before the request: no records is the
      explicit "No data to send"; a record without one of the two columns is
      a KeyError; otherwise the prompt is the template followed by the pairs. */
  function BuildPrompt(template: string, recs: seq<Record>): (r: Result<string>)
    ensures r == Failure(NoDataToSend) <==> recs == []
    ensures r.Success? <==>
      recs != [] && forall i :: 0 <= i < |recs| ==> "email" in recs[i].vals && "review text" in recs[i].vals
    ensures r.Success? ==> |template| < |r.value| && r.value[..|template|] == template
    ensures forall j :: 0 <= j < |recs| && ReviewPair(recs[j]).Failure?
                        && (forall i :: 0 <= i < j ==> ReviewPair(recs[i]).Success?)
                        ==> r == Failure(ReviewPair(recs[j]).error)
  {
    if recs == [] then Failure(NoDataToSend)
    else
      match Collect(PairSteps(recs))
      case Failure(e) =>
        CollectFailure(PairSteps(recs));
        Failure(e)
      case Success(ps) => Success(template + ListRepr(ps))
  }

  /** The pairs the prompt lists, in record order. */
  function Pairs(recs: seq<Record>): (ps: seq<(Value, Value)>)
    requires forall i :: 0 <= i < |recs| ==> "email" in recs[i].vals && "review text" in recs[i].vals
    ensures |ps| == |recs|
  {
    seq(|recs|, i requires 0 <= i < |recs| => (recs[i].vals["email"], recs[i].vals["review text"]))
  }

  /** When every record has both columns, the prompt is exactly the template
      followed by the display of the `[email, review text]` pairs in record order. */
  lemma PromptText(template: string, recs: seq<Record>)
    requires recs != []
    requires forall i :: 0 <= i < |recs| ==> "email" in recs[i].vals && "review text" in recs[i].vals
    ensures BuildPrompt(template, recs) == Success(template + ListRepr(Pairs(recs)))
  {
    var steps := PairSteps(recs);
    var c := Collect(steps);
    assert c.Success?;
    assert forall i :: 0 <= i < |recs| ==> c.value[i] == Pairs(recs)[i];
    assert c.value == Pairs(recs);
  }

  /** Only the two columns reach the completion: record lists that agree on
      `email` and `review text` give the same prompt (or the same error). */
  lemma PromptIgnoresOtherColumns(template: string, a: seq<Record>, b: seq<Record>)
    requires |a| == |b|
    requires forall i :: 0 <= i < |a| ==> Get(a[i], "email") == Get(b[i], "email")
    requires forall i :: 0 <= i < |a| ==> Get(a[i], "review text") == Get(b[i], "review text")
    ensures BuildPrompt(template, a) == BuildPrompt(template, b)
  {
    forall i | 0 <= i < |a| ensures ReviewPair(a[i]) == ReviewPair(b[i]) {
      ReviewPairColumns(a[i], b[i]);
    }
    assert PairSteps(a) == PairSteps(b);
  }

  /** The number of occurrences of `c` in `s`. */
  function Count(s: string, c: char): nat {
    if s == [] then 0 else Count(s[..|s| - 1], c) + (if s[|s| - 1] == c then 1 else 0)
  }

  lemma {:induction false} CountAppend(s: string, t: string, c: char)
    ensures Count(s + t, c) == Count(s, c) + Count(t, c)
    decreases |t|
  {
    if t == [] {
      assert s + t == s;
    } else {
      var t' := t[..|t| - 1];
      assert (s + t)[..|s + t| - 1] == s + t';
      CountAppend(s, t', c);
    }
  }

  /** A cell without brackets. */
  predicate Plain(v: Value) {
    v.Str? ==> forall k :: 0 <= k < |v.s| ==> v.s[k] != '['
  }

  lemma PlainRepr(v: Value)
    requires Plain(v)
    ensures Count(Repr(v), '[') == 0
  {
    match v
    case Str(s) =>
      CountAppend("'", s, '[');
      CountAppend("'" + s, "'", '[');
      NoBracket(s);
    case Int(n) =>
      NoBracket(ShowInt(n));
  }

  lemma {:induction false} NoBracket(s: string)
    requires forall k :: 0 <= k < |s| ==> s[k] != '['
    ensures Count(s, '[') == 0
  {
    if s != [] {
      NoBracket(s[..|s| - 1]);
    }
  }

  /** With cells free of brackets, the items hold exactly one opening
      bracket per pair: each record appears once in the display, so lists of
      different lengths never give the same prompt. */
  lemma {:induction false} ItemsBrackets(ps: seq<(Value, Value)>)
    requires forall i :: 0 <= i < |ps| ==> Plain(ps[i].0) && Plain(ps[i].1)
    ensures Count(Items(ps), '[') == |ps|
    decreases |ps|
  {
    if ps != [] {
      var p := ps[|ps| - 1];
      PlainRepr(p.0);
      PlainRepr(p.1);
      CountAppend("[", Repr(p.0), '[');
      CountAppend("[" + Repr(p.0), ", ", '[');
      CountAppend("[" + Repr(p.0) + ", ", Repr(p.1), '[');
      CountAppend("[" + Repr(p.0) + ", " + Repr(p.1), "]", '[');
      assert Count(PairRepr(p), '[') == 1;
      if |ps| > 1 {
        ItemsBrackets(ps[..|ps| - 1]);
        CountAppend(Items(ps[..|ps| - 1]), ", ", '[');
        CountAppend(Items(ps[..|ps| - 1]) + ", ", PairRepr(p), '[');
      }
    }
  }
}
