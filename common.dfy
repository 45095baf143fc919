/** Result types shared by the model, and the exceptions the reader can raise. */
module Common {

  datatype Option<T> = None | Some(value: T)

  datatype Result<T> = Success(value: T) | Failure(error: Error)

  /** The end of a step that returns nothing: it completed, or it raised. */
  datatype Outcome = Done | Raised(error: Error)

  /** The exception that ends a run of the pipeline. */
  datatype Error =
    | NoDataToSend              // the explicit `raise Exception('No data to send')`
    | KeyError(key: string)     // a record without the column that is looked up
    | UnpackError(got: nat)     // `key, value = line.split()` on a line with `got` != 2 tokens
    | IntError(literal: string) // `int(value)` on a token that is not an integer literal
    | NoResponse                // formatting before any completion arrived (the response is None)
    | EmptyIndex                // `data[0]` on an empty record list

  /** The values of a run of steps, or the error of the first step that
      fails (the steps after it never run). */
  function Collect<T>(rs: seq<Result<T>>): (r: Result<seq<T>>)
    ensures r.Success? <==> forall i :: 0 <= i < |rs| ==> rs[i].Success?
    ensures r.Success? ==> |r.value| == |rs| && forall i :: 0 <= i < |rs| ==> rs[i] == Success(r.value[i])
    ensures forall j :: (0 <= j < |rs| && rs[j].Failure? && (forall i :: 0 <= i < j ==> rs[i].Success?))
                        ==> r == Failure(rs[j].error)
  {
    if rs == [] then Success([])
    else
      var init := rs[..|rs| - 1];
      assert forall i :: 0 <= i < |init| ==> init[i] == rs[i];
      match Collect(init)
      case Failure(e) => Failure(e)
      case Success(vs) =>
        match rs[|rs| - 1]
        case Failure(e) => Failure(e)
        case Success(v) => Success(vs + [v])
  }

  /** A failed run fails with the error of one of its steps. */
  lemma {:induction false} CollectFailure<T>(rs: seq<Result<T>>)
    requires Collect(rs).Failure?
    ensures exists j :: 0 <= j < |rs| && rs[j].Failure? && Collect(rs).error == rs[j].error
  {
    var init := rs[..|rs| - 1];
    if Collect(init).Failure? {
      CollectFailure(init);
      var j :| 0 <= j < |init| && init[j].Failure? && Collect(init).error == init[j].error;
      assert rs[j] == init[j];
    } else {
      assert rs[|rs| - 1].Failure?;
    }
  }

  /** Results that all succeed collect to the list of their values. */
  lemma CollectAll<T>(rs: seq<Result<T>>, vs: seq<T>)
    requires |rs| == |vs| && forall j :: 0 <= j < |rs| ==> rs[j] == Success(vs[j])
    ensures Collect(rs) == Success(vs)
  {
    var c := Collect(rs);
    assert c.Success?;
    assert forall j :: 0 <= j < |vs| ==> c.value[j] == vs[j];
    assert c.value == vs;
  }

  /** Replacing the first element after a prefix. */
  lemma Advance<T>(b: seq<T>, u: seq<T>, w: seq<T>, x: T)
    requires b == u + w && w != []
    ensures b[|u|] == w[0]
    ensures b[|u| := x] == (u + [x]) + w[1..]
  {
  }

  /** `f` applied to the first `n` elements, the rest left as they are. */
  function MapPrefix<T>(s: seq<T>, n: nat, f: T -> T): (m: seq<T>)
    requires n <= |s|
    ensures |m| == |s|
  {
    seq(|s|, i requires 0 <= i < |s| => if i < n then f(s[i]) else s[i])
  }

  lemma MapPrefixStep<T>(s: seq<T>, n: nat, f: T -> T, i: nat)
    requires i < n <= |s|
    ensures MapPrefix(s, n, f)[..i] + [f(s[i])] == MapPrefix(s, n, f)[..i + 1]
  {
    var m := MapPrefix(s, n, f);
    assert m[..i + 1] == m[..i] + [m[i]];
  }

  lemma MapPrefixRest<T>(s: seq<T>, n: nat, f: T -> T)
    requires n <= |s|
    ensures MapPrefix(s, n, f) == MapPrefix(s, n, f)[..n] + s[n..]
  {
    var m := MapPrefix(s, n, f);
    assert m[n..] == s[n..];
    assert m == m[..n] + m[n..];
  }
}

