/** Merging the scores into the records and ordering the records by
    descending rate, as a stable sort does. */
module Ranking {
  import opened Common
  import opened Records
  import opened Scores
  import opened Sorting

  // ------------------------------------------------------------------ merge

  /** `estimation.get(email, 0)`: the score of an e-mail, 0 when the
      completion gave none (the table's keys are strings, so a non-string
      cell never matches). */
  function Lookup(table: ScoreTable, email: Value): (n: int)
    ensures email.Str? && email.s in table ==> n == table[email.s]
    ensures !(email.Str? && email.s in table) ==> n == 0
  {
    match email
    case Str(s) => if s in table then table[s] else 0
    case Int(_) => 0
  }

  /** The score table read back after one entry is written: the new entry is
      found under its own e-mail and every other cell looks up as before. */
  lemma LookupUpdate(table: ScoreTable, k: string, n: int, e: Value)
    ensures Lookup(table[k := n], Str(k)) == n
    ensures e != Str(k) ==> Lookup(table[k := n], e) == Lookup(table, e)
  {
  }

  /** `data_line['rate'] = estimation.get(data_line['email'], 0)` on a record
      that has an e-mail: the rate is set and no other column changes. */
  function Rated(r: Record, table: ScoreTable): (r': Record)
    requires "email" in r.vals
    ensures Get(r', "rate") == Some(Int(Lookup(table, r.vals["email"])))
    ensures forall k {:trigger Get(r', k)} :: k != "rate" ==> Get(r', k) == Get(r, k)
    ensures r'.keys == if "rate" in r.vals then r.keys else r.keys + ["rate"]
  {
    Set(r, "rate", Int(Lookup(table, r.vals["email"])))
  }

  /** The position of the first record without an e-mail, or the length of
      the list when every record has one. */
  function FirstWithoutEmail(s: seq<Record>): (n: nat)
    ensures n <= |s|
    ensures forall i :: 0 <= i < n ==> "email" in s[i].vals
    ensures n < |s| ==> "email" !in s[n].vals
  {
    if s == [] || "email" !in s[0].vals then 0 else 1 + FirstWithoutEmail(s[1..])
  }

  /** One turn of the merge loop on a record that has an e-mail. */
  function RateIfEmail(table: ScoreTable, r: Record): Record {
    if "email" in r.vals then Rated(r, table) else r
  }

  /** The record list after the merge loop: every record up to the first one
      without an e-mail is rated; the loop raises there and leaves the rest. */
  function Merged(s: seq<Record>, table: ScoreTable): (m: seq<Record>)
    ensures |m| == |s|
  {
    MapPrefix(s, FirstWithoutEmail(s), r => RateIfEmail(table, r))
  }

  /** The i-th record after the merge. */
  lemma MergedAt(s: seq<Record>, table: ScoreTable, i: nat)
    requires i < |s|
    ensures i < FirstWithoutEmail(s) ==> Merged(s, table)[i] == Rated(s[i], table)
    ensures i >= FirstWithoutEmail(s) ==> Merged(s, table)[i] == s[i]
  {
  }

  /** What the merge promises: each record before the first one without an
      e-mail has the score of its e-mail as `rate`, no other column of any
      record changes, and the records from the failing one on are untouched. */
  lemma MergedSpec(s: seq<Record>, table: ScoreTable)
    ensures forall i :: 0 <= i < FirstWithoutEmail(s) ==>
      Get(Merged(s, table)[i], "rate") == Some(Int(Lookup(table, s[i].vals["email"])))
    ensures forall i, k :: 0 <= i < |s| && k != "rate" ==> Get(Merged(s, table)[i], k) == Get(s[i], k)
    ensures forall i :: FirstWithoutEmail(s) <= i < |s| ==> Merged(s, table)[i] == s[i]
  {
    var m := Merged(s, table);
    forall i | 0 <= i < FirstWithoutEmail(s)
      ensures Get(m[i], "rate") == Some(Int(Lookup(table, s[i].vals["email"])))
    {
      MergedAt(s, table, i);
    }
    forall i, k | 0 <= i < |s| && k != "rate" ensures Get(m[i], k) == Get(s[i], k) {
      MergedAt(s, table, i);
    }
    forall i | FirstWithoutEmail(s) <= i < |s| ensures m[i] == s[i] {
      MergedAt(s, table, i);
    }
  }

  /** The merge loop stops at the first record without an e-mail; from there
      on the list is as it was. */
  lemma MergeStops(s: seq<Record>, table: ScoreTable, i: nat)
    requires i <= FirstWithoutEmail(s) && i < |s| && "email" !in s[i].vals
    ensures FirstWithoutEmail(s) == i
    ensures Merged(s, table) == Merged(s, table)[..i] + s[i..]
  {
    MapPrefixRest(s, FirstWithoutEmail(s), r => RateIfEmail(table, r));
  }

  /** One turn of the merge loop rates one more record. */
  lemma MergeStep(s: seq<Record>, table: ScoreTable, i: nat)
    requires i < FirstWithoutEmail(s)
    ensures Merged(s, table)[..i] + [Rated(s[i], table)] == Merged(s, table)[..i + 1]
  {
    MapPrefixStep(s, FirstWithoutEmail(s), r => RateIfEmail(table, r), i);
  }

  /** The loop state after one more turn: the merged prefix grows by the
      rated record and the untouched rest shrinks by one. */
  lemma MergeAdvance(s: seq<Record>, table: ScoreTable, i: nat, before: seq<Record>)
    requires i <= FirstWithoutEmail(s) && i < |s| && "email" in s[i].vals
    requires before == Merged(s, table)[..i] + s[i..]
    ensures i < FirstWithoutEmail(s)
    ensures before[i := Rated(s[i], table)] == Merged(s, table)[..i + 1] + s[i + 1..]
  {
    MergeStep(s, table, i);
    Advance(before, Merged(s, table)[..i], s[i..], Rated(s[i], table));
    assert s[i..][1..] == s[i + 1..];
  }

  /** Identifiers of the completion that match no record leave the records
      as they would be without them. */
  lemma UnmatchedIgnored(s: seq<Record>, table: ScoreTable, k: string, n: int)
    requires forall i :: 0 <= i < |s| ==> Get(s[i], "email") != Some(Str(k))
    ensures Merged(s, table[k := n]) == Merged(s, table)
  {
    var a, b := Merged(s, table[k := n]), Merged(s, table);
    forall i | 0 <= i < |s| ensures a[i] == b[i] {
      MergedAt(s, table[k := n], i);
      MergedAt(s, table, i);
      if i < FirstWithoutEmail(s) {
        assert Lookup(table[k := n], s[i].vals["email"]) == Lookup(table, s[i].vals["email"]);
      }
    }
  }

  // ------------------------------------------------------------------- sort

  /** The record's integer `rate`. Every record the sort sees was rated by
      the merge just before it, so the 0 for a record without an integer
      rate is never used. */
  function Rate(r: Record): int {
    if "rate" in r.vals && r.vals["rate"].Int? then r.vals["rate"].n else 0
  }

  /** Every record holds an integer `rate`, so `-x['rate']` raises neither a
      KeyError nor a TypeError. */
  predicate AllRated(s: seq<Record>) {
    forall i :: 0 <= i < |s| ==> "rate" in s[i].vals && s[i].vals["rate"].Int?
  }

  /** The sort key `lambda x: -x['rate']`. */
  function SortKey(r: Record): int {
    -Rate(r)
  }

  /** `list.sort(key=lambda x: -x['rate'])`. */
  function SortByRate(s: seq<Record>): seq<Record> {
    SortByKey(s, SortKey)
  }

  /** Rates do not increase along the list. */
  predicate RatesDescend(s: seq<Record>) {
    forall i, j :: 0 <= i < j < |s| ==> Rate(s[i]) >= Rate(s[j])
  }

  /** What the sort promises: the same records, by descending rate, and
      records of equal rate in their original relative order. */
  lemma SortByRateSpec(s: seq<Record>)
    ensures multiset(SortByRate(s)) == multiset(s)
    ensures RatesDescend(SortByRate(s))
    ensures forall v :: WithKey(SortByRate(s), SortKey, v) == WithKey(s, SortKey, v)
  {
    SortPermutes(s, SortKey);
    SortSorted(s, SortKey);
    forall v ensures WithKey(SortByRate(s), SortKey, v) == WithKey(s, SortKey, v) {
      SortStable(s, SortKey, v);
    }
  }

  /** Any stable ordering by descending rate is the one SortByRate gives. */
  lemma SortByRateUnique(s: seq<Record>, t: seq<Record>)
    requires RatesDescend(t)
    requires forall v :: WithKey(t, SortKey, v) == WithKey(s, SortKey, v)
    ensures t == SortByRate(s)
  {
    SortByRateSpec(s);
    StableSortUnique(t, SortByRate(s), SortKey);
  }

  // ------------------------------------------------------------ format step

  /** `__format_data` on the stored response and records: the outcome (the
      error raised, if any) and the record list as the step leaves it. */
  function Formatted(response: Option<string>, s: seq<Record>): (r: (Outcome, seq<Record>))
    ensures |r.1| == |s|
  {
    match response
    case None => (Raised(NoResponse), s)
    case Some(content) =>
      match Table(content)
      case Failure(e) => (Raised(e), s)
      case Success(table) =>
        var m := Merged(s, table);
        if FirstWithoutEmail(s) < |s| then (Raised(KeyError("email")), m)
        else
          SortByRateSpec(m);
          assert |SortByRate(m)| == |multiset(SortByRate(m))| == |m|;
          (Done, SortByRate(m))
  }

  /** The outcomes of the format step: it fails with no response, with the
      parse error (records untouched), or with the KeyError of a record
      without an e-mail (records up to it rated); otherwise it succeeds with
      the merged records sorted by descending rate. */
  lemma FormattedErrors(response: Option<string>, s: seq<Record>)
    ensures Formatted(response, s).0.Done? <==>
      response.Some? && Table(response.value).Success? && FirstWithoutEmail(s) == |s|
    ensures response.None? ==> Formatted(response, s) == (Raised(NoResponse), s)
    ensures response.Some? && Table(response.value).Failure? ==>
      Formatted(response, s) == (Raised(Table(response.value).error), s)
    ensures response.Some? && Table(response.value).Success? && FirstWithoutEmail(s) < |s| ==>
      Formatted(response, s) == (Raised(KeyError("email")), Merged(s, Table(response.value).value))
    ensures response.Some? && Table(response.value).Success? && FirstWithoutEmail(s) == |s| ==>
      Formatted(response, s) == (Done, SortByRate(Merged(s, Table(response.value).value)))
  {
  }

  /** What the format step promises when the completion parses and every
      record has an e-mail: the result is a permutation of the merged records,
      by descending rate, stable, and every record's rate is the score of its
      own e-mail. */
  lemma FormattedSpec(content: string, s: seq<Record>, table: ScoreTable)
    requires Table(content) == Success(table)
    requires FirstWithoutEmail(s) == |s|
    ensures Formatted(Some(content), s).0 == Done
    ensures multiset(Formatted(Some(content), s).1) == multiset(Merged(s, table))
    ensures RatesDescend(Formatted(Some(content), s).1)
    ensures forall v :: WithKey(Formatted(Some(content), s).1, SortKey, v) == WithKey(Merged(s, table), SortKey, v)
    ensures forall i :: 0 <= i < |s| ==> RatedByEmail(Formatted(Some(content), s).1[i], table)
  {
    var m := Merged(s, table);
    SortByRateSpec(m);
    MergedRated(s, table);
    PermutedRated(m, Formatted(Some(content), s).1, table);
  }

  /** After a merge that completes, every record is rated by its own e-mail. */
  lemma MergedRated(s: seq<Record>, table: ScoreTable)
    requires FirstWithoutEmail(s) == |s|
    ensures forall i :: 0 <= i < |s| ==> RatedByEmail(Merged(s, table)[i], table)
    ensures AllRated(Merged(s, table))
  {
    var m := Merged(s, table);
    forall i | 0 <= i < |s| ensures RatedByEmail(m[i], table) {
      MergedAt(s, table, i);
      RatedByOwnEmail(s[i], table);
    }
  }

  /** Rating a record rates it by its own e-mail, which the rating keeps. */
  lemma RatedByOwnEmail(r: Record, table: ScoreTable)
    requires "email" in r.vals
    ensures RatedByEmail(Rated(r, table), table)
  {
    var r' := Rated(r, table);
    assert Get(r', "email") == Get(r, "email");
  }

  /** Reordering keeps every record rated by its own e-mail. */
  lemma PermutedRated(m: seq<Record>, t: seq<Record>, table: ScoreTable)
    requires multiset(t) == multiset(m)
    requires forall k :: 0 <= k < |m| ==> RatedByEmail(m[k], table)
    ensures forall i :: 0 <= i < |t| ==> RatedByEmail(t[i], table)
  {
    forall i | 0 <= i < |t| ensures RatedByEmail(t[i], table) {
      assert t[i] in multiset(m);
      var k :| 0 <= k < |m| && m[k] == t[i];
    }
  }

  /** The record has an e-mail and an integer rate equal to that e-mail's score. */
  predicate RatedByEmail(r: Record, table: ScoreTable) {
    "email" in r.vals && Get(r, "rate") == Some(Int(Lookup(table, r.vals["email"])))
  }
}

