/** The Python string operations the response parser relies on:
    whitespace, `strip()`, `split('\n')`, `split()`, `replace('- ', '')`,
    and `int()` / `str()` on integers. */
module Text {
  import opened Common

  /** `str.isspace` on one character: the whitespace table that both
      `str.strip()` and `str.split()` without an argument use. */
  predicate IsSpace(c: char) {
    || ('\t' <= c <= '\r')
    || ('\U{1C}' <= c <= '\U{1F}')
    || c == ' '
    || c == '\U{85}'
    || c == '\U{A0}'
    || c == '\U{1680}'
    || ('\U{2000}' <= c <= '\U{200A}')
    || c == '\U{2028}'
    || c == '\U{2029}'
    || c == '\U{202F}'
    || c == '\U{205F}'
    || c == '\U{3000}'
  }

  predicate AllSpace(s: string) {
    forall i :: 0 <= i < |s| ==> IsSpace(s[i])
  }

  /** A token of `str.split()`: non-empty and free of whitespace. */
  predicate IsWord(s: string) {
    |s| > 0 && forall i :: 0 <= i < |s| ==> !IsSpace(s[i])
  }

  // ---------------------------------------------------------------- strip()

  /** Drops the leading whitespace of `s`. */
  function TrimLeft(s: string): string {
    if s != [] && IsSpace(s[0]) then TrimLeft(s[1..]) else s
  }

  /** Drops the trailing whitespace of `s`. */
  function TrimRight(s: string): string {
    if s != [] && IsSpace(s[|s| - 1]) then TrimRight(s[..|s| - 1]) else s
  }

  /** `str.strip()`. */
  function Strip(s: string): string {
    TrimRight(TrimLeft(s))
  }

  /** Left trimming cuts a whitespace prefix and stops at the first other character. */
  lemma {:induction false} TrimLeftCut(s: string)
    ensures var r := TrimLeft(s); |r| <= |s| && r == s[|s| - |r|..]
    ensures var r := TrimLeft(s); AllSpace(s[..|s| - |r|]) && (r == [] || !IsSpace(r[0]))
  {
    if s != [] && IsSpace(s[0]) {
      TrimLeftCut(s[1..]);
      var r := TrimLeft(s);
      assert s[..|s| - |r|] == [s[0]] + s[1..][..|s| - 1 - |r|];
    }
  }

  /** Right trimming cuts a whitespace suffix and stops at the last other character. */
  lemma {:induction false} TrimRightCut(s: string)
    ensures var r := TrimRight(s); |r| <= |s| && r == s[..|r|]
    ensures var r := TrimRight(s); AllSpace(s[|r|..]) && (r == [] || !IsSpace(r[|r| - 1]))
  {
    if s != [] && IsSpace(s[|s| - 1]) {
      TrimRightCut(s[..|s| - 1]);
      var r := TrimRight(s);
      assert s[|r|..] == s[..|s| - 1][|r|..] + [s[|s| - 1]];
    }
  }

  /** What `strip()` returns is a slice of `s` that neither starts nor ends
      with whitespace, and only whitespace was cut off on either side. */
  lemma StripSlice(s: string)
    ensures var r := Strip(s); r == [] || (!IsSpace(r[0]) && !IsSpace(r[|r| - 1]))
    ensures var r := Strip(s); exists i :: 0 <= i <= |s| - |r| && r == s[i..i + |r|] && AllSpace(s[..i]) && AllSpace(s[i + |r|..])
  {
    TrimLeftCut(s);
    TrimRightCut(TrimLeft(s));
    InnerSlice(s, TrimLeft(s), Strip(s));
  }

  /** A whitespace-trimmed suffix of `s` (`t`), trimmed again at its end
      (`r`), is a slice of `s` with whitespace on both sides and none at
      either end of it. */
  lemma InnerSlice(s: string, t: string, r: string)
    requires |t| <= |s| && t == s[|s| - |t|..] && AllSpace(s[..|s| - |t|]) && (t == [] || !IsSpace(t[0]))
    requires |r| <= |t| && r == t[..|r|] && AllSpace(t[|r|..]) && (r == [] || !IsSpace(r[|r| - 1]))
    ensures r == [] || (!IsSpace(r[0]) && !IsSpace(r[|r| - 1]))
    ensures exists i :: 0 <= i <= |s| - |r| && r == s[i..i + |r|] && AllSpace(s[..i]) && AllSpace(s[i + |r|..])
  {
    var i := |s| - |t|;
    assert s[i + |r|..] == t[|r|..];
    assert r == s[i..i + |r|];
    assert r == [] || r[0] == t[0];
  }

  lemma {:induction false} TrimLeftPadding(a: string, t: string)
    requires AllSpace(a)
    ensures TrimLeft(a + t) == TrimLeft(t)
  {
    if a != [] {
      var s := a + t;
      assert IsSpace(a[0]) && s[0] == a[0];
      assert TrimLeft(s) == TrimLeft(s[1..]);
      assert s[1..] == a[1..] + t;
      TrimLeftPadding(a[1..], t);
    } else {
      assert a + t == t;
    }
  }

  lemma {:induction false} TrimRightPadding(t: string, b: string)
    requires AllSpace(b)
    ensures TrimRight(t + b) == TrimRight(t)
  {
    if b != [] {
      var s := t + b;
      assert IsSpace(b[|b| - 1]) && s[|s| - 1] == b[|b| - 1];
      assert TrimRight(s) == TrimRight(s[..|s| - 1]);
      assert s[..|s| - 1] == t + b[..|b| - 1];
      TrimRightPadding(t, b[..|b| - 1]);
    } else {
      assert t + b == t;
    }
  }

  /** Stripping removes exactly the whitespace at the two ends: whatever sits
      between a non-space first and last character is kept as it is. */
  lemma StripEnds(a: string, m: string, b: string)
    requires AllSpace(a) && AllSpace(b)
    requires m == [] || (!IsSpace(m[0]) && !IsSpace(m[|m| - 1]))
    ensures Strip(a + m + b) == m
  {
    assert a + m + b == a + (m + b);
    TrimLeftPadding(a, m + b);
    if m == [] {
      assert m + b == b;
      TrimLeftCut(b);
      assert TrimLeft(b) == [];
    } else {
      assert TrimLeft(m + b) == m + b;
      TrimRightPadding(m, b);
    }
  }

  // ------------------------------------------------------------ split('\n')

  /** `s.split(sep)` for a one-character separator: the pieces between the
      separators, always at least one (the empty string gives `[""]`). */
  function SplitOn(s: string, sep: char): (r: seq<string>)
    ensures |r| >= 1
    ensures forall i :: 0 <= i < |r| ==> sep !in r[i]
  {
    if s == [] then [[]]
    else
      var rest := SplitOn(s[1..], sep);
      if s[0] == sep then [[]] + rest else [[s[0]] + rest[0]] + rest[1..]
  }

  /** `sep.join(parts)`. */
  function JoinWith(parts: seq<string>, sep: char): string {
    if |parts| == 0 then []
    else if |parts| == 1 then parts[0]
    else parts[0] + [sep] + JoinWith(parts[1..], sep)
  }

  /** Splitting loses nothing: joining the pieces with the separator gives the text back. */
  lemma {:induction false} JoinSplit(s: string, sep: char)
    ensures JoinWith(SplitOn(s, sep), sep) == s
  {
    if s != [] {
      var rest := SplitOn(s[1..], sep);
      JoinSplit(s[1..], sep);
      if s[0] != sep {
        if |rest| == 1 {
          assert SplitOn(s, sep) == [[s[0]] + rest[0]];
        } else {
          assert SplitOn(s, sep)[1..] == rest[1..];
        }
      } else {
        assert SplitOn(s, sep)[1..] == rest;
      }
    }
  }

  /** Splitting the join of separator-free pieces gives the pieces back. */
  lemma {:induction false} SplitJoin(parts: seq<string>, sep: char)
    requires |parts| >= 1
    requires forall i :: 0 <= i < |parts| ==> sep !in parts[i]
    ensures SplitOn(JoinWith(parts, sep), sep) == parts
  {
    if |parts| == 1 {
      SplitPiece(parts[0], [], sep);
      assert parts[0] + [] == parts[0];
    } else {
      var tail := JoinWith(parts[1..], sep);
      SplitJoin(parts[1..], sep);
      SplitPiece(parts[0], [sep] + tail, sep);
      assert parts[0] + [sep] + tail == parts[0] + ([sep] + tail);
      assert ([sep] + tail)[1..] == tail;
      assert SplitOn([sep] + tail, sep) == [[]] + parts[1..];
      assert parts[0] + [] == parts[0];
      assert [parts[0]] + parts[1..] == parts;
    }
  }

  /** A separator-free prefix `p` joins the first piece of what follows it. */
  lemma {:induction false} SplitPiece(p: string, t: string, sep: char)
    requires sep !in p
    ensures var r := SplitOn(t, sep); SplitOn(p + t, sep) == [p + r[0]] + r[1..]
  {
    if p != [] {
      assert (p + t)[1..] == p[1..] + t;
      SplitPiece(p[1..], t, sep);
      assert [p[0]] + (p[1..] + SplitOn(t, sep)[0]) == p + SplitOn(t, sep)[0];
    } else {
      var r := SplitOn(t, sep);
      assert p + t == t && p + r[0] == r[0];
      assert [r[0]] + r[1..] == r;
    }
  }

  // ------------------------------------------------------- replace('- ', '')

  /** The two characters "- ": in a completion they are both the separator
      between e-mail and score that the default prompt asks for and a list
      bullet the service may put in front of a line. */
  predicate StartsWithDashSpace(s: string) {
    |s| >= 2 && s[0] == '-' && s[1] == ' '
  }

  /** `s.replace('- ', '')`: one left-to-right pass that deletes every
      occurrence of the two characters "- ", wherever it stands. */
  function RemoveDashSpace(s: string): (r: string)
    ensures |r| <= |s|
  {
    if StartsWithDashSpace(s) then RemoveDashSpace(s[2..])
    else if s == [] then []
    else [s[0]] + RemoveDashSpace(s[1..])
  }

  /** Text without the pattern passes through unchanged. */
  lemma {:induction false} RemoveDashSpaceNone(s: string)
    requires forall i :: 0 <= i < |s| - 1 ==> !(s[i] == '-' && s[i + 1] == ' ')
    ensures RemoveDashSpace(s) == s
  {
    if s != [] {
      assert !StartsWithDashSpace(s) by { if |s| >= 2 { assert !(s[0] == '-' && s[1] == ' '); } }
      RemoveDashSpaceNone(s[1..]);
    }
  }

  /** Removal works piecewise, except across a boundary that would join a '-' to a ' '. */
  lemma {:induction false} RemoveDashSpaceAppend(a: string, b: string)
    requires !(a != [] && a[|a| - 1] == '-' && b != [] && b[0] == ' ')
    ensures RemoveDashSpace(a + b) == RemoveDashSpace(a) + RemoveDashSpace(b)
  {
    if a == [] {
      assert a + b == b;
    } else if StartsWithDashSpace(a) {
      calc {
        RemoveDashSpace(a + b);
        { assert StartsWithDashSpace(a + b) && (a + b)[2..] == a[2..] + b; }
        RemoveDashSpace(a[2..] + b);
        { RemoveDashSpaceAppend(a[2..], b); }
        RemoveDashSpace(a[2..]) + RemoveDashSpace(b);
        RemoveDashSpace(a) + RemoveDashSpace(b);
      }
    } else {
      var c := a + b;
      calc {
        RemoveDashSpace(c);
        { assert c[0] == a[0] && (|a| >= 2 ==> c[1] == a[1]);
          assert !StartsWithDashSpace(c); }
        [c[0]] + RemoveDashSpace(c[1..]);
        { assert c[1..] == a[1..] + b; }
        [a[0]] + RemoveDashSpace(a[1..] + b);
        { RemoveDashSpaceAppend(a[1..], b); }
        [a[0]] + (RemoveDashSpace(a[1..]) + RemoveDashSpace(b));
        ([a[0]] + RemoveDashSpace(a[1..])) + RemoveDashSpace(b);
        RemoveDashSpace(a) + RemoveDashSpace(b);
      }
    }
  }

  /** Every occurrence is removed, not only a leading one: an occurrence
      anywhere in the text disappears and the text on either side is treated
      independently. */
  lemma RemoveDashSpaceAnywhere(a: string, b: string)
    ensures RemoveDashSpace(a + "- " + b) == RemoveDashSpace(a) + RemoveDashSpace(b)
  {
    assert a + "- " + b == a + ("- " + b);
    RemoveDashSpaceAppend(a, "- " + b);
    assert ("- " + b)[2..] == b;
  }

  /** The pass is not repeated: an occurrence formed by a deletion stays. */
  lemma RemoveDashSpaceSinglePass()
    ensures RemoveDashSpace("--  ") == "- "
  {
    assert "--  "[1..] == "-  ";
    assert "-  "[2..] == " ";
    assert " "[1..] == [];
  }

  // ----------------------------------------------------------------- split()

  /** The longest whitespace-free prefix of `s`. */
  function LeadingWord(s: string): (w: string)
    ensures |w| <= |s| && w == s[..|w|]
    ensures forall i :: 0 <= i < |w| ==> !IsSpace(w[i])
    ensures |w| == |s| || IsSpace(s[|w|])
    ensures s != [] && !IsSpace(s[0]) ==> |w| >= 1
  {
    if s == [] || IsSpace(s[0]) then [] else [s[0]] + LeadingWord(s[1..])
  }

  /** `s.split()` with no argument: the maximal whitespace-free runs of `s`, in order. */
  function Tokens(s: string): (r: seq<string>)
    ensures forall i :: 0 <= i < |r| ==> IsWord(r[i])
    decreases |s|
  {
    if s == [] then []
    else if IsSpace(s[0]) then Tokens(s[1..])
    else
      var w := LeadingWord(s);
      [w] + Tokens(s[|w|..])
  }

  /** A string has no tokens exactly when it is all whitespace (empty included). */
  lemma {:induction false} TokensEmpty(s: string)
    ensures Tokens(s) == [] <==> AllSpace(s)
    decreases |s|
  {
    if s != [] && IsSpace(s[0]) {
      TokensEmpty(s[1..]);
      if AllSpace(s[1..]) {
        forall i | 0 <= i < |s| ensures IsSpace(s[i]) {
          if i > 0 { assert s[i] == s[1..][i - 1]; }
        }
      }
    }
  }

  lemma {:induction false} LeadingWordOf(w: string, t: string)
    requires forall i :: 0 <= i < |w| ==> !IsSpace(w[i])
    requires t == [] || IsSpace(t[0])
    ensures LeadingWord(w + t) == w
  {
    if w == [] {
      assert w + t == t;
    } else {
      assert (w + t)[1..] == w[1..] + t;
      LeadingWordOf(w[1..], t);
    }
  }

  /** A word followed by a whitespace character is the first token. */
  lemma TokensCons(w: string, sp: char, rest: string)
    requires IsWord(w) && IsSpace(sp)
    ensures Tokens(w + [sp] + rest) == [w] + Tokens(rest)
  {
    var s := w + [sp] + rest;
    assert s == w + ([sp] + rest);
    LeadingWordOf(w, [sp] + rest);
    assert s[|w|..] == [sp] + rest;
    assert ([sp] + rest)[1..] == rest;
  }

  /** A single word is its own only token. */
  lemma TokensWord(w: string)
    requires IsWord(w)
    ensures Tokens(w) == [w]
  {
    LeadingWordOf(w, []);
    assert w + [] == w;
  }

  /** Leading whitespace produces no token. */
  lemma {:induction false} TokensPadding(a: string, t: string)
    requires AllSpace(a)
    ensures Tokens(a + t) == Tokens(t)
    decreases |a|
  {
    if a == [] {
      assert a + t == t;
    } else {
      var s := a + t;
      assert s[0] == a[0] && s[1..] == a[1..] + t;
      TokensPadding(a[1..], t);
    }
  }

  /** A word followed by whitespace, or by nothing, is the first token. */
  lemma TokensAfterWord(w: string, t: string)
    requires IsWord(w) && (t == [] || IsSpace(t[0]))
    ensures Tokens(w + t) == [w] + Tokens(t)
  {
    var s := w + t;
    LeadingWordOf(w, t);
    assert s[0] == w[0] && s[|w|..] == t;
  }

  // ---------------------------------------------- the layout of a split() line

  /** The words `ws` with the whitespace runs `gaps` around and between
      them: gaps[0], ws[0], gaps[1], ..., ws[n - 1], gaps[n]. */
  function Spaced(ws: seq<string>, gaps: seq<string>): string
    requires |gaps| == |ws| + 1
    decreases |ws|
  {
    if ws == [] then gaps[0] else gaps[0] + (ws[0] + Spaced(ws[1..], gaps[1..]))
  }

  /** Words separated by whitespace runs: the runs between two words are
      non-empty, the runs at either end may be empty. */
  predicate Layout(ws: seq<string>, gaps: seq<string>) {
    && |gaps| == |ws| + 1
    && (forall i :: 0 <= i < |ws| ==> IsWord(ws[i]))
    && (forall i :: 0 <= i < |gaps| ==> AllSpace(gaps[i]))
    && (forall i :: 0 < i < |ws| ==> gaps[i] != [])
  }

  /** `split()` returns exactly the words of a layout, whatever whitespace
      (spaces, tabs, a trailing '\r', several in a row) separates them. */
  lemma {:induction false} TokensSpaced(ws: seq<string>, gaps: seq<string>)
    requires Layout(ws, gaps)
    ensures Tokens(Spaced(ws, gaps)) == ws
    decreases |ws|
  {
    if ws == [] {
      TokensEmpty(gaps[0]);
    } else {
      var ws', gaps' := ws[1..], gaps[1..];
      var rest := Spaced(ws', gaps');
      assert Layout(ws', gaps') by {
        forall i | 0 <= i < |ws'| ensures IsWord(ws'[i]) { assert ws'[i] == ws[i + 1]; }
        forall i | 0 <= i < |gaps'| ensures AllSpace(gaps'[i]) { assert gaps'[i] == gaps[i + 1]; }
        forall i | 0 < i < |ws'| ensures gaps'[i] != [] { assert gaps'[i] == gaps[i + 1]; }
      }
      TokensSpaced(ws', gaps');
      assert rest == [] || IsSpace(rest[0]) by {
        if ws' != [] {
          assert gaps[1] != [] && AllSpace(gaps[1]);
          assert rest[0] == gaps'[0][0];
        } else {
          assert AllSpace(gaps'[0]);
        }
      }
      assert IsWord(ws[0]) && AllSpace(gaps[0]);
      TokensAfterWord(ws[0], rest);
      TokensPadding(gaps[0], ws[0] + rest);
      assert [ws[0]] + ws' == ws;
    }
  }

  /** The whitespace runs of `s` around and between its tokens. */
  function GapsOf(s: string): (g: seq<string>)
    ensures |g| == |Tokens(s)| + 1
    decreases |s|
  {
    if s == [] then [[]]
    else if IsSpace(s[0]) then
      var g := GapsOf(s[1..]);
      [[s[0]] + g[0]] + g[1..]
    else
      [[]] + GapsOf(s[|LeadingWord(s)|..])
  }

  lemma SpacedPrefix(ws: seq<string>, a: string, g: seq<string>)
    requires |g| == |ws| + 1
    ensures Spaced(ws, [a + g[0]] + g[1..]) == a + Spaced(ws, g)
  {
    var h := [a + g[0]] + g[1..];
    if ws != [] {
      assert h[1..] == g[1..];
    }
  }

  lemma SpacedPair(x: string, y: string, a: string, b: string, c: string)
    ensures Spaced([x, y], [a, b, c]) == a + x + b + y + c
  {
    var ws, gaps := [x, y], [a, b, c];
    assert ws[1..] == [y] && gaps[1..] == [b, c];
    assert ws[1..][1..] == [] && gaps[1..][1..] == [c];
    calc {
      Spaced(ws, gaps);
      a + (x + Spaced([y], [b, c]));
      a + (x + (b + (y + Spaced([], [c]))));
      a + (x + (b + (y + c)));
      a + x + b + y + c;
    }
  }

  /** Two words and three runs of whitespace, the middle one non-empty. */
  lemma LayoutPair(x: string, y: string, a: string, b: string, c: string)
    requires IsWord(x) && IsWord(y) && AllSpace(a) && AllSpace(b) && b != [] && AllSpace(c)
    ensures Layout([x, y], [a, b, c])
  {
    var ws, gaps := [x, y], [a, b, c];
    forall i | 0 <= i < |ws| ensures IsWord(ws[i]) { if i == 1 { assert ws[i] == y; } }
    forall i | 0 <= i < |gaps| ensures AllSpace(gaps[i]) {
      if i == 1 { assert gaps[i] == b; } else if i == 2 { assert gaps[i] == c; }
    }
  }

  /** Every line is the layout of its tokens: together with TokensSpaced,
      `split()` is the one list of words that a layout of the line has. */
  lemma {:induction false} TokensLayout(s: string)
    ensures Layout(Tokens(s), GapsOf(s)) && s == Spaced(Tokens(s), GapsOf(s))
    decreases |s|
  {
    if s == [] {
    } else if IsSpace(s[0]) {
      var r := s[1..];
      assert Tokens(s) == Tokens(r);
      assert GapsOf(s) == [[s[0]] + GapsOf(r)[0]] + GapsOf(r)[1..];
      TokensLayout(r);
      LayoutSpace(s[0], r, Tokens(r), GapsOf(r));
      assert s == [s[0]] + r;
    } else {
      var w := LeadingWord(s);
      var rest := s[|w|..];
      assert Tokens(s) == [w] + Tokens(rest);
      assert GapsOf(s) == [[]] + GapsOf(rest);
      TokensLayout(rest);
      LayoutWord(w, rest, Tokens(rest), GapsOf(rest));
      assert s == w + rest;
    }
  }

  /** A whitespace character joins the leading run of a layout. */
  lemma LayoutSpace(c: char, r: string, ws: seq<string>, g: seq<string>)
    requires IsSpace(c) && Layout(ws, g) && r == Spaced(ws, g)
    ensures Layout(ws, [[c] + g[0]] + g[1..]) && [c] + r == Spaced(ws, [[c] + g[0]] + g[1..])
  {
    var gaps := [[c] + g[0]] + g[1..];
    SpacedPrefix(ws, [c], g);
    forall i | 0 <= i < |gaps| ensures AllSpace(gaps[i]) {
      if i == 0 {
        assert AllSpace(g[0]);
        forall k | 0 <= k < |gaps[0]| ensures IsSpace(gaps[0][k]) {
          if k > 0 { assert gaps[0][k] == g[0][k - 1]; }
        }
      } else {
        assert gaps[i] == g[i];
      }
    }
    forall i | 0 < i < |ws| ensures gaps[i] != [] { assert gaps[i] == g[i]; }
  }

  /** A word in front of a layout that starts with whitespace (or is empty)
      is a layout with one more word. */
  lemma LayoutWord(w: string, rest: string, t: seq<string>, g: seq<string>)
    requires IsWord(w) && (rest == [] || IsSpace(rest[0]))
    requires Layout(t, g) && rest == Spaced(t, g)
    ensures Layout([w] + t, [[]] + g) && w + rest == Spaced([w] + t, [[]] + g)
  {
    var ws, gaps := [w] + t, [[]] + g;
    assert ws[1..] == t && gaps[1..] == g;
    assert Spaced(ws, gaps) == [] + (w + rest);
    assert g[0] != [] || t == [];
    forall i | 0 <= i < |ws| ensures IsWord(ws[i]) {
      if i > 0 { assert ws[i] == t[i - 1]; }
    }
    forall i | 0 <= i < |gaps| ensures AllSpace(gaps[i]) {
      if i > 0 { assert gaps[i] == g[i - 1]; }
    }
    forall i | 0 < i < |ws| ensures gaps[i] != [] { assert gaps[i] == g[i - 1]; }
  }

  // ----------------------------------------------------------- int(), str()

  predicate IsDigit(c: char) {
    '0' <= c <= '9'
  }

  predicate AllDigits(s: string) {
    forall i :: 0 <= i < |s| ==> IsDigit(s[i])
  }

  /** The value of a string of decimal digits. */
  function DigitsValue(ds: string): nat
    requires AllDigits(ds)
  {
    if ds == [] then 0 else 10 * DigitsValue(ds[..|ds| - 1]) + (ds[|ds| - 1] as int - '0' as int)
  }

  /** The literals this model's `int()` admits: an optional '+' or '-'
      followed by one or more ASCII digits. */
  predicate IsIntLiteral(t: string) {
    t != [] &&
    if t[0] == '-' || t[0] == '+' then |t| >= 2 && AllDigits(t[1..]) else AllDigits(t)
  }

  /** `int(token)`: defined exactly on the literals above; an unsigned literal
      denotes its digits' value. */
  function ParseInt(t: string): (r: Option<int>)
    ensures r.Some? <==> IsIntLiteral(t)
    ensures r.Some? ==> t != [] && forall i :: 0 <= i < |t| ==> IsDigit(t[i]) || (i == 0 && (t[0] == '-' || t[0] == '+'))
    ensures t != [] && AllDigits(t) ==> r.Some? && r.value >= 0
    ensures t != [] && AllDigits(t) ==> r == Some(DigitsValue(t))
  {
    var signed := t != [] && (t[0] == '-' || t[0] == '+');
    var ds := if signed then t[1..] else t;
    if ds == [] || !AllDigits(ds) then None
    else
      forall i | 1 <= i < |t| && signed ensures IsDigit(t[i]) { assert t[i] == ds[i - 1]; }
      var v: int := if signed && t[0] == '-' then -(DigitsValue(ds) as int) else DigitsValue(ds);
      Some(v)
  }

  /** A '+' sign changes nothing. */
  lemma ParseIntPlus(ds: string)
    requires ds != [] && AllDigits(ds)
    ensures ParseInt("+" + ds) == ParseInt(ds)
  {
    assert ("+" + ds)[1..] == ds;
  }

  /** A '-' sign negates the value of the digits. */
  lemma ParseIntMinus(ds: string)
    requires ds != [] && AllDigits(ds)
    ensures ParseInt("-" + ds) == Some(-ParseInt(ds).value)
  {
    assert ("-" + ds)[1..] == ds;
  }

  lemma {:induction false} DigitsLeadingZero(ds: string)
    requires AllDigits(ds)
    ensures AllDigits("0" + ds) && DigitsValue("0" + ds) == DigitsValue(ds)
    decreases |ds|
  {
    var z := "0" + ds;
    assert AllDigits(z) by {
      forall i | 0 <= i < |z| ensures IsDigit(z[i]) { if i > 0 { assert z[i] == ds[i - 1]; } }
    }
    if ds != [] {
      var init := ds[..|ds| - 1];
      assert z[..|z| - 1] == "0" + init;
      DigitsLeadingZero(init);
    }
  }

  /** Leading zeros are accepted and do not change the value: `int("007") == 7`. */
  lemma ParseIntLeadingZero(ds: string)
    requires ds != [] && AllDigits(ds)
    ensures ParseInt("0" + ds) == ParseInt(ds)
  {
    DigitsLeadingZero(ds);
  }

  function DigitChar(d: nat): char
    requires d < 10
  {
    ('0' as int + d) as char
  }

  /** `str(n)` for a natural number: its decimal digits without leading zeros. */
  function ShowNat(n: nat): (s: string)
    ensures |s| >= 1 && AllDigits(s)
    ensures s[0] != '-' && s[0] != '+'
  {
    if n < 10 then [DigitChar(n)] else ShowNat(n / 10) + [DigitChar(n % 10)]
  }

  /** `str(n)` for an integer. */
  function ShowInt(n: int): string {
    if n < 0 then "-" + ShowNat(-n) else ShowNat(n)
  }

  lemma {:induction false} ShowNatValue(n: nat)
    ensures DigitsValue(ShowNat(n)) == n
  {
    if n >= 10 {
      var s := ShowNat(n);
      assert s[..|s| - 1] == ShowNat(n / 10);
      ShowNatValue(n / 10);
    }
  }

  /** `int(str(n)) == n`: the printed form of every integer parses back to it. */
  lemma ParseShow(n: int)
    ensures ParseInt(ShowInt(n)) == Some(n)
  {
    var ds := ShowNat(if n < 0 then -n else n);
    ShowNatValue(if n < 0 then -n else n);
    if n < 0 {
      var t := "-" + ds;
      assert t[0] == '-' && t[1..] == ds;
      calc {
        ParseInt(ShowInt(n));
        ParseInt(t);
        Some(-(DigitsValue(ds) as int));
      }
    } else {
      assert !(ds[0] == '-' || ds[0] == '+');
      calc {
        ParseInt(ShowInt(n));
        ParseInt(ds);
        Some(DigitsValue(ds) as int);
      }
    }
  }

  /** The printed form of an integer is itself a token. */
  lemma ShowIntWord(n: int)
    ensures IsWord(ShowInt(n))
  {
    var s := ShowNat(if n < 0 then -n else n);
    assert forall i :: 0 <= i < |s| ==> !IsSpace(s[i]) by {
      forall i | 0 <= i < |s| ensures !IsSpace(s[i]) { assert IsDigit(s[i]); }
    }
    if n < 0 {
      assert forall i :: 1 <= i < |ShowInt(n)| ==> ShowInt(n)[i] == s[i - 1];
    }
  }
}
