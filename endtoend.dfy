/** Ingest then Generate, end to end: a line ingested into an empty store and
    generated again from a seed found in its first window comes back
    unchanged, whatever the random draws, as long as no two of its windows
    hold the same words. */
module EndToEnd {
  import opened Wrappers
  import opened GoStrings
  import opened Chain

  /** The words p occur one after another in t from word k on. */
  predicate PhraseAt(p: seq<string>, t: seq<string>, k: int) {
    0 <= k && k + |p| <= |t| && t[k..k + |p|] == p
  }

  /** The words p occur one after another somewhere in t. */
  predicate PhraseIn(p: seq<string>, t: seq<string>) {
    exists k :: 0 <= k <= |t| - |p| && PhraseAt(p, t, k)
  }

  /** A full-text match on whole, case-sensitive tokens: a bare-word query
      needs each of its words in the text, a phrase query needs its words in
      a row. */
  predicate WordMatch(q: Query, text: string) {
    match q
    case Tokens(s) => forall f :: f in Fields(s) ==> f in Fields(text)
    case Phrase(s) => PhraseIn(Fields(s), Fields(text))
  }

  /** The `order` words of ws from word j on. */
  function WindowAt(ws: seq<string>, order: nat, j: nat): seq<string>
    requires j + order <= |ws|
  {
    ws[j..j + order]
  }

  /** No two windows of the line, the last one included, hold the same words. */
  ghost predicate DistinctWindows(ws: seq<string>, order: nat)
    requires order <= |ws|
  {
    forall j, k :: 0 <= j < k <= |ws| - order ==> WindowAt(ws, order, j) != WindowAt(ws, order, k)
  }

  /** The tables after the first j observations of the line: prefix row i
      holds window i, and suffix row i records the word after it once. */
  function Built(ws: seq<string>, order: nat, author: string, j: nat): Tables
    requires j + order <= |ws|
  {
    Tables(seq(j, i requires 0 <= i < j => PrefixRow(Join(WindowAt(ws, order, i)), order, author)),
           seq(j, i requires 0 <= i < j => SuffixRow(i + 1, ws[i + order], 1)))
  }

  /** Lists of fields with the same text are the same. */
  lemma JoinInjective(a: seq<string>, b: seq<string>)
    requires AllFields(a) && AllFields(b) && Join(a) == Join(b)
    ensures a == b
  {
    FieldsJoinRoundTrip(a);
    FieldsJoinRoundTrip(b);
  }

  lemma WindowFields(ws: seq<string>, order: nat, j: nat)
    requires AllFields(ws) && j + order <= |ws|
    ensures AllFields(WindowAt(ws, order, j))
  {
    var w := WindowAt(ws, order, j);
    forall i | 0 <= i < |w| ensures IsField(w[i]) {
      assert w[i] == ws[j + i];
    }
  }

  /** A new window is a new prefix row, with the next rowid. */
  lemma BuiltAddPrefix(ws: seq<string>, order: nat, author: string, j: nat)
    requires j + order < |ws| && AllFields(ws) && DistinctWindows(ws, order)
    ensures var t := Built(ws, order, author, j);
      AddPrefixRow(t, PrefixRow(Join(WindowAt(ws, order, j)), order, author)) ==
      (Tables(Built(ws, order, author, j + 1).tuples, t.suffixes), j + 1)
  {
    var t := Built(ws, order, author, j);
    var row := PrefixRow(Join(WindowAt(ws, order, j)), order, author);
    forall i | 0 <= i < |t.tuples| ensures t.tuples[i].tuple != row.tuple {
      WindowFields(ws, order, i);
      WindowFields(ws, order, j);
      if Join(WindowAt(ws, order, i)) == Join(WindowAt(ws, order, j)) {
        JoinInjective(WindowAt(ws, order, i), WindowAt(ws, order, j));
      }
    }
    assert t.tuples + [row] == Built(ws, order, author, j + 1).tuples;
  }

  /** The word after a new window is a new suffix row with count 1. */
  lemma BuiltIncrementSuffix(ws: seq<string>, order: nat, author: string, j: nat)
    requires j + order < |ws|
    ensures var t := Built(ws, order, author, j);
      IncrementSuffixRow(Tables(Built(ws, order, author, j + 1).tuples, t.suffixes), j + 1, ws[j + order], 1).0 ==
      Built(ws, order, author, j + 1)
  {
    var t := Built(ws, order, author, j);
    assert !HasSuffix(t.suffixes, j + 1, ws[j + order]);
    assert t.suffixes + [SuffixRow(j + 1, ws[j + order], 1)] == Built(ws, order, author, j + 1).suffixes;
  }

  /** One more observation of the line: one more prefix row and one more
      suffix row. */
  lemma BuiltStep(ws: seq<string>, order: nat, author: string, j: nat)
    requires j + order < |ws| && AllFields(ws) && DistinctWindows(ws, order)
    ensures ProcessTuple(Built(ws, order, author, j), PrefixRow(Join(WindowAt(ws, order, j)), order, author), ws[j + order]) ==
            Built(ws, order, author, j + 1)
  {
    BuiltAddPrefix(ws, order, author, j);
    BuiltIncrementSuffix(ws, order, author, j);
  }

  lemma {:induction false} ApplyBuilt(ws: seq<string>, order: nat, author: string, j: nat)
    requires j + order <= |ws| && AllFields(ws) && DistinctWindows(ws, order)
    ensures ApplyObservations(Built(ws, order, author, j), LineObservations(ws, order)[j..], order, author) ==
            Built(ws, order, author, |ws| - order)
    decreases |ws| - order - j
  {
    var obs := LineObservations(ws, order);
    if j + order < |ws| {
      var t, row, w := Built(ws, order, author, j), PrefixRow(Join(WindowAt(ws, order, j)), order, author), ws[j + order];
      assert ApplyObservations(t, obs[j..], order, author) == ApplyObservations(ProcessTuple(t, row, w), obs[j + 1..], order, author) by {
        LineObservationsSpec(ws, order);
        assert obs[j..][0] == Observation(WindowAt(ws, order, j), ws[j + order]);
        assert obs[j..][1..] == obs[j + 1..];
      }
      assert ProcessTuple(t, row, w) == Built(ws, order, author, j + 1) by {
        BuiltStep(ws, order, author, j);
      }
      ApplyBuilt(ws, order, author, j + 1);
    } else {
      assert obs[j..] == [];
    }
  }

  /** Ingesting the line into an empty store builds one prefix row per window
      and one suffix row per observation. */
  lemma IngestBuilds(ws: seq<string>, order: nat, author: string)
    requires order <= |ws| && AllFields(ws) && author != "" && DistinctWindows(ws, order)
    ensures IngestLines(Empty, [Join(ws)], order, author, 0) == (Built(ws, order, author, |ws| - order), Ingested)
  {
    FieldsJoinRoundTrip(ws);
    assert Built(ws, order, author, 0) == Empty;
    ApplyBuilt(ws, order, author, 0);
    assert LineObservations(ws, order)[0..] == LineObservations(ws, order);
    assert [Join(ws)][1..] == [];
  }

  /** The text of window i matches window k as a phrase exactly when i is k. */
  lemma PhraseMatchesOwnWindow(ws: seq<string>, order: nat, i: nat, k: nat)
    requires order <= |ws| && AllFields(ws) && DistinctWindows(ws, order)
    requires i <= |ws| - order && k <= |ws| - order
    ensures WordMatch(Phrase(Join(WindowAt(ws, order, i))), Join(WindowAt(ws, order, k))) <==> i == k
  {
    var a := WindowAt(ws, order, i);
    var b := WindowAt(ws, order, k);
    WindowFields(ws, order, i);
    WindowFields(ws, order, k);
    FieldsJoinRoundTrip(a);
    FieldsJoinRoundTrip(b);
    if PhraseIn(a, b) {
      var x :| 0 <= x <= |b| - |a| && PhraseAt(a, b, x);
      assert b[0..|a|] == b;
    }
    if i == k {
      assert b[0..|a|] == a;
      assert PhraseAt(a, b, 0);
    }
  }

  /** The phrase of window i finds prefix row i, and the last window finds none. */
  lemma FirstPhraseMatch(ws: seq<string>, order: nat, author: string, i: nat)
    requires order <= |ws| && AllFields(ws) && DistinctWindows(ws, order) && i <= |ws| - order
    ensures FirstMatch(Built(ws, order, author, |ws| - order).tuples, Phrase(Join(WindowAt(ws, order, i))), WordMatch) ==
            if i < |ws| - order then Some(i + 1) else None
  {
    var rows := Built(ws, order, author, |ws| - order).tuples;
    var q := Phrase(Join(WindowAt(ws, order, i)));
    forall k | 0 <= k < |rows| ensures WordMatch(q, rows[k].tuple) <==> k == i {
      PhraseMatchesOwnWindow(ws, order, i, k);
    }
    FirstMatchSpec(rows, q, WordMatch);
    if i < |rows| {
      assert WordMatch(q, rows[i].tuple);
    }
  }

  /** Prefix row i has exactly one suffix row: the word after window i. */
  lemma SingleSuffix(ws: seq<string>, order: nat, author: string, i: nat)
    requires order <= |ws| && i < |ws| - order
    ensures var candidates := SuffixesOf(Built(ws, order, author, |ws| - order).suffixes, i + 1);
      candidates != [] && forall s :: s in candidates ==> s == SuffixRow(i + 1, ws[i + order], 1)
  {
    var t := Built(ws, order, author, |ws| - order);
    var candidates := SuffixesOf(t.suffixes, i + 1);
    SuffixesOfSpec(t.suffixes, i + 1);
    assert t.suffixes[i] in candidates;
    forall s | s in candidates ensures s == SuffixRow(i + 1, ws[i + order], 1) {
      var k :| 0 <= k < |t.suffixes| && t.suffixes[k] == s;
    }
  }

  /** Window i has one suffix row, so every draw picks the word after it. */
  lemma OnlySuffix(ws: seq<string>, order: nat, author: string, i: nat, draw: nat)
    requires order <= |ws| && AllFields(ws) && DistinctWindows(ws, order) && i < |ws| - order
    ensures RandomSuffix(Built(ws, order, author, |ws| - order), Join(WindowAt(ws, order, i)), WordMatch, draw) ==
            Success(SuffixRow(i + 1, ws[i + order], 1))
  {
    FirstPhraseMatch(ws, order, author, i);
    SingleSuffix(ws, order, author, i);
    var candidates := SuffixesOf(Built(ws, order, author, |ws| - order).suffixes, i + 1);
    assert candidates[draw % |candidates|] in candidates;
  }

  /** The last window of the line is no prefix row, so the walk stops there. */
  lemma LastWindowStops(ws: seq<string>, order: nat, author: string, draw: nat)
    requires order <= |ws| && AllFields(ws) && DistinctWindows(ws, order)
    ensures RandomSuffix(Built(ws, order, author, |ws| - order), Join(WindowAt(ws, order, |ws| - order)), WordMatch, draw) ==
            Failure(NoSuffixes)
  {
    FirstPhraseMatch(ws, order, author, |ws| - order);
  }

  /** A walk whose window offers the next word of the line takes that word. */
  lemma WalkAlongStep(t: Tables, ws: seq<string>, order: nat, matches: (Query, string) -> bool,
                      draws: nat -> nat, start: nat, i: nat, fuel: nat)
    requires order <= |ws| && i < |ws| - order && fuel > 0
    requires RandomSuffix(t, Join(WindowAt(ws, order, i)), matches, draws(start + i)) == Success(SuffixRow(i + 1, ws[i + order], 1))
    ensures Walk(t, ws[..order + i], order, matches, draws, start + i, fuel) ==
            Walk(t, ws[..order + (i + 1)], order, matches, draws, start + (i + 1), fuel - 1)
  {
    var words := ws[..order + i];
    assert Window(words, order) == WindowAt(ws, order, i);
    WalkStep(t, words, order, matches, draws, start + i, fuel, SuffixRow(i + 1, ws[i + order], 1));
    assert words + [ws[i + order]] == ws[..order + (i + 1)];
  }

  /** A walk that has reached the last window, which offers nothing, ends with the line. */
  lemma WalkAlongStop(t: Tables, ws: seq<string>, order: nat, matches: (Query, string) -> bool,
                      draws: nat -> nat, start: nat, fuel: nat)
    requires order <= |ws| && fuel > 0
    requires RandomSuffix(t, Join(WindowAt(ws, order, |ws| - order)), matches, draws(start + (|ws| - order))).Failure?
    ensures Walk(t, ws[..|ws|], order, matches, draws, start + (|ws| - order), fuel) == Success(ws)
  {
    var words := ws[..|ws|];
    assert Window(words, order) == WindowAt(ws, order, |ws| - order);
    WalkStops(t, words, order, matches, draws, start + (|ws| - order), fuel);
    assert words == ws;
  }

  /** If each position hands its value on to the next, with one unit of fuel
      spent, and the last position yields v, then every earlier position yields v. */
  lemma {:induction false} HandsOn<T>(f: (nat, nat) -> T, i: nat, n: nat, fuel: nat, v: T)
    requires i <= n && fuel > n - i
    requires forall k: nat, fu: nat :: i <= k < n && fu > 0 ==> f(k, fu) == f(k + 1, fu - 1)
    requires forall fu: nat :: fu > 0 ==> f(n, fu) == v
    ensures f(i, fuel) == v
    decreases n - i
  {
    if i < n {
      HandsOn(f, i + 1, n, fuel - 1, v);
    }
  }

  /** The walk over the line's words, started at window k with the draws from step k on. */
  function WalkFrom(t: Tables, ws: seq<string>, order: nat, matches: (Query, string) -> bool,
                    draws: nat -> nat, k: nat, fuel: nat): Result<seq<string>, GenError>
  {
    if order + k <= |ws| then Walk(t, ws[..order + k], order, matches, draws, k, fuel) else Failure(OutOfFuel)
  }

  lemma WalkAlongSteps(t: Tables, ws: seq<string>, order: nat, matches: (Query, string) -> bool,
                       draws: nat -> nat, n: nat)
    requires n == |ws| - order && order <= |ws|
    requires forall k :: 0 <= k < n ==>
      RandomSuffix(t, Join(WindowAt(ws, order, k)), matches, draws(0 + k)) == Success(SuffixRow(k + 1, ws[k + order], 1))
    ensures forall k: nat, fu: nat :: k < n && fu > 0 ==>
      WalkFrom(t, ws, order, matches, draws, k, fu) == WalkFrom(t, ws, order, matches, draws, k + 1, fu - 1)
  {
    forall k: nat, fu: nat | k < n && fu > 0
      ensures WalkFrom(t, ws, order, matches, draws, k, fu) == WalkFrom(t, ws, order, matches, draws, k + 1, fu - 1)
    {
      WalkAlongStep(t, ws, order, matches, draws, 0, k, fu);
    }
  }

  lemma WalkAlongEnd(t: Tables, ws: seq<string>, order: nat, matches: (Query, string) -> bool,
                     draws: nat -> nat, n: nat)
    requires n == |ws| - order && order <= |ws|
    requires RandomSuffix(t, Join(WindowAt(ws, order, n)), matches, draws(0 + n)).Failure?
    ensures forall fu: nat :: fu > 0 ==> WalkFrom(t, ws, order, matches, draws, n, fu) == Success(ws)
  {
    forall fu: nat | fu > 0 ensures WalkFrom(t, ws, order, matches, draws, n, fu) == Success(ws) {
      WalkAlongStop(t, ws, order, matches, draws, 0, fu);
    }
  }

  /** A walk over tables that, at every window of the line, offer exactly the
      next word of the line, and nothing at its last window, replays the line. */
  lemma WalkAlong(t: Tables, ws: seq<string>, order: nat, matches: (Query, string) -> bool,
                  draws: nat -> nat, fuel: nat)
    requires order <= |ws| && fuel > |ws| - order
    requires forall k :: 0 <= k < |ws| - order ==>
      RandomSuffix(t, Join(WindowAt(ws, order, k)), matches, draws(0 + k)) == Success(SuffixRow(k + 1, ws[k + order], 1))
    requires RandomSuffix(t, Join(WindowAt(ws, order, |ws| - order)), matches, draws(0 + (|ws| - order))).Failure?
    ensures Walk(t, ws[..order], order, matches, draws, 0, fuel) == Success(ws)
  {
    var n := |ws| - order;
    WalkAlongSteps(t, ws, order, matches, draws, n);
    WalkAlongEnd(t, ws, order, matches, draws, n);
    HandsOn((k: nat, fu: nat) => WalkFrom(t, ws, order, matches, draws, k, fu), 0, n, fuel, Success(ws));
    assert ws[..order + 0] == ws[..order];
  }

  /** From the first window on, the walk over the ingested line appends the
      rest of the line and stops. */
  lemma WalkReplays(ws: seq<string>, order: nat, author: string, draws: nat -> nat, fuel: nat)
    requires order <= |ws| && AllFields(ws) && DistinctWindows(ws, order)
    requires fuel > |ws| - order
    ensures Walk(Built(ws, order, author, |ws| - order), ws[..order], order, WordMatch, draws, 0, fuel) == Success(ws)
  {
    var t := Built(ws, order, author, |ws| - order);
    forall k | 0 <= k < |ws| - order
      ensures RandomSuffix(t, Join(WindowAt(ws, order, k)), WordMatch, draws(0 + k)) == Success(SuffixRow(k + 1, ws[k + order], 1))
    {
      OnlySuffix(ws, order, author, k, draws(0 + k));
    }
    LastWindowStops(ws, order, author, draws(0 + (|ws| - order)));
    WalkAlong(t, ws, order, WordMatch, draws, fuel);
  }

  /** A seed whose words all lie in the first window starts at prefix row 1. */
  lemma StartAtFirstWindow(ws: seq<string>, order: nat, author: string, seed: string, draw: nat)
    requires order < |ws| && AllFields(ws) && DistinctWindows(ws, order)
    requires forall f :: f in Fields(seed) ==> f in ws[..order]
    ensures var r := StartPrefix(Built(ws, order, author, |ws| - order), [seed], WordMatch, draw);
      r.Success? && r.value.id == 1 && r.value.words == ws[..order]
  {
    var t := Built(ws, order, author, |ws| - order);
    WindowFields(ws, order, 0);
    FieldsJoinRoundTrip(WindowAt(ws, order, 0));
    assert WindowAt(ws, order, 0) == ws[..order];
    assert WordMatch(Tokens(seed), t.tuples[0].tuple);
    FirstMatchSpec(t.tuples, Tokens(seed), WordMatch);
  }

  /** Ingest of the line into an empty store, then Generate from the seed,
      writes the line again: the round trip of TestIngestGenerate, for every
      line whose windows are distinct and every sequence of draws. */
  lemma IngestThenGenerate(ws: seq<string>, order: nat, author: string, seed: string,
                           startDraw: nat, draws: nat -> nat, fuel: nat)
    requires 1 <= order < |ws| && AllFields(ws) && author != "" && DistinctWindows(ws, order)
    requires forall f :: f in Fields(seed) ==> f in ws[..order]
    requires fuel > |ws| - order
    ensures IngestLines(Empty, [Join(ws)], order, author, 0).1 == Ingested
    ensures GenerateText(IngestLines(Empty, [Join(ws)], order, author, 0).0, [seed], WordMatch, startDraw, draws, fuel) ==
            Success(Join(ws))
  {
    IngestBuilds(ws, order, author);
    StartAtFirstWindow(ws, order, author, seed, startDraw);
    WalkReplays(ws, order, author, draws, fuel);
  }

  /** The words of the sentence TestIngestGenerate ingests. */
  function TestWords(): seq<string> {
    ["user", "The", "quick", "brown", "fox", "jumps", "over", "the", "lazy", "dog"]
  }

  /** A non-empty run of ASCII letters is a field. */
  lemma LettersAreField(w: string)
    requires w != [] && forall i :: 0 <= i < |w| ==> 'A' <= w[i] <= 'Z' || 'a' <= w[i] <= 'z'
    ensures IsField(w)
  {
  }

  lemma TestWordsAreFields()
    ensures AllFields(TestWords())
  {
    var ws := TestWords();
    forall i | 0 <= i < |ws| ensures IsField(ws[i]) {
      LettersAreField(ws[i]);
    }
  }

  /** The seed the test generates from, as its words. */
  function TestSeed(): seq<string> {
    ["The", "quick"]
  }

  /** The seed splits into words of the first window. */
  lemma TestSeedInFirstWindow()
    ensures forall f :: f in Fields(Join(TestSeed())) ==> f in TestWords()[..3]
  {
    var seed := TestSeed();
    assert AllFields(seed) by {
      LettersAreField(seed[0]);
      LettersAreField(seed[1]);
    }
    assert Fields(Join(seed)) == seed by {
      FieldsJoinRoundTrip(seed);
    }
    assert TestWords()[..3] == ["user"] + seed;
  }

  lemma TestWindowsDistinct()
    ensures DistinctWindows(TestWords(), 3)
  {
    var ws := TestWords();
    forall j, k | 0 <= j < k <= |ws| - 3 ensures WindowAt(ws, 3, j) != WindowAt(ws, 3, k) {
      assert WindowAt(ws, 3, j)[0] == ws[j] && WindowAt(ws, 3, k)[0] == ws[k];
    }
  }

  /** TestIngestGenerate: the line "user The quick brown fox jumps over the
      lazy dog" (the test words joined by single spaces) ingested with author
      "test" and order 3, then generated from the seed "The quick", comes back
      whole, whatever the random draws. */
  lemma TestIngestGenerate(startDraw: nat, draws: nat -> nat, fuel: nat)
    requires fuel > 7
    ensures var (txt, seed) := (Join(TestWords()), Join(TestSeed()));
      var (t, r) := IngestLines(Empty, [txt], 3, "test", 0);
      r == Ingested && GenerateText(t, [seed], WordMatch, startDraw, draws, fuel) == Success(txt)
  {
    var ws := TestWords();
    TestWordsAreFields();
    TestWindowsDistinct();
    TestSeedInFirstWindow();
    IngestThenGenerate(ws, 3, "test", Join(TestSeed()), startDraw, draws, fuel);
  }
}
