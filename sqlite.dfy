/**
 * The SQLite-backed store of sqlite/sqlite.go: the prefix and suffix records,
 * and a Store object whose state is the two tables (Chain.Tables). Each
 * method is proved against the function of Chain that states what it does.
 */
module Sqlite {
  import opened Wrappers
  import opened GoStrings
  import opened Tuple
  import opened Chain

  /** A prefix as the store reads and writes it. */
  class SQLPrefix {
    var ID: int
    var T: TextTuple
    var O: int
    var A: string

    constructor (t: TextTuple, o: int, a: string)
      ensures ID == 0 && T == t && O == o && A == a
    {
      ID := 0;
      T := t;
      O := o;
      A := a;
    }

    /** "author(order): words": the author, the order in decimal and the tuple's text. */
    function String(): (s: string)
      reads this, T, T.e
      ensures |s| == |A| + 1 + |Decimal(O)| + 3 + |T.String()|
      ensures s[..|A|] == A && s[|A|] == '('
      ensures ParseDecimal(s[|A| + 1..|A| + 1 + |Decimal(O)|]) == Some(O)
      ensures s[|A| + 1 + |Decimal(O)|..|s| - |T.String()|] == "): "
      ensures s[|s| - |T.String()|..] == T.String()
    {
      DecimalRoundTrip(O);
      var head, num, tail := A + "(", Decimal(O), "): " + T.String();
      ConcatSlices(head, num, tail);
      ConcatSlices(A, "(", []);
      ConcatSlices("): ", T.String(), []);
      head + num + tail
    }

    /** Words: a new array holding the tuple's words, so that growing the
        output leaves the tuple alone. */
    method Words() returns (w: array<string>)
      ensures fresh(w) && w[..] == T.e[..]
    {
      w := new string[T.e.Length];
      forall i | 0 <= i < w.Length {
        w[i] := T.e[i];
      }
    }
  }

  /** A suffix row as the store writes it. */
  class SQLSuffix {
    var ID: int
    var Prefix: int
    var Word: string
    var Count: int

    constructor (prefix: int, word: string, count: int)
      ensures ID == 0 && Prefix == prefix && Word == word && Count == count
    {
      ID := 0;
      Prefix := prefix;
      Word := word;
      Count := count;
    }

    /** "word(count)": the word, then its count in decimal within parentheses. */
    function String(): (s: string)
      reads this
      ensures |s| == |Word| + 2 + |Decimal(Count)|
      ensures s[..|Word|] == Word && s[|Word|] == '(' && s[|s| - 1] == ')'
      ensures ParseDecimal(s[|Word| + 1..|s| - 1]) == Some(Count)
    {
      DecimalRoundTrip(Count);
      var head, num := Word + "(", Decimal(Count);
      ConcatSlices(head, num, ")");
      ConcatSlices(Word, "(", []);
      head + num + ")"
    }
  }

  /** Scanning a prefix row into an SQLPrefix: the tuple column is decoded by
      the tuple's own decoder, which splits the stored text into its words. */
  method ScanPrefix(t: Tables, found: PrefixRecord) returns (p: SQLPrefix)
    requires ReadBack(t, found)
    ensures fresh(p) && fresh(p.T) && fresh(p.T.e) && p.T.Valid()
    ensures p.T.e[..] == found.words && p.ID == found.id && p.O == found.ord && p.A == found.author
  {
    var tt := new TextTuple(0);
    tt.UnmarshalBinary(t.tuples[found.id - 1].tuple);
    p := new SQLPrefix(tt, found.ord, found.author);
    p.ID := found.id;
  }

  /** The database behind the store: the tuples and suffixes tables. */
  class Store {
    var tables: Tables

    /** The unique constraints hold, every suffix row names a prefix row, every
        count is at least one and every prefix text holds a word. */
    ghost predicate Valid()
      reads this
    {
      Chain.Valid(tables) && CountsPositive(tables) && PrefixTextsHaveWords(tables)
    }

    /** A newly created database: both tables empty. */
    constructor ()
      ensures tables == Empty && Valid()
    {
      tables := Empty;
    }

    /** AddPrefix: insert the prefix or find the row that has its text and
        author, and write the rowid into p.ID. */
    method AddPrefix(p: SQLPrefix)
      requires p.ID == 0
      modifies this, p
      ensures p.T == old(p.T) && p.O == old(p.O) && p.A == old(p.A)
      ensures (tables, p.ID) == AddPrefixRow(old(tables), PrefixRow(p.T.String(), p.O, p.A))
    {
      var (t1, id) := AddPrefixRow(tables, PrefixRow(p.T.String(), p.O, p.A));
      tables := t1;
      p.ID := id;
    }

    /** IncrementSuffix: insert the suffix with its count, or add one to the
        count of the row with its prefix and word; suf.ID is written only on
        an insert. */
    method IncrementSuffix(suf: SQLSuffix)
      requires suf.ID == 0
      modifies this, suf
      ensures suf.Prefix == old(suf.Prefix) && suf.Word == old(suf.Word) && suf.Count == old(suf.Count)
      ensures tables == IncrementSuffixRow(old(tables), suf.Prefix, suf.Word, suf.Count).0
      ensures suf.ID == match IncrementSuffixRow(old(tables), suf.Prefix, suf.Word, suf.Count).1
                        case Some(id) => id
                        case None => 0
    {
      var (t1, id) := IncrementSuffixRow(tables, suf.Prefix, suf.Word, suf.Count);
      tables := t1;
      if id.Some? {
        suf.ID := id.value;
      }
    }

    /** processTuple: record the prefix, then one more occurrence of the word after it. */
    method ProcessTuple(t: SQLPrefix, suf: string)
      requires t.ID == 0
      modifies this, t
      ensures t.T == old(t.T) && t.O == old(t.O) && t.A == old(t.A)
      ensures tables == Chain.ProcessTuple(old(tables), PrefixRow(t.T.String(), t.O, t.A), suf)
      ensures t.ID == AddPrefixRow(old(tables), PrefixRow(t.T.String(), t.O, t.A)).1
    {
      AddPrefix(t);
      var ssuf := new SQLSuffix(t.ID, suf, 1);
      IncrementSuffix(ssuf);
    }

    /** The words of one line: the first `order` are only shifted into the
        working tuple; each later word is recorded after a copy of the tuple
        as it stands, then shifted in. The word counter starts afresh for the
        line, while the tuple keeps what earlier lines left in it. */
    method IngestLine(pre: TextTuple, ws: seq<string>, auth: string)
      requires pre.Valid() && pre.e.Length >= 1
      modifies this, pre.e
      ensures tables == ApplyObservations(old(tables), LineObservations(ws, pre.e.Length), pre.e.Length, auth)
      ensures pre.e[..] == ShiftAll(old(pre.e[..]), ws, Forward)
    {
      var ord := pre.e.Length;
      var words := 0;
      ghost var before := tables;
      ghost var initial := pre.e[..];
      for k := 0 to |ws|
        invariant words == k
        invariant pre.Valid() && pre.e.Length == ord
        invariant pre.e[..] == ShiftAll(initial, ws[..k], Forward)
        invariant ApplyObservations(before, LineObservations(ws, ord), ord, auth) ==
                  ApplyObservations(tables, Pending(ws, ord, k), ord, auth)
      {
        ShiftAllTake(initial, ws, k, Forward);
        words := words + 1;
        if words < ord + 1 {
          pre.Shift(ws[k], Forward);
          continue;
        }
        assert pre.e[..] == ws[k - ord..k] by {
          ForwardShiftsForget(initial, ws[..k]);
          assert ws[..k][k - ord..] == ws[k - ord..k];
        }
        ghost var t0 := tables;
        var snapshot := pre.Copy();
        assert snapshot.e[..] == ws[k - ord..k];
        var p := new SQLPrefix(snapshot, ord, auth);
        assert p.T.String() == Join(ws[k - ord..k]);
        ProcessTuple(p, ws[k]);
        assert tables == Chain.ProcessTuple(t0, PrefixRow(Join(ws[k - ord..k]), ord, auth), ws[k]);
        PendingStep(t0, ws, ord, auth, k);
        pre.Shift(ws[k], Forward);
      }
      assert ws[..|ws|] == ws;
    }

    /** Ingest the lines: per line, take the author, split the content into
        words, shift the first `order` words into the working tuple and, for
        every later word, record (a copy of the tuple, the word) before
        shifting the word in. The working tuple carries over from line to line. */
    method Ingest(lines: seq<string>, order: int, author: string) returns (r: IngestResult)
      requires order >= 1
      modifies this
      ensures (tables, r) == IngestLines(old(tables), lines, order, author, 0)
      ensures old(Valid()) ==> Valid()
    {
      ghost var start := tables;
      ghost var wasValid := Valid();
      var ord := order;
      var pre := new TextTuple(ord);
      for i := 0 to |lines|
        invariant fresh(pre) && fresh(pre.e) && pre.Valid() && pre.e.Length == ord
        invariant IngestLines(start, lines, ord, author, 0) == IngestLines(tables, lines[i..], ord, author, i)
      {
        var t := lines[i];
        var auth := author;
        if author == "" {
          var spl := SplitAtSpace(t);
          if spl.None? {
            // strings.SplitN leaves no spl[1]: the Go code panics here.
            r := MissingAuthor(i);
            if wasValid {
              IngestLinesKeeps(start, lines, ord, author, 0);
            }
            return;
          }
          auth := spl.value.0;
          t := spl.value.1;
        }
        assert LineParts(lines[i..][0], author) == Some((auth, t));
        IngestLine(pre, Fields(t), auth);
        assert lines[i..][1..] == lines[i + 1..];
      }
      r := Ingested;
      if wasValid {
        IngestLinesKeeps(start, lines, ord, author, 0);
      }
    }

    /** The start of Generate: the first prefix PrefixContaining returns for
        the first seed word, or, without seed words, RandomPrefix. */
    method StartPrefix(seeds: seq<string>, matches: (Query, string) -> bool, startDraw: nat)
      returns (start: Result<PrefixRecord, GenError>)
      ensures start == Chain.StartPrefix(tables, seeds, matches, startDraw)
    {
      if |seeds| > 0 {
        var ps := PrefixContaining(tables, seeds[0], matches);
        if ps.Failure? {
          return Failure(ps.error);
        }
        start := Success(ps.value[0]);
      } else {
        start := RandomPrefix(tables, startDraw);
      }
    }

    /** The loop of Generate: ask for a random suffix of the tuple's window,
        append it to the words and shift it into the tuple, until the window
        has no suffix. draws(i) is the random choice of the i-th request, and
        fuel bounds the number of requests. */
    method Continue(p: SQLPrefix, words: seq<string>, matches: (Query, string) -> bool,
                    draws: nat -> nat, fuel: nat) returns (r: Result<seq<string>, GenError>)
      requires p.T.e.Length >= 1 && p.T.e[..] == words
      modifies p.T.e
      ensures r == Chain.Walk(tables, words, |words|, matches, draws, 0, fuel)
    {
      var tbl := tables;
      var order := p.T.e.Length;
      var out := words;
      var step := 0;
      var left := fuel;
      while true
        invariant p.T.e.Length == order && |out| >= order
        invariant p.T.e[..] == Window(out, order)
        invariant Chain.Walk(tbl, words, order, matches, draws, 0, fuel) ==
                  Chain.Walk(tbl, out, order, matches, draws, step, left)
        decreases left
      {
        if left == 0 {
          return Failure(OutOfFuel);
        }
        var sf := RandomSuffix(tbl, p.T.String(), matches, draws(step));
        if sf.Failure? {
          // RandomSuffix reports only ErrNoSuffixes, which ends the walk.
          WalkStops(tbl, out, order, matches, draws, step, left);
          break;
        }
        WalkStep(tbl, out, order, matches, draws, step, left, sf.value);
        WindowSnoc(out, sf.value.word, order);
        out := out + [sf.value.word];
        p.T.Shift(sf.value.word, Forward);
        step := step + 1;
        left := left - 1;
      }
      r := Success(out);
    }

    /** Generate: start from the first prefix containing the first seed word
        (or a random prefix), walk the chain from its words, and write the
        words joined by single spaces. */
    method Generate(seeds: seq<string>, matches: (Query, string) -> bool, startDraw: nat,
                    draws: nat -> nat, fuel: nat) returns (r: Result<string, GenError>)
      requires Valid()
      ensures r == GenerateText(tables, seeds, matches, startDraw, draws, fuel)
    {
      var start := StartPrefix(seeds, matches, startDraw);
      if start.Failure? {
        return Failure(start.error);
      }
      var p := ScanPrefix(tables, start.value);
      var words := p.Words();
      var walk := Continue(p, words[..], matches, draws, fuel);
      match walk
      case Failure(e) => r := Failure(e);
      case Success(ws) => r := Success(Join(ws));
    }
  }
}
