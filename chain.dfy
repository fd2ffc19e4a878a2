/**
 * The chain store of sqlite/sqlite.go with its SQL tables replaced by values.
 *
 * The tuples table and the suffixes table are sequences of rows; the row at
 * position i has rowid i + 1, which is what SQLite assigns to an INTEGER
 * PRIMARY KEY when nothing is ever deleted (a new row gets the largest rowid
 * plus one, and an insert refused by a constraint uses up no rowid). The
 * UNIQUE(tuple, author) and UNIQUE(tuple, word) constraints of
 * sqlite/schema.go are the lookups FindPrefix and FindSuffix.
 *
 * The full-text index (tuples_idx) is a parameter `matches`: whether the tuple
 * text of a prefix row matches a query. Random choices are parameters too.
 */
module Chain {
  import opened Wrappers
  import opened GoStrings
  import opened Tuple

  /** A row of the tuples table: the tuple's text, its order and its author. */
  datatype PrefixRow = PrefixRow(tuple: string, ord: int, author: string)

  /** A row of the suffixes table: the rowid of its prefix, the word and its count. */
  datatype SuffixRow = SuffixRow(prefix: int, word: string, count: int)

  datatype Tables = Tables(tuples: seq<PrefixRow>, suffixes: seq<SuffixRow>)

  /** The tables of a newly created database. */
  const Empty: Tables := Tables([], [])

  // ---------------------------------------------------------------------------
  // Keys and the unique constraints

  /** The rowid of the first row whose key is k: the row a lookup by key returns. */
  function Find<K(==)>(keys: seq<K>, k: K): (r: Option<nat>)
    ensures r.Some? ==> 1 <= r.value <= |keys| && keys[r.value - 1] == k
    ensures r.Some? ==> forall i :: 0 <= i < r.value - 1 ==> keys[i] != k
    ensures r.None? <==> k !in keys
  {
    if keys == [] then None
    else match Find(keys[..|keys| - 1], k)
      case Some(id) => Some(id)
      case None =>
        assert keys == keys[..|keys| - 1] + [keys[|keys| - 1]];
        if keys[|keys| - 1] == k then Some(|keys|) else None
  }

  /** No two rows share a key. */
  ghost predicate Distinct<K>(keys: seq<K>) {
    forall i, j :: 0 <= i < j < |keys| ==> keys[i] != keys[j]
  }

  function PrefixKeys(rows: seq<PrefixRow>): (keys: seq<(string, string)>)
  {
    seq(|rows|, i requires 0 <= i < |rows| => (rows[i].tuple, rows[i].author))
  }

  function SuffixKeys(rows: seq<SuffixRow>): (keys: seq<(int, string)>)
  {
    seq(|rows|, i requires 0 <= i < |rows| => (rows[i].prefix, rows[i].word))
  }

  /** UNIQUE(tuple, author): the rowid of the prefix with that text and author. */
  function FindPrefix(rows: seq<PrefixRow>, tuple: string, author: string): (r: Option<nat>)
    ensures r.Some? ==> 1 <= r.value <= |rows| && rows[r.value - 1].tuple == tuple && rows[r.value - 1].author == author
    ensures r.None? <==> forall i :: 0 <= i < |rows| ==> rows[i].tuple != tuple || rows[i].author != author
  {
    var keys := PrefixKeys(rows);
    assert forall i :: 0 <= i < |rows| ==> keys[i] == (rows[i].tuple, rows[i].author);
    assert (tuple, author) in keys ==> exists i :: 0 <= i < |rows| && keys[i] == (tuple, author);
    Find(keys, (tuple, author))
  }

  /** UNIQUE(tuple, word): the rowid of the suffix row of that prefix and word. */
  function FindSuffix(rows: seq<SuffixRow>, prefix: int, word: string): (r: Option<nat>)
    ensures r.Some? ==> 1 <= r.value <= |rows| && rows[r.value - 1].prefix == prefix && rows[r.value - 1].word == word
    ensures r.None? <==> forall i :: 0 <= i < |rows| ==> rows[i].prefix != prefix || rows[i].word != word
  {
    var keys := SuffixKeys(rows);
    assert forall i :: 0 <= i < |rows| ==> keys[i] == (rows[i].prefix, rows[i].word);
    assert (prefix, word) in keys ==> exists i :: 0 <= i < |rows| && keys[i] == (prefix, word);
    Find(keys, (prefix, word))
  }

  /** What the model keeps true of the tables: both unique constraints hold and
      every suffix row refers to an existing prefix row. */
  ghost predicate Valid(t: Tables) {
    && Distinct(PrefixKeys(t.tuples))
    && Distinct(SuffixKeys(t.suffixes))
    && forall i :: 0 <= i < |t.suffixes| ==> 1 <= t.suffixes[i].prefix <= |t.tuples|
  }

  /** Every stored count is at least one. */
  ghost predicate CountsPositive(t: Tables) {
    forall i :: 0 <= i < |t.suffixes| ==> t.suffixes[i].count >= 1
  }

  /** Every prefix text holds at least one word, so that a tuple read back from
      it can be shifted. */
  ghost predicate PrefixTextsHaveWords(t: Tables) {
    forall i :: 0 <= i < |t.tuples| ==> Fields(t.tuples[i].tuple) != []
  }

  lemma PrefixKeysAppend(rows: seq<PrefixRow>, row: PrefixRow)
    ensures PrefixKeys(rows + [row]) == PrefixKeys(rows) + [(row.tuple, row.author)]
  {
  }

  lemma SuffixKeysAppend(rows: seq<SuffixRow>, row: SuffixRow)
    ensures SuffixKeys(rows + [row]) == SuffixKeys(rows) + [(row.prefix, row.word)]
  {
  }

  lemma FindAppend<K>(keys: seq<K>, k: K, x: K)
    ensures Find(keys + [x], k) == if Find(keys, k).Some? then Find(keys, k) else if x == k then Some(|keys| + 1) else None
  {
    assert (keys + [x])[..|keys|] == keys;
  }

  // ---------------------------------------------------------------------------
  // AddPrefix, IncrementSuffix and processTuple on the tables

  /** AddPrefix: insert the row; when UNIQUE(tuple, author) refuses it, leave the
      tables as they are and answer the rowid of the row already there. The
      second component is the id written back into the prefix. */
  function AddPrefixRow(t: Tables, row: PrefixRow): (r: (Tables, nat))
    ensures r.0.suffixes == t.suffixes
    ensures 1 <= r.1 <= |r.0.tuples|
    ensures r.0.tuples[r.1 - 1].tuple == row.tuple && r.0.tuples[r.1 - 1].author == row.author
    ensures (exists i :: 0 <= i < |t.tuples| && t.tuples[i].tuple == row.tuple && t.tuples[i].author == row.author) ==>
              r.0 == t
    ensures (forall i :: 0 <= i < |t.tuples| ==> t.tuples[i].tuple != row.tuple || t.tuples[i].author != row.author) ==>
              r.0.tuples == t.tuples + [row] && r.1 == |t.tuples| + 1
    ensures Distinct(PrefixKeys(t.tuples)) ==> Distinct(PrefixKeys(r.0.tuples))
  {
    match FindPrefix(t.tuples, row.tuple, row.author)
    case Some(id) => (t, id)
    case None =>
      PrefixKeysAppend(t.tuples, row);
      (t.(tuples := t.tuples + [row]), |t.tuples| + 1)
  }

  /** True when some suffix row has the key (prefix, word). */
  predicate HasSuffix(rows: seq<SuffixRow>, prefix: int, word: string) {
    exists i :: 0 <= i < |rows| && rows[i].prefix == prefix && rows[i].word == word
  }

  /** `UPDATE suffixes SET count = count + 1 WHERE tuple = prefix AND word = word`. */
  function AddOne(rows: seq<SuffixRow>, prefix: int, word: string): (r: seq<SuffixRow>)
    ensures |r| == |rows| && SuffixKeys(r) == SuffixKeys(rows)
    ensures forall i :: 0 <= i < |rows| ==>
              && r[i].prefix == rows[i].prefix && r[i].word == rows[i].word
              && r[i].count == rows[i].count + (if rows[i].prefix == prefix && rows[i].word == word then 1 else 0)
  {
    var r := seq(|rows|, i requires 0 <= i < |rows| =>
      if rows[i].prefix == prefix && rows[i].word == word then rows[i].(count := rows[i].count + 1) else rows[i]);
    assert SuffixKeys(r) == SuffixKeys(rows);
    r
  }

  /** IncrementSuffix: insert (prefix, word) with the given count; when
      UNIQUE(tuple, word) refuses it, add one to the count of the row already
      there. The second component is the id written back into the suffix,
      which happens only on an insert. */
  function IncrementSuffixRow(t: Tables, prefix: int, word: string, count: int): (r: (Tables, Option<nat>))
    ensures r.0.tuples == t.tuples
    ensures !HasSuffix(t.suffixes, prefix, word) ==>
              r.0.suffixes == t.suffixes + [SuffixRow(prefix, word, count)] && r.1 == Some(|t.suffixes| + 1)
    ensures HasSuffix(t.suffixes, prefix, word) ==> |r.0.suffixes| == |t.suffixes| && r.1 == None
    ensures HasSuffix(t.suffixes, prefix, word) ==>
              forall i :: 0 <= i < |t.suffixes| ==>
                r.0.suffixes[i] == if t.suffixes[i].prefix == prefix && t.suffixes[i].word == word
                                   then t.suffixes[i].(count := t.suffixes[i].count + 1) else t.suffixes[i]
    ensures Distinct(SuffixKeys(t.suffixes)) ==> Distinct(SuffixKeys(r.0.suffixes))
  {
    if HasSuffix(t.suffixes, prefix, word) then
      (t.(suffixes := AddOne(t.suffixes, prefix, word)), None)
    else
      SuffixKeysAppend(t.suffixes, SuffixRow(prefix, word, count));
      (t.(suffixes := t.suffixes + [SuffixRow(prefix, word, count)]), Some(|t.suffixes| + 1))
  }

  /** processTuple: AddPrefix, then IncrementSuffix of (the prefix's rowid, word)
      with count 1. */
  function ProcessTuple(t: Tables, row: PrefixRow, word: string): (r: Tables)
    ensures Valid(t) ==> Valid(r)
    ensures CountsPositive(t) ==> CountsPositive(r)
    ensures |t.tuples| <= |r.tuples| <= |t.tuples| + 1 && r.tuples[..|t.tuples|] == t.tuples
    ensures |t.suffixes| <= |r.suffixes| <= |t.suffixes| + 1
  {
    var (t1, id) := AddPrefixRow(t, row);
    IncrementSuffixRow(t1, id, word, 1).0
  }

  /** The count of the suffix row (pid, w); 0 when there is no such row. */
  function CountAt(rows: seq<SuffixRow>, pid: int, w: string): int
  {
    match FindSuffix(rows, pid, w)
    case None => 0
    case Some(sid) => rows[sid - 1].count
  }

  /** The count stored for `w` after the prefix (tuple, author); 0 when there is no such row. */
  function SuffixCount(t: Tables, tuple: string, author: string, w: string): int
  {
    match FindPrefix(t.tuples, tuple, author)
    case None => 0
    case Some(pid) => CountAt(t.suffixes, pid, w)
  }

  /** Calling AddPrefix twice with the same text and author answers the same id
      and adds no second row. */
  lemma AddPrefixIdempotent(t: Tables, row: PrefixRow, again: PrefixRow)
    requires again.tuple == row.tuple && again.author == row.author
    ensures AddPrefixRow(AddPrefixRow(t, row).0, again) == AddPrefixRow(t, row)
  {
    var (t1, id) := AddPrefixRow(t, row);
    if FindPrefix(t.tuples, row.tuple, row.author).None? {
      PrefixKeysAppend(t.tuples, row);
      FindAppend(PrefixKeys(t.tuples), (row.tuple, row.author), (row.tuple, row.author));
    }
  }

  /** After AddPrefix on tables that satisfy the unique constraint, exactly one
      row has the text and author: the one whose rowid it answered. */
  lemma AddPrefixOneRow(t: Tables, row: PrefixRow)
    requires Distinct(PrefixKeys(t.tuples))
    ensures var (t1, id) := AddPrefixRow(t, row);
      forall i :: 0 <= i < |t1.tuples| && t1.tuples[i].tuple == row.tuple && t1.tuples[i].author == row.author ==> i == id - 1
  {
    var (t1, id) := AddPrefixRow(t, row);
    forall i | 0 <= i < |t1.tuples| && t1.tuples[i].tuple == row.tuple && t1.tuples[i].author == row.author
      ensures i == id - 1
    {
      assert PrefixKeys(t1.tuples)[i] == PrefixKeys(t1.tuples)[id - 1];
    }
  }

  /** After AddPrefix the text and author lead to the answered rowid; other keys lead where they did. */
  lemma AddPrefixFind(t: Tables, row: PrefixRow, tuple: string, author: string)
    ensures var (t1, id) := AddPrefixRow(t, row);
      FindPrefix(t1.tuples, tuple, author) ==
        if (tuple, author) == (row.tuple, row.author) then Some(id) else FindPrefix(t.tuples, tuple, author)
  {
    if FindPrefix(t.tuples, row.tuple, row.author).None? {
      PrefixKeysAppend(t.tuples, row);
      FindAppend(PrefixKeys(t.tuples), (tuple, author), (row.tuple, row.author));
    } else if (tuple, author) == (row.tuple, row.author) {
      assert PrefixKeys(t.tuples)[AddPrefixRow(t, row).1 - 1] == (tuple, author);
    }
  }

  /** IncrementSuffix with count 1 adds one to the count of its key and changes no other count. */
  lemma IncrementSuffixCount(t: Tables, prefix: int, word: string, pid: int, w: string)
    ensures CountAt(IncrementSuffixRow(t, prefix, word, 1).0.suffixes, pid, w) ==
            CountAt(t.suffixes, pid, w) + (if (pid, w) == (prefix, word) then 1 else 0)
  {
    if HasSuffix(t.suffixes, prefix, word) {
      IncrementExistingCount(t, prefix, word, pid, w);
    } else {
      IncrementNewCount(t, prefix, word, pid, w);
    }
  }

  /** The key is stored already: its count goes up by one, the keys stay. */
  lemma IncrementExistingCount(t: Tables, prefix: int, word: string, pid: int, w: string)
    requires HasSuffix(t.suffixes, prefix, word)
    ensures CountAt(IncrementSuffixRow(t, prefix, word, 1).0.suffixes, pid, w) ==
            CountAt(t.suffixes, pid, w) + (if (pid, w) == (prefix, word) then 1 else 0)
  {
    var rows := t.suffixes;
    var rows' := IncrementSuffixRow(t, prefix, word, 1).0.suffixes;
    assert FindSuffix(rows', pid, w) == FindSuffix(rows, pid, w) by {
      assert SuffixKeys(rows') == SuffixKeys(rows);
    }
  }

  /** The key is new: a row with count 1 is appended, the other rows stay. */
  lemma IncrementNewCount(t: Tables, prefix: int, word: string, pid: int, w: string)
    requires !HasSuffix(t.suffixes, prefix, word)
    ensures CountAt(IncrementSuffixRow(t, prefix, word, 1).0.suffixes, pid, w) ==
            CountAt(t.suffixes, pid, w) + (if (pid, w) == (prefix, word) then 1 else 0)
  {
    var rows := t.suffixes;
    var rows' := IncrementSuffixRow(t, prefix, word, 1).0.suffixes;
    assert rows' == rows + [SuffixRow(prefix, word, 1)];
    assert FindSuffix(rows', pid, w) == Find(SuffixKeys(rows) + [(prefix, word)], (pid, w)) by {
      SuffixKeysAppend(rows, SuffixRow(prefix, word, 1));
    }
    FindAppend(SuffixKeys(rows), (pid, w), (prefix, word));
    match FindSuffix(rows, pid, w)
    case None =>
    case Some(sid) => assert rows'[sid - 1] == rows[sid - 1];
  }

  /** One processTuple adds exactly one to the count of its own (tuple, author,
      word) and changes no other count; a new key starts at 1. */
  lemma ProcessTupleCount(t: Tables, row: PrefixRow, word: string, tuple: string, author: string, w: string)
    requires Valid(t)
    ensures SuffixCount(ProcessTuple(t, row, word), tuple, author, w) ==
            SuffixCount(t, tuple, author, w) + (if (row.tuple, row.author, word) == (tuple, author, w) then 1 else 0)
  {
    var (t1, id) := AddPrefixRow(t, row);
    var t2 := IncrementSuffixRow(t1, id, word, 1).0;
    assert t2 == ProcessTuple(t, row, word);
    AddPrefixFind(t, row, tuple, author);
    match FindPrefix(t1.tuples, tuple, author)
    case None =>
    case Some(pid) =>
      IncrementSuffixCount(t1, id, word, pid, w);
      assert SuffixCount(t2, tuple, author, w) == CountAt(t2.suffixes, pid, w);
      if (tuple, author) != (row.tuple, row.author) {
        assert t1.tuples[pid - 1].tuple != row.tuple || t1.tuples[pid - 1].author != row.author;
        assert pid != id;
        assert CountAt(t1.suffixes, pid, w) == SuffixCount(t, tuple, author, w);
      } else if FindPrefix(t.tuples, row.tuple, row.author).None? {
        // A new prefix has no suffix row yet.
        assert FindSuffix(t.suffixes, pid, w).None?;
      } else {
        assert t1 == t;
      }
  }

  // ---------------------------------------------------------------------------
  // Ingest: which observations a line produces

  /** One (prefix words, following word) pair that Ingest hands to processTuple. */
  datatype Observation = Observation(prefix: seq<string>, word: string)

  /** The observations of a line with words ws: every run of `order` consecutive
      words with the word that follows it. */
  function LineObservations(ws: seq<string>, order: nat): (r: seq<Observation>)
    ensures |r| == if |ws| > order then |ws| - order else 0
  {
    if |ws| <= order then []
    else [Observation(ws[..order], ws[order])] + LineObservations(ws[1..], order)
  }

  /** The j-th observation of a line is its words j .. j+order-1 followed by
      word j+order. */
  lemma {:induction false} LineObservationsSpec(ws: seq<string>, order: nat)
    ensures forall j :: 0 <= j < |LineObservations(ws, order)| ==>
              LineObservations(ws, order)[j] == Observation(ws[j..j + order], ws[j + order])
    decreases |ws|
  {
    if |ws| > order {
      var rest := LineObservations(ws[1..], order);
      LineObservationsSpec(ws[1..], order);
      assert forall j :: 0 <= j < |rest| ==> rest[j] == Observation(ws[j + 1..j + 1 + order], ws[j + 1 + order]);
    }
  }

  /** processTuple for each observation in turn, all with the same order and
      author. Rows are only added, at most one of each kind per observation,
      and the prefix rows already there stay as they are. */
  function ApplyObservations(t: Tables, obs: seq<Observation>, order: int, author: string): (r: Tables)
    ensures |t.tuples| <= |r.tuples| <= |t.tuples| + |obs| && r.tuples[..|t.tuples|] == t.tuples
    ensures |t.suffixes| <= |r.suffixes| <= |t.suffixes| + |obs|
    decreases |obs|
  {
    if obs == [] then t
    else ApplyObservations(ProcessTuple(t, PrefixRow(Join(obs[0].prefix), order, author), obs[0].word), obs[1..], order, author)
  }

  /** How many observations have the prefix text `tuple` and the word w. */
  function Occurrences(obs: seq<Observation>, tuple: string, w: string): nat
  {
    if obs == [] then 0
    else (if Join(obs[0].prefix) == tuple && obs[0].word == w then 1 else 0) + Occurrences(obs[1..], tuple, w)
  }

  /** Counts are observation counts: after the observations, the count of a key
      has grown by the number of observations of that key. */
  lemma {:induction false} ApplyObservationsCount(t: Tables, obs: seq<Observation>, order: int, author: string,
                                                  tuple: string, a: string, w: string)
    requires Valid(t)
    ensures Valid(ApplyObservations(t, obs, order, author))
    ensures SuffixCount(ApplyObservations(t, obs, order, author), tuple, a, w) ==
            SuffixCount(t, tuple, a, w) + (if a == author then Occurrences(obs, tuple, w) else 0)
    decreases |obs|
  {
    if obs != [] {
      var row := PrefixRow(Join(obs[0].prefix), order, author);
      ProcessTupleCount(t, row, obs[0].word, tuple, a, w);
      ApplyObservationsCount(ProcessTuple(t, row, obs[0].word), obs[1..], order, author, tuple, a, w);
    }
  }

  /** The observations of a line that Ingest's word loop has still to record
      once it has read k of the line's words: none of the first `order` words
      ends an observation, and word k (from `order` on) ends observation k - order. */
  function Pending(ws: seq<string>, order: nat, k: nat): (r: seq<Observation>)
    requires k <= |ws|
    ensures k <= order ==> r == LineObservations(ws, order)
    ensures k == |ws| ==> r == []
  {
    var obs := LineObservations(ws, order);
    if k <= order then obs else obs[k - order..]
  }

  /** Reading word k (from `order` on) records the observation of the `order`
      words before it and the word, and leaves the rest pending. */
  lemma PendingStep(t: Tables, ws: seq<string>, order: nat, author: string, k: nat)
    requires order <= k < |ws|
    ensures ApplyObservations(t, Pending(ws, order, k), order, author) ==
            ApplyObservations(ProcessTuple(t, PrefixRow(Join(ws[k - order..k]), order, author), ws[k]),
                              Pending(ws, order, k + 1), order, author)
  {
    var obs := LineObservations(ws, order);
    var j := k - order;
    LineObservationsSpec(ws, order);
    assert Pending(ws, order, k) == obs[j..];
    assert Pending(ws, order, k + 1) == obs[j + 1..];
    assert obs[j..][0] == obs[j] == Observation(ws[j..k], ws[k]);
    assert obs[j..][1..] == obs[j + 1..];
  }

  /** n observations of the same prefix and word, starting from an empty
      database, leave that suffix with count n. */
  lemma RepeatedObservationCount(obs: seq<Observation>, o: Observation, order: int, author: string)
    requires forall k :: 0 <= k < |obs| ==> obs[k] == o
    ensures SuffixCount(ApplyObservations(Empty, obs, order, author), Join(o.prefix), author, o.word) == |obs|
  {
    ApplyObservationsCount(Empty, obs, order, author, Join(o.prefix), author, o.word);
    OccurrencesOfOne(obs, o);
  }

  lemma {:induction false} OccurrencesOfOne(obs: seq<Observation>, o: Observation)
    requires forall k :: 0 <= k < |obs| ==> obs[k] == o
    ensures Occurrences(obs, Join(o.prefix), o.word) == |obs|
  {
    if obs != [] {
      OccurrencesOfOne(obs[1..], o);
    }
  }

  lemma {:induction false} ApplyObservationsKeeps(t: Tables, obs: seq<Observation>, order: int, author: string)
    ensures Valid(t) ==> Valid(ApplyObservations(t, obs, order, author))
    ensures CountsPositive(t) ==> CountsPositive(ApplyObservations(t, obs, order, author))
    ensures PrefixTextsHaveWords(t) && (forall k :: 0 <= k < |obs| ==> Fields(Join(obs[k].prefix)) != []) ==>
              PrefixTextsHaveWords(ApplyObservations(t, obs, order, author))
    decreases |obs|
  {
    if obs != [] {
      var row := PrefixRow(Join(obs[0].prefix), order, author);
      var t' := ProcessTuple(t, row, obs[0].word);
      var (t1, id) := AddPrefixRow(t, row);
      assert t'.tuples == t1.tuples;
      assert forall k :: 0 <= k < |obs[1..]| ==> obs[1..][k] == obs[k + 1];
      ApplyObservationsKeeps(t', obs[1..], order, author);
    }
  }

  /** The result of Ingest. A line without a space in author-per-line mode makes
      the Go code index past the end of the split (a panic); the model stops there. */
  datatype IngestResult = Ingested | MissingAuthor(line: nat)

  /** The author and content of a line: the fixed author and the whole line, or,
      when the author is empty, the text before and after the line's first space. */
  function LineParts(line: string, author: string): (r: Option<(string, string)>)
    ensures author != "" ==> r == Some((author, line))
    ensures author == "" ==> (r.None? <==> ' ' !in line)
    ensures author == "" && r.Some? ==> line == r.value.0 + " " + r.value.1 && ' ' !in r.value.0
  {
    if author != "" then Some((author, line)) else SplitAtSpace(line)
  }

  /** Ingest of the remaining lines, the first of which has index `index`. */
  function IngestLines(t: Tables, lines: seq<string>, order: nat, author: string, index: nat): (r: (Tables, IngestResult))
    ensures author != "" ==> r.1 == Ingested
    ensures r.1.MissingAuthor? ==> index <= r.1.line < index + |lines|
    ensures |t.tuples| <= |r.0.tuples| && r.0.tuples[..|t.tuples|] == t.tuples
    decreases |lines|
  {
    if lines == [] then (t, Ingested)
    else match LineParts(lines[0], author)
      case None => (t, MissingAuthor(index))
      case Some(parts) =>
        IngestLines(ApplyObservations(t, LineObservations(Fields(parts.1), order), order, parts.0),
                    lines[1..], order, author, index + 1)
  }

  /** Ingest goes through every line exactly when each line has an author, and
      otherwise stops at the first line without one. */
  lemma {:induction false} IngestLinesOutcome(t: Tables, lines: seq<string>, order: nat, author: string, index: nat)
    ensures var r := IngestLines(t, lines, order, author, index).1;
      && (r == Ingested <==> forall i :: 0 <= i < |lines| ==> LineParts(lines[i], author).Some?)
      && (r.MissingAuthor? ==> LineParts(lines[r.line - index], author).None? &&
                               forall i :: 0 <= i < r.line - index ==> LineParts(lines[i], author).Some?)
    decreases |lines|
  {
    if lines != [] {
      match LineParts(lines[0], author)
      case None =>
      case Some(parts) =>
        var t' := ApplyObservations(t, LineObservations(Fields(parts.1), order), order, parts.0);
        IngestLinesOutcome(t', lines[1..], order, author, index + 1);
        assert forall i :: 0 <= i < |lines[1..]| ==> lines[1..][i] == lines[i + 1];
        assert forall i :: 1 <= i < |lines| ==> lines[i] == lines[1..][i - 1];
    }
  }

  /** The tables Ingest builds keep the unique constraints, positive counts and
      prefix texts that hold words. */
  lemma {:induction false} IngestLinesKeeps(t: Tables, lines: seq<string>, order: nat, author: string, index: nat)
    requires order >= 1
    requires Valid(t) && CountsPositive(t) && PrefixTextsHaveWords(t)
    ensures var r := IngestLines(t, lines, order, author, index).0;
      Valid(r) && CountsPositive(r) && PrefixTextsHaveWords(r)
    decreases |lines|
  {
    if lines != [] {
      match LineParts(lines[0], author)
      case None =>
      case Some(parts) =>
        var ws := Fields(parts.1);
        var obs := LineObservations(ws, order);
        LineObservationsSpec(ws, order);
        forall k | 0 <= k < |obs| ensures Fields(Join(obs[k].prefix)) != [] {
          var window := ws[k..k + order];
          assert obs[k] == Observation(ws[k..k + order], ws[k + order]);
          assert AllFields(window) by {
            forall i | 0 <= i < |window| ensures IsField(window[i]) { assert window[i] == ws[k + i]; }
          }
          FieldsJoinRoundTrip(window);
        }
        ApplyObservationsKeeps(t, obs, order, parts.0);
        IngestLinesKeeps(ApplyObservations(t, obs, order, parts.0), lines[1..], order, author, index + 1);
    }
  }

  // ---------------------------------------------------------------------------
  // Search, random choice and the Generate walk

  /** A full-text query: a bare word (PrefixContaining's `"tuple": word`) or a
      quoted phrase (RandomSuffix's `"tuple": "text"`). */
  datatype Query = Tokens(text: string) | Phrase(text: string)

  datatype GenError =
    | NoPrefixes     // ErrNoPrefixes: no prefix matches the seed word
    | NoSuffixes     // ErrNoSuffixes: the current prefix has no suffix row
    | NullMaxRowid   // MAX(rowid) of an empty table is NULL, which cannot be scanned into an int64
    | OutOfFuel      // the walk took more steps than the fuel allows

  /** A prefix as a query returns it: rowid, words (the stored text split into
      fields by Scan), order and author. */
  datatype PrefixRecord = PrefixRecord(id: int, words: seq<string>, ord: int, author: string)

  /** The rowid of the first prefix row (in rowid order) whose text matches q:
      the scalar subquery RandomSuffix and Suffixes use. */
  function FirstMatch(rows: seq<PrefixRow>, q: Query, matches: (Query, string) -> bool): Option<nat>
  {
    if rows == [] then None
    else match FirstMatch(rows[..|rows| - 1], q, matches)
      case Some(id) => Some(id)
      case None => if matches(q, rows[|rows| - 1].tuple) then Some(|rows|) else None
  }

  /** FirstMatch finds a matching row with no matching row before it, and finds
      nothing exactly when no row matches. */
  lemma {:induction false} FirstMatchSpec(rows: seq<PrefixRow>, q: Query, matches: (Query, string) -> bool)
    ensures var r := FirstMatch(rows, q, matches);
      && (r.Some? ==> 1 <= r.value <= |rows| && matches(q, rows[r.value - 1].tuple))
      && (r.Some? ==> forall i :: 0 <= i < r.value - 1 ==> !matches(q, rows[i].tuple))
      && (r.None? <==> forall i :: 0 <= i < |rows| ==> !matches(q, rows[i].tuple))
  {
    if rows != [] {
      var init := rows[..|rows| - 1];
      FirstMatchSpec(init, q, matches);
      assert forall i :: 0 <= i < |init| ==> init[i] == rows[i];
    }
  }

  /** The record PrefixContaining makes of the row with rowid id: its order is
      the number of words read back (p.O = p.T.Order()). */
  function SearchRecord(row: PrefixRow, id: nat): PrefixRecord
  {
    var ws := Fields(row.tuple);
    PrefixRecord(id, ws, |ws|, row.author)
  }

  /** The rowids of all prefix rows whose text matches q, in rowid order. */
  function MatchingIds(rows: seq<PrefixRow>, q: Query, matches: (Query, string) -> bool): (r: seq<nat>)
    ensures forall k :: 0 <= k < |r| ==> 1 <= r[k] <= |rows| && matches(q, rows[r[k] - 1].tuple)
    ensures forall k, l :: 0 <= k < l < |r| ==> r[k] < r[l]
    ensures forall i :: 0 <= i < |rows| && matches(q, rows[i].tuple) ==> i + 1 in r
  {
    if rows == [] then []
    else
      var init := rows[..|rows| - 1];
      var r0 := MatchingIds(init, q, matches);
      if matches(q, rows[|rows| - 1].tuple) then
        var r := r0 + [|rows|];
        assert forall k :: 0 <= k < |r0| ==> r[k] == r0[k];
        r
      else r0
  }

  /** The first matching rowid is the first of all matching rowids. */
  lemma MatchingIdsFirst(rows: seq<PrefixRow>, q: Query, matches: (Query, string) -> bool)
    ensures var ids := MatchingIds(rows, q, matches);
      (ids == [] <==> FirstMatch(rows, q, matches).None?) &&
      (ids != [] ==> FirstMatch(rows, q, matches) == Some(ids[0]))
  {
    var ids := MatchingIds(rows, q, matches);
    var first := FirstMatch(rows, q, matches);
    FirstMatchSpec(rows, q, matches);
    if ids != [] {
      assert matches(q, rows[ids[0] - 1].tuple);
      assert first.value in ids;
      assert first.value <= ids[0];
    }
  }

  /** The record names an existing prefix row and holds the words of its text and its author. */
  predicate ReadBack(t: Tables, p: PrefixRecord) {
    1 <= p.id <= |t.tuples| && p.words == Fields(t.tuples[p.id - 1].tuple) && p.author == t.tuples[p.id - 1].author
  }

  /** The records a search returns for the rowids it found. */
  function SearchRecords(t: Tables, ids: seq<nat>): (r: seq<PrefixRecord>)
    requires forall k :: 0 <= k < |ids| ==> 1 <= ids[k] <= |t.tuples|
    ensures |r| == |ids|
    ensures forall k :: 0 <= k < |r| ==> r[k].id == ids[k] && ReadBack(t, r[k]) && r[k].ord == |r[k].words|
  {
    seq(|ids|, k requires 0 <= k < |ids| => SearchRecord(t.tuples[ids[k] - 1], ids[k]))
  }

  /** PrefixContaining: the prefixes whose text contains the word, in rowid order,
      each with p.O = p.T.Order(); ErrNoPrefixes when there are none. */
  function PrefixContaining(t: Tables, word: string, matches: (Query, string) -> bool): (r: Result<seq<PrefixRecord>, GenError>)
    ensures r.Failure? <==> forall i :: 0 <= i < |t.tuples| ==> !matches(Tokens(word), t.tuples[i].tuple)
    ensures r.Failure? ==> r.error == NoPrefixes
    ensures r.Success? ==> r.value != [] && forall k :: 0 <= k < |r.value| ==> ReadBack(t, r.value[k])
    ensures r.Success? ==> forall k :: 0 <= k < |r.value| ==> r.value[k].ord == |r.value[k].words|
    ensures r.Success? ==> FirstMatch(t.tuples, Tokens(word), matches) == Some(r.value[0].id)
    ensures r.Success? ==> var ids := MatchingIds(t.tuples, Tokens(word), matches);
              |r.value| == |ids| && forall k :: 0 <= k < |r.value| ==> r.value[k].id == ids[k]
  {
    var ids := MatchingIds(t.tuples, Tokens(word), matches);
    if ids == [] then Failure(NoPrefixes)
    else
      MatchingIdsFirst(t.tuples, Tokens(word), matches);
      assert matches(Tokens(word), t.tuples[ids[0] - 1].tuple);
      Success(SearchRecords(t, ids))
  }

  /** randKey: `1 + rand.Int63n(maxid)` for the table's MAX(rowid); the scan of
      the NULL maximum of an empty table fails. rand.Int63n(n) is the draw
      reduced modulo n, so every value of [0, n) can occur. */
  function RandKey(maxid: Option<int>, draw: nat): (r: Result<int, GenError>)
    requires maxid.Some? ==> maxid.value >= 1
    ensures maxid.None? <==> r.Failure?
    ensures r.Failure? ==> r.error == NullMaxRowid
    ensures r.Success? ==> 1 <= r.value <= maxid.value
  {
    match maxid
    case None => Failure(NullMaxRowid)
    case Some(n) => Success(1 + draw % n)
  }

  /** SELECT MAX(rowid): NULL for an empty table; otherwise the number of
      rows, since the rowids are 1 up to it. */
  function MaxRowid<R>(rows: seq<R>): (r: Option<int>)
    ensures r.None? <==> rows == []
    ensures r.Some? ==> r.value >= 1 && r.value == |rows|
  {
    if rows == [] then None else Some(|rows|)
  }

  /** Every key of [1, maxid] is drawn by some draw. */
  lemma RandKeyCovers(n: int, k: int)
    requires 1 <= k <= n
    ensures RandKey(Some(n), k - 1) == Success(k)
  {
  }

  /** RandomPrefix: the row whose rowid randKey picked, with its stored order. */
  function RandomPrefix(t: Tables, draw: nat): (r: Result<PrefixRecord, GenError>)
    ensures r.Failure? <==> t.tuples == []
    ensures r.Failure? ==> r.error == NullMaxRowid
    ensures r.Success? ==> 1 <= r.value.id <= |t.tuples| && r.value.id == 1 + draw % |t.tuples|
    ensures r.Success? ==> (var row := t.tuples[r.value.id - 1];
                            r.value == PrefixRecord(r.value.id, Fields(row.tuple), row.ord, row.author))
  {
    match RandKey(MaxRowid(t.tuples), draw)
    case Failure(e) => Failure(e)
    case Success(id) =>
      var row := t.tuples[id - 1];
      Success(PrefixRecord(id, Fields(row.tuple), row.ord, row.author))
  }

  /** Every prefix row is the one RandomPrefix reads for some draw. */
  lemma RandomPrefixCovers(t: Tables, k: int)
    requires 1 <= k <= |t.tuples|
    ensures RandomPrefix(t, k - 1).Success? && RandomPrefix(t, k - 1).value.id == k
  {
    RandKeyCovers(|t.tuples|, k);
  }

  /** The suffix rows of the prefix with rowid pid, in rowid order. */
  function SuffixesOf(rows: seq<SuffixRow>, pid: int): seq<SuffixRow>
  {
    if rows == [] then []
    else (if rows[0].prefix == pid then [rows[0]] else []) + SuffixesOf(rows[1..], pid)
  }

  /** SuffixesOf keeps exactly the rows of the prefix. */
  lemma {:induction false} SuffixesOfSpec(rows: seq<SuffixRow>, pid: int)
    ensures forall s :: s in SuffixesOf(rows, pid) <==> s in rows && s.prefix == pid
  {
    if rows != [] {
      SuffixesOfSpec(rows[1..], pid);
      assert rows == [rows[0]] + rows[1..];
    }
  }

  /** Suffixes: all the suffix rows of the first prefix that matches the text
      as a bare-word query, and only those; none when no prefix matches. */
  function Suffixes(t: Tables, text: string, matches: (Query, string) -> bool): (r: seq<SuffixRow>)
    ensures FirstMatch(t.tuples, Tokens(text), matches).None? ==> r == []
    ensures forall s :: s in r ==> s in t.suffixes && FirstMatch(t.tuples, Tokens(text), matches) == Some(s.prefix)
    ensures FirstMatch(t.tuples, Tokens(text), matches).Some? ==>
              forall s :: s in t.suffixes && s.prefix == FirstMatch(t.tuples, Tokens(text), matches).value ==> s in r
  {
    match FirstMatch(t.tuples, Tokens(text), matches)
    case None => []
    case Some(pid) =>
      SuffixesOfSpec(t.suffixes, pid);
      SuffixesOf(t.suffixes, pid)
  }

  /** RandomSuffix: the suffix rows of the first prefix whose text matches the
      tuple's text as a phrase, one of them picked uniformly
      (`ORDER BY RANDOM() LIMIT 1`: the counts play no part); ErrNoSuffixes
      when no prefix matches or the prefix has no suffix row. */
  function RandomSuffix(t: Tables, text: string, matches: (Query, string) -> bool, draw: nat): (r: Result<SuffixRow, GenError>)
    ensures r.Failure? ==> r.error == NoSuffixes
    ensures r.Failure? <==> FirstMatch(t.tuples, Phrase(text), matches).None? ||
                            SuffixesOf(t.suffixes, FirstMatch(t.tuples, Phrase(text), matches).value) == []
    ensures r.Success? ==> r.value in t.suffixes && FirstMatch(t.tuples, Phrase(text), matches) == Some(r.value.prefix)
  {
    match FirstMatch(t.tuples, Phrase(text), matches)
    case None => Failure(NoSuffixes)
    case Some(pid) =>
      var candidates := SuffixesOf(t.suffixes, pid);
      SuffixesOfSpec(t.suffixes, pid);
      if candidates == [] then Failure(NoSuffixes)
      else Success(candidates[draw % |candidates|])
  }

  /** Every suffix row of the matched prefix is chosen by some draw, whatever its count. */
  lemma RandomSuffixCovers(t: Tables, text: string, matches: (Query, string) -> bool, s: SuffixRow)
    requires s in t.suffixes && FirstMatch(t.tuples, Phrase(text), matches) == Some(s.prefix)
    ensures exists draw: nat :: RandomSuffix(t, text, matches, draw) == Success(s)
  {
    var candidates := SuffixesOf(t.suffixes, s.prefix);
    assert s in candidates by {
      SuffixesOfSpec(t.suffixes, s.prefix);
    }
    var k :| 0 <= k < |candidates| && candidates[k] == s;
    var draw: nat := k;
    assert draw % |candidates| == k;
    assert RandomSuffix(t, text, matches, draw) == Success(s);
  }

  /** The last `order` words of the output: what the working tuple holds. */
  function Window(words: seq<string>, order: nat): seq<string>
    requires |words| >= order
  {
    words[|words| - order..]
  }

  /** Sliding a word into the window of the output is appending it to the output. */
  lemma WindowSnoc(words: seq<string>, w: string, order: nat)
    requires |words| >= order >= 1
    ensures Window(words + [w], order) == Shifted(Window(words, order), w, Forward)
  {
    assert Window(words + [w], order) == Window(words, order)[1..] + [w];
  }

  /** The Generate loop: ask for a suffix of the current window, append it and
      slide it in, until ErrNoSuffixes; draws(step) is the random choice of
      step `step`. Fuel bounds the number of requests. */
  function Walk(t: Tables, words: seq<string>, order: nat, matches: (Query, string) -> bool,
                draws: nat -> nat, step: nat, fuel: nat): (r: Result<seq<string>, GenError>)
    requires |words| >= order
    ensures r.Failure? ==> r.error == OutOfFuel
    ensures r.Success? ==> |words| <= |r.value| < |words| + fuel
    decreases fuel
  {
    if fuel == 0 then Failure(OutOfFuel)
    else match RandomSuffix(t, Join(Window(words, order)), matches, draws(step))
      case Failure(e) => if e == NoSuffixes then Success(words) else Failure(e)
      case Success(s) => Walk(t, words + [s.word], order, matches, draws, step + 1, fuel - 1)
  }

  /** One step of the walk: a suffix is found, appended and slid in. */
  lemma WalkStep(t: Tables, words: seq<string>, order: nat, matches: (Query, string) -> bool,
                 draws: nat -> nat, step: nat, fuel: nat, s: SuffixRow)
    requires |words| >= order && fuel > 0
    requires RandomSuffix(t, Join(Window(words, order)), matches, draws(step)) == Success(s)
    ensures Walk(t, words, order, matches, draws, step, fuel) ==
            Walk(t, words + [s.word], order, matches, draws, step + 1, fuel - 1)
  {
  }

  /** The walk ends with the words so far when the window has no suffix. */
  lemma WalkStops(t: Tables, words: seq<string>, order: nat, matches: (Query, string) -> bool,
                  draws: nat -> nat, step: nat, fuel: nat)
    requires |words| >= order && fuel > 0
    requires RandomSuffix(t, Join(Window(words, order)), matches, draws(step)).Failure?
    ensures Walk(t, words, order, matches, draws, step, fuel) == Success(words)
  {
  }

  /** The start of Generate: the first prefix containing the first seed word,
      or a random prefix when there is no seed. */
  function StartPrefix(t: Tables, seeds: seq<string>, matches: (Query, string) -> bool, draw: nat): (r: Result<PrefixRecord, GenError>)
    ensures |seeds| > 0 ==> (r.Failure? <==> PrefixContaining(t, seeds[0], matches).Failure?)
    ensures |seeds| > 0 && r.Success? ==> FirstMatch(t.tuples, Tokens(seeds[0]), matches) == Some(r.value.id)
    ensures |seeds| == 0 ==> r == RandomPrefix(t, draw)
    ensures r.Success? ==> ReadBack(t, r.value)
  {
    if |seeds| > 0 then
      match PrefixContaining(t, seeds[0], matches)
      case Failure(e) => Failure(e)
      case Success(ps) => Success(ps[0])
    else RandomPrefix(t, draw)
  }

  /** The text a finished walk writes: its words joined by single spaces. */
  function Written(w: Result<seq<string>, GenError>): Result<string, GenError>
  {
    match w
    case Failure(e) => Failure(e)
    case Success(ws) => Success(Join(ws))
  }

  /** Generate: the text written, the words of the walk joined by single spaces. */
  function GenerateText(t: Tables, seeds: seq<string>, matches: (Query, string) -> bool,
                        startDraw: nat, draws: nat -> nat, fuel: nat): (r: Result<string, GenError>)
    ensures r.Failure? ==> r.error != NoSuffixes
    ensures |seeds| > 0 && PrefixContaining(t, seeds[0], matches).Failure? ==> r == Failure(NoPrefixes)
    ensures |seeds| == 0 && t.tuples == [] ==> r == Failure(NullMaxRowid)
  {
    match StartPrefix(t, seeds, matches, startDraw)
    case Failure(e) => Failure(e)
    case Success(p) => Written(Walk(t, p.words, |p.words|, matches, draws, 0, fuel))
  }

  /** The next word is one the chain records after this window. */
  ghost predicate Follows(t: Tables, matches: (Query, string) -> bool, window: seq<string>, w: string) {
    var pid := FirstMatch(t.tuples, Phrase(Join(window)), matches);
    pid.Some? && exists s :: s in t.suffixes && s.prefix == pid.value && s.word == w
  }

  /** The walk's output starts with the starting words; each later word follows
      the `order` words before it in the chain; and the walk stops exactly where
      the window has no suffix. */
  lemma {:induction false} WalkFollowsChain(t: Tables, words: seq<string>, order: nat, matches: (Query, string) -> bool,
                                            draws: nat -> nat, step: nat, fuel: nat)
    requires |words| >= order
    ensures var r := Walk(t, words, order, matches, draws, step, fuel);
      r.Success? ==>
        && |r.value| >= |words| && r.value[..|words|] == words
        && (forall i :: |words| <= i < |r.value| ==> Follows(t, matches, r.value[i - order..i], r.value[i]))
        && RandomSuffix(t, Join(Window(r.value, order)), matches, 0).Failure?
    decreases fuel
  {
    if fuel > 0 {
      match RandomSuffix(t, Join(Window(words, order)), matches, draws(step))
      case Failure(e) =>
      case Success(s) =>
        var next := words + [s.word];
        WalkFollowsChain(t, next, order, matches, draws, step + 1, fuel - 1);
        var r := Walk(t, next, order, matches, draws, step + 1, fuel - 1);
        if r.Success? {
          assert r.value[..|words|] == next[..|words|] == words;
          forall i | |words| <= i < |r.value| ensures Follows(t, matches, r.value[i - order..i], r.value[i]) {
            if i == |words| {
              assert r.value[i - order..i] == Window(words, order);
              assert r.value[i] == next[|words|] == s.word;
            }
          }
        }
    }
  }

  /** More fuel changes nothing once the walk has finished: fuel only cuts the
      loop off, it does not steer it. */
  lemma {:induction false} WalkFuelMonotone(t: Tables, words: seq<string>, order: nat, matches: (Query, string) -> bool,
                                            draws: nat -> nat, step: nat, fuel: nat, more: nat)
    requires |words| >= order && fuel <= more
    requires Walk(t, words, order, matches, draws, step, fuel).Success?
    ensures Walk(t, words, order, matches, draws, step, more) == Walk(t, words, order, matches, draws, step, fuel)
    decreases fuel
  {
    match RandomSuffix(t, Join(Window(words, order)), matches, draws(step))
    case Failure(e) =>
    case Success(s) =>
      WalkFuelMonotone(t, words + [s.word], order, matches, draws, step + 1, fuel - 1, more - 1);
  }
}
