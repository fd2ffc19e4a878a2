# markov in Dafny

This project models mischief/markov, a word-level Markov chain text generator
backed by SQLite, in Dafny. It covers two parts of the program:

- `core/tuple.go` is **TextTuple**, the fixed-length window of words that
  serves as a chain prefix. The model has its in-place `Shift`, its `Copy`,
  and its text encoding. `String` and `MarshalBinary` join the words with
  single spaces, and `UnmarshalBinary` splits the text into white-space
  separated fields.
- `sqlite/sqlite.go` is the **store**. `Ingest` reads lines, slides a window
  of `order` words along each one, and records every (window, next word)
  pair. Each pair becomes a row of the `tuples` table and a row of the
  `suffixes` table, or one more count on a row that exists already.
  `Generate` starts from a prefix that contains a seed word, or from a random
  prefix. It then keeps asking for a random suffix of the current window,
  appends the suffix, and shifts the suffix into the window, until the window
  has no suffix.

Files:

- `wrappers.dfy` holds `Option` and `Result`.
- `gostrings.dfy` (module `GoStrings`) holds the pieces of Go's library the
  code relies on:
  - `unicode.IsSpace`;
  - `bytes.Fields` and `bufio.ScanWords`, which split the same way;
  - `strings.Join(_, " ")`;
  - `strings.SplitN(_, " ", 2)`;
  - `%d`.
- `tuple.dfy` (module `Tuple`) has the class `TextTuple` over an
  `array<string>`. The methods change it in place, and each one is proved
  against the functions `Shifted` and `ShiftAll`.
- `chain.dfy` (module `Chain`) has the two SQL tables as values.
  - A table is a sequence of rows, and the row at position i has rowid i+1.
    SQLite assigns rowids this way when no row is deleted and a refused
    insert uses up no rowid.
  - The `UNIQUE(tuple, author)` and `UNIQUE(tuple, word)` constraints of
    `sqlite/schema.go` are the lookups `FindPrefix` and `FindSuffix`.
  - Every statement the store runs is a function on these tables:
    `AddPrefixRow`, `IncrementSuffixRow`, `ProcessTuple`, `IngestLines`,
    `PrefixContaining`, `RandomPrefix`, `RandomSuffix`, `Walk` and
    `GenerateText`.
- `sqlite.dfy` (module `Sqlite`) has the classes `SQLPrefix`, `SQLSuffix`
  and `Store`. A `Store` holds the tables. Its `Ingest` and `Generate`
  methods have the loops of the Go code, and each method is proved equal to
  its `Chain` function.
- `endtoend.dfy` (module `EndToEnd`) proves the round trip of
  `TestIngestGenerate`. Take a line whose windows are all distinct, ingest
  it into an empty store, and generate from a seed inside its first window:
  the output is the line again, for every sequence of random draws.

How the model treats what it cannot see:

- **Full-text index.** The full-text index `tuples_idx` is a parameter,
  `matches: (Query, string) -> bool`. A `Query` is either a bare-word query
  or a quoted phrase, built the way the code builds them.
  - The SQL text and the triggers that fill the index are not modelled.
  - The end-to-end proofs use `WordMatch`, a case-sensitive match on whole
    words.
- **Randomness.** `rand.Int63n` and `ORDER BY RANDOM()` are replaced by
  draws that the caller passes in as parameters. `rand.Int63n(n)` is the
  draw modulo n, and `ORDER BY RANDOM() LIMIT 1` picks
  `candidates[draw % |candidates|]`.
- **Errors.**
  - SQLite cannot scan the `NULL` that `MAX(rowid)` returns for an empty
    table, so `randKey` fails there; the model gives `NullMaxRowid`.
  - `ErrNoPrefixes` is `NoPrefixes`, and `ErrNoSuffixes` is `NoSuffixes`.
- **Panics.** In author-per-line mode, a line with no space makes Go index
  past the end of `strings.SplitN`'s result, which is a panic. The model
  stops there with `MissingAuthor(line)`.

What the code does, which the model follows:

- **Observations stay inside a line.** The working tuple carries over from
  one line to the next, but the word counter restarts for each line, so the
  first `order` words of a line are only shifted in. No observation spans
  two lines (`Chain.LineObservations`).
- **The suffix choice ignores the counts.** `RandomSuffix` picks uniformly
  among the suffix rows. The stored counts play no part, so every suffix row
  can be drawn whatever its count (`Chain.RandomSuffixCovers`).
- **Lookups go by text, not by rowid.** `RandomSuffix` and `Suffixes` find
  their prefix row by matching the tuple's text in the full-text index. They
  take the first match in rowid order, and neither the prefix's `ID` nor its
  author plays a part.
- **What a search returns.** `PrefixContaining` gives each result the
  order `T.Order()`, which is the number of words read back from the stored
  text, not the stored `ord` column. `RandomPrefix` uses the stored column.

## Model

| member | source | states |
|---|---|---|
| GoStrings.Fields | core/tuple.go:48 | every element of the split is a non-empty run of non-space characters |
| GoStrings.FieldsJoinRoundTrip | core/tuple.go:43-58 | splitting the space-joined words gives back the words, whenever each word is a non-empty run of non-space characters: a tuple's encoding decodes to its words |
| GoStrings.FieldsOfJoin | core/tuple.go:78-80 | joining words without white space and splitting again gives back exactly the non-empty words |
| GoStrings.FieldsKeepText | core/tuple.go:48 | the split loses nothing but white space: the fields, concatenated, are the non-space characters of the input |
| GoStrings.SplitAtSpace | sqlite/sqlite.go:229-233 | no result exactly when the line holds no space; otherwise the line is the author, a space and the rest, and the author holds no space |
| GoStrings.DecimalRoundTrip | sqlite/sqlite.go:307-309 | the `%d` text of any integer, negative ones included, parses back to that integer |
| Tuple.TextTuple.constructor | core/tuple.go:18-24 | NewTextTuple(order): a fresh array of `order` empty words, and `order` equals its length |
| Tuple.TextTuple.FromSlice | core/tuple.go:14-16 | NewTupleFromSlice: the tuple wraps the given array itself, not a copy, with order equal to its length |
| Tuple.TextTuple.Copy | core/tuple.go:26-30 | a fresh tuple, with an array of its own, holding the same words and the same order |
| Tuple.TextTuple.Shift | core/tuple.go:32-41 | the words after the shift are `Shifted`: Forward drops the first word and appends the new one, Backward puts the new one in front and drops the last |
| Tuple.ShiftAllForward | core/tuple.go:32-41 | forward shifts of a list of words leave the last `order` words of the old window followed by the new words |
| Tuple.ForwardShiftsForget | core/tuple.go:32-41 | after at least `order` forward shifts, the window is the last `order` words shifted in, whatever it held before |
| Tuple.ShiftAllBackward | core/tuple.go:32-41 | backward shifts put the new words, most recent first, in front of the old window, cut to its length |
| Tuple.BackwardShiftsForget | core/tuple.go:32-41 | after at least `order` backward shifts, the window is the last `order` words shifted in, reversed |
| Tuple.StringFields | core/tuple.go:78-80 | when no word holds white space, the fields of String are exactly the non-empty words |
| Tuple.TextTuple.MarshalBinary | core/tuple.go:43-45 | the bytes are the words joined by single spaces |
| Tuple.TextTuple.MarshalText | core/tuple.go:60-62 | the words joined by single spaces, as MarshalBinary gives them; when no word holds white space, splitting the text gives back exactly the non-empty words |
| Tuple.TextTuple.UnmarshalBinary | core/tuple.go:47-58 | the tuple gets a fresh array holding exactly the fields of the input, and its order becomes their number |
| Tuple.MarshalRoundTrip | core/tuple.go:43-58 | decoding the encoding of a tuple whose words are fields gives a tuple with the same words and order |
| Tuple.TextTuple.Order | core/tuple.go:82-84 | the order is the number of words |
| Tuple.TextTuple.Elements | core/tuple.go:86-88 | the tuple's own array of words, not a copy, so a change through it changes the tuple; it has Order() words |
| Tuple.CopyThenShift | core/tuple.go:26-41 | a copy is independent: shifting the original leaves the copy with the words from before the shift |
| Tuple.ShiftWords | core/tuple_test.go:25-27 | shifting a list of words one by one gives `ShiftAll` of them |
| Tuple.MarshalledText | core/tuple_test.go:9-18 | the text checkPrefix compares is the words joined by single spaces |
| Tuple.ForwardScenario | core/tuple_test.go:20-36 | for any four words a b c d of TestPrefixForward: the texts are "a b c", then "b c d", then "a b c" again, each with single spaces |
| Tuple.BackwardScenario | core/tuple_test.go:38-54 | for any four words of TestPrefixBackward: the texts are "c b a", then "d c b", then "c b a" again, each with single spaces |
| Chain.FindPrefix | sqlite/schema.go:5 | the rowid found holds that text and author; nothing is found exactly when no row has both |
| Chain.FindSuffix | sqlite/schema.go:21 | the rowid found holds that prefix and word; nothing is found exactly when no row has both |
| Chain.AddPrefixRow | sqlite/sqlite.go:159-180 | when the text and author are stored, the tables stay and the id is that row's; otherwise the row is appended with the next rowid; suffixes unchanged; the unique constraint is kept |
| Chain.AddPrefixIdempotent | sqlite/sqlite.go:159-180 | a second AddPrefix with the same text and author adds no row and answers the same id |
| Chain.AddPrefixOneRow | sqlite/sqlite.go:159-180 | after AddPrefix exactly one row has the text and author: the one whose id it answered |
| Chain.AddPrefixFind | sqlite/sqlite.go:159-180 | after AddPrefix the text and author lead to the answered id, and every other key leads where it did |
| Chain.AddOne | sqlite/sqlite.go:192 | the row with the key gets a count one higher; every other row keeps its count; no key and no number of rows changes |
| Chain.IncrementSuffixRow | sqlite/sqlite.go:182-201 | a new key is appended with the given count and its new rowid is written back; an existing key gets one more and no id; prefixes unchanged; the unique constraint is kept |
| Chain.IncrementSuffixCount | sqlite/sqlite.go:182-201 | the count of its key goes up by exactly one, and no other count changes |
| Chain.ProcessTuple | sqlite/sqlite.go:203-210 | keeps both unique constraints, the references from suffixes to prefixes, and positive counts; adds at most one row to each table and leaves the existing prefix rows as they are |
| Chain.ProcessTupleCount | sqlite/sqlite.go:203-210 | the count of its own (text, author, word) goes up by one, and no other count changes |
| Chain.LineObservations | sqlite/sqlite.go:237-250 | a line of n words gives n - order observations, and none when n <= order |
| Chain.LineObservationsSpec | sqlite/sqlite.go:237-250 | observation j is words j..j+order-1 followed by word j+order |
| Chain.Pending | sqlite/sqlite.go:237-242 | before word `order` is read nothing has been recorded, and at the end of the line nothing is pending |
| Chain.PendingStep | sqlite/sqlite.go:243-249 | reading word k records the `order` words before it together with word k |
| Chain.ApplyObservations | sqlite/sqlite.go:243-249 | processTuple of each observation in turn; rows are only added, at most one prefix row and one suffix row per observation, and the existing prefix rows stay |
| Chain.ApplyObservationsCount | sqlite/sqlite.go:218-258 | after ingesting observations, each stored count has grown by the number of observations of its key for the ingesting author |
| Chain.RepeatedObservationCount | sqlite/sqlite.go:203-210 | n observations of one prefix and word, starting from an empty store, leave count n |
| Chain.ApplyObservationsKeeps | sqlite/sqlite.go:218-258 | ingesting observations keeps the constraints, the positive counts and the prefix texts that hold a word |
| Chain.LineParts | sqlite/sqlite.go:228-233 | with a fixed author: that author and the whole line; otherwise the text before and after the first space, and no result when the line has no space |
| Chain.IngestLines | sqlite/sqlite.go:218-258 | each line's author and words, its observations recorded in turn; with a fixed author every line is ingested; a missing author names one of the given lines; existing prefix rows stay |
| Chain.IngestLinesOutcome | sqlite/sqlite.go:225-233 | every line is ingested exactly when each line has an author; otherwise ingestion stops at the first line without one |
| Chain.IngestLinesKeeps | sqlite/sqlite.go:218-258 | the tables Ingest builds keep the unique constraints, the references, the positive counts and the prefix texts that hold a word |
| Chain.FirstMatchSpec | sqlite/sqlite.go:122-124 | the scalar subquery finds a matching row with no matching row before it, and finds nothing exactly when no row matches |
| Chain.MatchingIds | sqlite/sqlite.go:58-72 | exactly the rowids of the matching rows, in ascending order |
| Chain.MatchingIdsFirst | sqlite/sqlite.go:264-268 | the first search result is the first match, and there are results exactly when there is a match |
| Chain.SearchRecords | sqlite/sqlite.go:67-80 | one record per rowid found, in the same order, holding the words of its stored text, its author column and order `T.Order()` |
| Chain.PrefixContaining | sqlite/sqlite.go:58-83 | ErrNoPrefixes exactly when no prefix matches the word; otherwise one record per matching row, all of them and only them, in rowid order, each reading back its row's words and author with order = number of words |
| Chain.RandKey | sqlite/sqlite.go:85-97 | fails exactly on the NULL maximum of an empty table; otherwise a key in [1, maxid] |
| Chain.MaxRowid | sqlite/sqlite.go:87 | NULL exactly for an empty table; otherwise the number of rows, which is the largest rowid |
| Chain.RandomPrefixCovers | sqlite/sqlite.go:99-116 | every prefix row is the one read for some draw |
| Chain.RandKeyCovers | sqlite/sqlite.go:96 | every key in [1, maxid] comes out of some draw |
| Chain.RandomPrefix | sqlite/sqlite.go:99-116 | fails exactly on an empty tuples table; otherwise the row with the rowid randKey draws, 1 + draw mod the number of rows, with its text split into words and its stored order and author |
| Chain.SuffixesOfSpec | sqlite/sqlite.go:120-124 | the suffix rows selected are exactly those of the given prefix |
| Chain.Suffixes | sqlite/sqlite.go:143-157 | all the suffix rows of the first prefix matching the text as a bare-word query, and only those; none when nothing matches |
| Chain.RandomSuffix | sqlite/sqlite.go:118-141 | ErrNoSuffixes exactly when no prefix matches the phrase or its prefix has no suffix row; otherwise a stored suffix row of that prefix |
| Chain.RandomSuffixCovers | sqlite/sqlite.go:125-126 | every suffix row of the matched prefix is picked by some draw, whatever its count |
| Chain.WindowSnoc | sqlite/sqlite.go:289-290 | appending a word to the output and shifting it into the tuple keep the tuple equal to the last `order` output words |
| Chain.Walk | sqlite/sqlite.go:279-291 | the generate loop: the only error is running out of fuel, since ErrNoSuffixes ends the loop; each request adds at most one word to the output |
| Chain.StartPrefix | sqlite/sqlite.go:261-275 | with seeds: fails exactly when PrefixContaining of the first seed fails, and otherwise starts at its first match; without seeds: RandomPrefix; the start reads back its row |
| Chain.GenerateText | sqlite/sqlite.go:260-295 | the walk's words joined by single spaces; it never fails with ErrNoSuffixes; a seed no prefix contains gives ErrNoPrefixes, and no seed with an empty tuples table gives the NULL-maximum failure |
| Chain.WalkFollowsChain | sqlite/sqlite.go:279-291 | a finished walk starts with its starting words; every later word is stored as a suffix of the `order` words before it; the final window has no suffix |
| Chain.WalkFuelMonotone | sqlite/sqlite.go:279-291 | once a walk finishes, more fuel gives the same result |
| Sqlite.SQLPrefix.constructor | sqlite/sqlite.go:297-305 | a prefix with ID 0 and the given tuple, order and author |
| Sqlite.SQLPrefix.String | sqlite/sqlite.go:307-309 | exactly the author, "(", the order in decimal (which parses back to the order), "): " and the tuple's text, and nothing more |
| Sqlite.SQLPrefix.Words | sqlite/sqlite.go:311-315 | a fresh array with the tuple's words, so that growing the output leaves the tuple alone |
| Sqlite.SQLSuffix.constructor | sqlite/sqlite.go:317-322 | a suffix with ID 0 and the given prefix rowid, word and count |
| Sqlite.SQLSuffix.String | sqlite/sqlite.go:324-326 | exactly the word, "(", the count in decimal (which parses back to the count) and ")" |
| Sqlite.ScanPrefix | sqlite/sqlite.go:110-115 | the record's row scanned into a fresh tuple whose words are the fields of the stored text, with its id, order and author |
| Sqlite.Store.constructor | sqlite/sqlite.go:34-52 | a new database has both tables empty and satisfies the invariant |
| Sqlite.Store.AddPrefix | sqlite/sqlite.go:159-180 | the new tables and the ID written into the prefix are those of AddPrefixRow, and the prefix's other fields stay |
| Sqlite.Store.IncrementSuffix | sqlite/sqlite.go:182-201 | the new tables are those of IncrementSuffixRow; the ID is written only on an insert |
| Sqlite.Store.ProcessTuple | sqlite/sqlite.go:203-210 | the tables become Chain.ProcessTuple of the prefix's text, order and author and the word, and the prefix gets its rowid |
| Sqlite.Store.IngestLine | sqlite/sqlite.go:235-250 | the tables have the line's observations applied, and the working tuple has had every word of the line shifted in |
| Sqlite.Store.Ingest | sqlite/sqlite.go:218-258 | the tables and the outcome are IngestLines of the lines, and the store invariant is kept |
| Sqlite.Store.StartPrefix | sqlite/sqlite.go:261-275 | equals Chain.StartPrefix |
| Sqlite.Store.Continue | sqlite/sqlite.go:277-291 | the words output are exactly the walk over the tables from the starting words |
| Sqlite.Store.Generate | sqlite/sqlite.go:260-295 | the text written is GenerateText of the tables: the walk's words joined by single spaces, or the error that stopped it |
| EndToEnd.BuiltStep | sqlite/sqlite.go:203-210 | on a line with distinct windows, each processTuple adds one prefix row for the new window and one suffix row with count 1 |
| EndToEnd.ApplyBuilt | sqlite/sqlite.go:237-250 | recording the rest of the line's observations gives one prefix row per window and one suffix row per observation |
| EndToEnd.IngestBuilds | sqlite/sqlite.go:218-258 | ingesting such a line into an empty store answers Ingested and builds exactly those rows |
| EndToEnd.PhraseMatchesOwnWindow | sqlite/sqlite.go:119-124 | the phrase of window i matches the text of window k exactly when i is k |
| EndToEnd.FirstPhraseMatch | sqlite/sqlite.go:119-124 | the phrase of window i finds prefix row i+1, and the line's last window finds none |
| EndToEnd.SingleSuffix | sqlite/sqlite.go:120-124 | prefix row i+1 has exactly one suffix row: the word after window i, with count 1 |
| EndToEnd.OnlySuffix | sqlite/sqlite.go:118-141 | every draw for window i picks the word after it |
| EndToEnd.LastWindowStops | sqlite/sqlite.go:280-284 | the last window has no suffix, so the walk ends there |
| EndToEnd.WalkAlong | sqlite/sqlite.go:279-291 | when every window offers exactly the next word of the line and the last offers nothing, the walk from the first window gives the line back |
| EndToEnd.WalkReplays | sqlite/sqlite.go:279-291 | over the ingested line, the walk from its first `order` words gives back the whole line, for any draws |
| EndToEnd.StartAtFirstWindow | sqlite/sqlite.go:263-268 | a seed whose words all lie in the first window starts at prefix row 1, holding the first `order` words |
| EndToEnd.IngestThenGenerate | sqlite/sqlite_test.go:168-186 | for every line of fields with distinct windows and every seed inside its first window, ingest then generate writes the line back, whatever the draws |
| EndToEnd.TestIngestGenerate | sqlite/sqlite_test.go:168-186 | the test's sentence, ingested with order 3 and author "test" and generated from "The quick", comes back whole |

## Left out

- SQL text and the full-text engine: the queries, the FTS5 syntax, its tokenizer, and the triggers that keep `tuples_idx` in step with `tuples` are not modelled. The index is the `matches` parameter, assumed to return rows in rowid order, and the end-to-end proofs use `WordMatch`, which matches whole words and is case-sensitive, where the FTS5 default tokenizer folds case.
- PrefixContaining: only the tuple text is matched. The `author` column of the index, which the query can also match, is not modelled.
- PrefixContaining: the model takes each result's id to be its rowid. The id plays no part in Generate.
- Randomness is not modelled: `rand.Int63n(maxid)` is `draw % maxid`, and `ORDER BY RANDOM() LIMIT 1` is `candidates[draw % |candidates|]`. The caller supplies the draws, so the model says which results are possible, not how likely each one is.
- I/O is not modelled. The input reader becomes a sequence of lines, and the `io.Writer` becomes the returned text. Scanner errors and line-length limits are not modelled either.
- Ingest's timing and progress printing (`time.Now`, `fmt.Printf`) have no effect on the tables and are left out.
- Database errors other than the unique-constraint violation are not modelled: failing to open or query, a failed transaction. Neither are the transaction in IncrementSuffix, concurrent use, or `Close`.
- Sqlite.Store.AddPrefix: requires `p.ID == 0`, as every caller in the code passes. An explicit nonzero ID, which the `omitempty` tag would insert, is not modelled.
- Sqlite.Store.IncrementSuffix: requires `suf.ID == 0`, for the same reason.
- Sqlite.Store.ProcessTuple: requires `t.ID == 0`, for the same reason.
- Sqlite.Store.Ingest: requires `order >= 1`. With order 0 the Go code shifts into an empty tuple, and a negative order makes `make` fail; both panic.
- Sqlite.Store.Generate: requires the store invariant (`Valid()`), which the constructor establishes and Ingest keeps. It guarantees that every stored prefix text holds a word.
- Sqlite.Store.Generate: the `for` loop is the method `Sqlite.Store.Continue`, and the fuel parameter bounds the number of suffix requests. The Go loop is unbounded, and a chain with a cycle would make it run forever; the model answers `OutOfFuel` instead. `Chain.WalkFuelMonotone` shows that the bound changes nothing about a walk that finishes.
- The `int64` columns and ids are unbounded integers: overflows of rowids and counts are not modelled.
- TextTuple's `UnmarshalText`, `MarshalDB` and `Scan` only forward to `UnmarshalBinary` and `MarshalText`, and are not separate members. `Sqlite.ScanPrefix` uses `UnmarshalBinary` directly.
- Tuple.TextTuple.String: it has no contract of its own. What it means is stated by `Tuple.StringFields` and `GoStrings.FieldsJoinRoundTrip`.
- Go strings are byte strings but are modelled as sequences of characters. White space is the set `unicode.IsSpace` accepts, and invalid UTF-8 is not modelled.
- EndToEnd.TestIngestGenerate: the test text is stated as the test's words joined by single spaces, not as one string literal.
- The `Suffixes` method of the store has no caller in the core. It is modelled only by the function `Chain.Suffixes`, not by a method.
