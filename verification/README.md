# Budget proposal extraction: a verified model of its pure core

The pipeline turns committee documents (Markdown) about the 2025 central
government budget into JSON records of the legislators' proposals, and then
uploads those records with text embeddings. This project models the
deterministic core of that pipeline in Dafny and proves properties of it.

- **Segmenter** (`segmenter.dfy`) models `parseProposals`. A document is cut
  at every newline that is followed by a section marker: `(…)` holding
  Chinese numerals (`○` allowed), `第N項` or `第N款`. The model keeps only
  the pieces that open with `(…)` holding numerals from `一二三四五六七八九十百`.
  Each kept piece is trimmed and flattened onto one line, with every newline
  becoming U+3000. Paragraph breaks `\n\n` are then put back before
  `提案人：`, `連署人：` and numbered items (`12.`).
- **Tally** (`tally.dfy`) models the frequency table of the consensus vote
  as an ordered sequence of (key, count) pairs. It also models the order in
  which a JavaScript object enumerates its keys, and the scan that keeps the
  first strictly larger count.
- **Consensus** (`consensus.dfy`) models the part of `convertProrosalToObject`
  after the extraction attempts are in. Failed attempts are dropped. The
  first attempt to finish without failing gives the records. The fields `cost`, `action`,
  `frozen`, `deleted` and `added` are each replaced by the plurality value of
  that field over all records of all successful attempts.
- **Ordering** (`ordering.dfy`) models `saveFile`: a stable sort by content,
  then a stable sort by category. `localeCompare` is a parameter `le`, which
  must be a total preorder.
- **Accumulation** (`accumulation.dfy`) models the per-document loop. Each
  finished segment's records are tagged with the committee and appended.
  Every 20 finished segments the whole list is sorted in place and written,
  and it is written once more at the end. The output file name comes from
  the input name.
- **Sync** (`sync.dfy`) models the row shaping of `supabase-sync.js`.
  Proposer and co-signer lists are joined with `、`. An embedding text is
  composed for each row, and the embedding (or null on failure) is attached.
- **Records** and **Strings** hold the shared data model: JavaScript values,
  the proposal record, and `trim`/`split`/`join`.

Completion order, the extraction service and the embedding service are
inputs to the model: a sequence of attempt results, or a function parameter.

Three behaviours of the code differ from what a reader of the conversion
script would expect; the model follows the code:

- One would expect each record to be decided by a vote among the records
  at the same array position. The code pools the counts over every record of every successful attempt.
  Ties follow JavaScript key order: keys that are array indices (the
  integers 0 to 2^32 - 2) come first and in ascending order, every other
  key follows in insertion order. So costs 300, 200, 100 give 100, a null
  seen first loses a tie to 100, and 5000000000 seen first loses a tie to
  a later 100, since it is too large to be an array index (`Tally.TieGoesToSmallestAmount`,
  `Tally.NullLosesTieToAmount`, `Tally.LargeAmountLosesTie`).
- One would expect the records to come from the first attempt that found
  some. The code takes them from the first attempt to finish without
  failing, whatever failed attempts finished before it, and even when that
  attempt returned an empty list (`Consensus.FirstSuccess`,
  `Consensus.EmptyFirstAttemptWins`).
- The in-memory list is sorted in place at every snapshot. So a snapshot is
  contained in the final file as a multiset of records, not as a prefix.

## Model

| member | source | states |
|---|---|---|
| Strings.Trim | convert-md-to-json.js:477 | the result is a contiguous slice of the input with only JavaScript whitespace removed around it, and it neither starts nor ends with whitespace |
| Segmenter.Sections | convert-md-to-json.js:476 | there is at least one piece, and every piece after the first opens with a section marker |
| Segmenter.SectionsJoin | convert-md-to-json.js:476 | joining the pieces with `\n` gives the document back, so the split removes only the cut newlines |
| Segmenter.SectionsAreMaximal | convert-md-to-json.js:476 | no piece holds a newline followed by a section marker, so every cut point was cut |
| Segmenter.FlattenLines | convert-md-to-json.js:482 | every newline becomes U+3000 and every other character stays in place, so the result has no newline |
| Segmenter.NormalizeBreaks | convert-md-to-json.js:481-485 | deleting the newlines of a normalised piece gives the trimmed piece with its newlines turned into U+3000; every newline left is half of a `\n\n` pair placed right before `提案人：`, `連署人：` or digits followed by `.`; no pair stands between two digits, so an item's pair is where its digit run starts; and every `提案人：`, every `連署人：` and every `\d+.` that does not continue a digit run has such a pair right before it |
| Segmenter.ItemsKeepRunsWhole | convert-md-to-json.js:485 | the greedy left-to-right `(\d+)\.` replace never leaves a digit right before a `\n\n` pair that is followed by a digit |
| Segmenter.SplitRunRejected | convert-md-to-json.js:485 | `(一)1\n\n2.`, a break inside the run `12`, is ruled out as a normalisation |
| Segmenter.OwnLabelsBroken | convert-md-to-json.js:483-484 | after `replaceAll(label, "\n\n" + label)` every occurrence of the label has `\n\n` right before it |
| Segmenter.LabelStageKeeps | convert-md-to-json.js:483-484 | inserting breaks before one label keeps the breaks in front of every occurrence of the other label |
| Segmenter.OwnItemsBroken | convert-md-to-json.js:485 | after `replace(/(\d+)\./g, "\n\n$1.")` every numbered item not preceded by a digit has `\n\n` right before it |
| Segmenter.ItemStageKeeps | convert-md-to-json.js:485 | inserting item breaks keeps the breaks in front of every label occurrence |
| Segmenter.NormalizeKeepsOpening | convert-md-to-json.js:478-485 | a piece that opens with `(…)` keeps that exact opening through trimming and all the replacements |
| Segmenter.KeepOne | convert-md-to-json.js:477-478 | a piece is kept exactly when it opens a proposal, as the blank filter removes nothing the marker filter keeps; a kept piece becomes its normalisation |
| Segmenter.KeptOpeningIff | convert-md-to-json.js:476-478 | a piece opens a proposal exactly when it opens with a `(…)` marker that holds no `○`, so `第N項` and `第N款` pieces are dropped |
| Segmenter.KeepPieces | convert-md-to-json.js:477-486 | there are at most as many segments as pieces; every segment opens with `(` plus numerals from `一…百` plus `)`, has its breaks only in the three places and never inside a digit run, and has a break before every label and numbered item |
| Segmenter.ParseProposals | convert-md-to-json.js:474-488 | there is at most one segment per piece; every segment opens with `(` plus numerals from `一…百` plus `)`, has its breaks only in the three places and never inside a digit run, and has a break before every label and numbered item |
| Segmenter.KeepPiecesAppend | convert-md-to-json.js:477-486 | selection works piece by piece, so kept segments stay in document order |
| Segmenter.PreambleDropped | convert-md-to-json.js:476-478 | a first piece that does not open a proposal contributes nothing to the result |
| Tally.FirstIndexAppend | convert-md-to-json.js:438 | counting another value never moves an earlier key's first insertion |
| Tally.Bump | convert-md-to-json.js:438 | an existing key keeps its place and gains one; a new key is appended with count one |
| Tally.TallyOf | convert-md-to-json.js:434-441 | each key occurs in the values with exactly its count, every value has its entry, and keys sit in first-insertion order |
| Tally.SortByNumber | convert-md-to-json.js:450-453 | the array-index keys are reordered by permutation into ascending numeric order |
| Tally.OtherEntriesInOrder | convert-md-to-json.js:450-453 | the keys that are not array indices keep their insertion order |
| Tally.EnumOrder | convert-md-to-json.js:450-453 | the enumeration holds exactly the table's entries, each as often as in the table |
| Tally.EnumOrderOrdered | convert-md-to-json.js:450-453 | index keys come first in ascending order, and the other keys follow in insertion order |
| Tally.FirstMax | convert-md-to-json.js:450-458 | the scan ends on a maximal count, and every entry before it has a strictly smaller count |
| Tally.ScanPicksWinner | convert-md-to-json.js:450-458 | the scan's key occurs most often, and it is enumerated before every other key with the same count |
| Tally.Plurality | convert-md-to-json.js:447-462 | the chosen value satisfies the plurality-winner specification for the pooled values |
| Tally.PluralityWinnerUnique | convert-md-to-json.js:450-458 | the specification determines a single value |
| Tally.RepeatedAmountWins | convert-md-to-json.js:434-458 | costs 100, 100, 200 give 100 |
| Tally.TieGoesToSmallestAmount | convert-md-to-json.js:450-458 | costs 300, 200, 100 give 100, not the first seen |
| Tally.NullLosesTieToAmount | convert-md-to-json.js:450-458 | null then 100 gives 100 |
| Tally.LargeAmountLosesTie | convert-md-to-json.js:450-458 | an amount above 2^32 - 2 is not an index key, so it loses a tie to 100 |
| Tally.TextTieGoesToFirstSeen | convert-md-to-json.js:450-458 | two actions tied: the one seen first wins |
| Tally.MajorityWins | convert-md-to-json.js:434-458 | a value occurring twice beats one occurring once |
| Tally.MoreFrequentWins | convert-md-to-json.js:434-458 | of two values, the one counted strictly more often is chosen, whatever the key order |
| Consensus.Successes | convert-md-to-json.js:418 | failed attempts are dropped, empty lists are kept, and there are none exactly when every attempt failed |
| Consensus.SuccessesOne | convert-md-to-json.js:418 | a failed attempt contributes nothing and a successful one contributes its records |
| Consensus.SuccessesAppend | convert-md-to-json.js:418 | filtering distributes over concatenation, so every success is kept in completion order |
| Consensus.FirstSuccess | convert-md-to-json.js:418-444 | when attempt k is the first that did not fail, every earlier one having failed, its records are the baseline |
| Consensus.Pool | convert-md-to-json.js:434-441 | the ballot starts with the first attempt's values in order and holds only values the schema admits |
| Consensus.PoolOne | convert-md-to-json.js:434-441 | the ballot of one attempt is its records' values in record order |
| Consensus.PoolAppend | convert-md-to-json.js:434-441 | the ballot of two runs of attempts is the first run's ballot followed by the second's, so every record of every attempt is counted |
| Consensus.PoolCountAppend | convert-md-to-json.js:434-441 | the count of a value over all attempts is the sum of its counts over the parts |
| Consensus.VoteAll | convert-md-to-json.js:447-464 | the structural fields are unchanged, and each voted field is a plurality winner of its own ballot |
| Consensus.VoteAllKeepsSchema | convert-md-to-json.js:447-464 | the voted record still satisfies the extraction schema |
| Consensus.Consensus | convert-md-to-json.js:418-465 | no success gives `[]`; otherwise the output has the baseline's length and structural fields, and each voted field is a plurality winner of that field over every record of every success |
| Consensus.PooledVoteIgnoresPosition | convert-md-to-json.js:434-465 | every output record gets the same value in each voted field |
| Consensus.EmptyFirstAttemptWins | convert-md-to-json.js:418-444 | when the first attempt that did not fail returned an empty list, the result is empty, whatever failed attempts came before it and whatever later attempts found |
| Consensus.AllFailedGivesNothing | convert-md-to-json.js:418-421 | all attempts failing gives `[]` |
| Consensus.PooledVoteOverridesAgreement | convert-md-to-json.js:434-462 | with one attempt holding costs 200 and 100, the first record's cost becomes 100 |
| Ordering.SortBy | convert-md-to-json.js:497-498 | the sort is a permutation ordered by the key |
| Ordering.SortKeepsTies | convert-md-to-json.js:497-498 | the sort is stable: tied elements keep their relative order |
| Ordering.SortSortedIsIdentity | convert-md-to-json.js:497-498 | sorting an already ordered list leaves it unchanged |
| Ordering.SaveOrder | convert-md-to-json.js:496-498 | the written array is a permutation of its input, ordered by category and, within a category, by content |
| Accumulation.AllTagged | convert-md-to-json.js:526-533 | every record gathered from the finished segments carries the committee |
| Accumulation.Tag | convert-md-to-json.js:527-531 | each record is kept whole and given the committee |
| Accumulation.AllTaggedSplit | convert-md-to-json.js:526-533 | the records of earlier segments come before those of later ones |
| Accumulation.Step | convert-md-to-json.js:524-543 | the list gains exactly the segment's tagged records; at a multiple of 20 the sorted list is written, otherwise nothing is written and the new records follow the old list |
| Accumulation.ConvertDocument | convert-md-to-json.js:509-552 | there are n/20 + 1 writes; each is in save order; snapshot k holds the records of the first 20(k+1) segments; the last write holds them all; every record carries the committee; every snapshot is contained in the last write |
| Accumulation.OutputName | convert-md-to-json.js:539 | the name ends in `.json` |
| Accumulation.OutputNameReplacesExtension | convert-md-to-json.js:539-549 | `stem.ext`, where `ext` has no dot, becomes `stem.json` |
| Accumulation.OutputNameWithoutDot | convert-md-to-json.js:539 | a name without a dot becomes just `.json` |
| Sync.FlattenNames | supabase-sync.js:87-92 | an array becomes text, and any other value passes through unchanged |
| Sync.FlattenNamesJoins | supabase-sync.js:87-92 | any list of names becomes the names joined in order with `、` |
| Sync.FlattenNamesRoundTrip | supabase-sync.js:87-92 | names become their `、`-join in order; splitting at `、` gives them back when there is at least one and none contains `、` |
| Sync.EmptyListFlattensFalsy | supabase-sync.js:90-92 | an empty list becomes the empty string, which is falsy |
| Sync.Flatten | supabase-sync.js:85-93 | only the proposer and co-signer fields change, and the committee is kept |
| Sync.NonEmpty | supabase-sync.js:43 | only non-empty strings are kept, each one from the input, and none is lost |
| Sync.NonEmptyOne | supabase-sync.js:43 | a single string is kept exactly when it is not empty |
| Sync.NonEmptyAppend | supabase-sync.js:43 | the filter distributes over concatenation, so order and multiplicity are kept |
| Records.StringsOf | supabase-sync.js:88-92 | the names are the array's strings, one per element, in order |
| Records.ArrayJoinOfStrings | supabase-sync.js:88-92 | `join` on an array of strings is the join of the strings themselves |
| Sync.Candidates | supabase-sync.js:38-42 | there are exactly three candidate lines, as in the array literal |
| Sync.EmbeddingText | supabase-sync.js:38-44 | the text starts with the content |
| Sync.JoinLines | supabase-sync.js:38-44 | joining the non-empty lines gives the content and a newline unless the content is empty, then the proposer line, then the co-signer line when present |
| Sync.EmbeddingTextShape | supabase-sync.js:38-44 | the text in closed form: the `連署人：` line appears exactly when the co-signers are truthy, and the proposer line is always there |
| Sync.NullProposerLine | supabase-sync.js:39-40 | a null proposer gives the line `提案人：null` |
| Sync.ShapeRow | supabase-sync.js:36-53 | the row is the flattened item, and its vector is whatever the embedding call gives for the flattened item's text, null included |
| Sync.ShapeRows | supabase-sync.js:83-96 | every item gives a row in the same position, whether or not its embedding failed |

## Left out

- Reading directories and files, `mkdir`, and writing files are left out, because they are I/O. A write is modelled as the array it would contain.
- The extraction calls (`generateObject`), the embedding calls (`embed`) and zod parsing are left out, because they are external services and libraries. Their results are inputs, and every returned record is assumed to satisfy the schema.
- The `asyncPool` concurrency is left out. Completion order is an input sequence, for both the attempts and the segments.
- The random shuffles (`sortByRandom`) and the two hard-coded skipped file names are left out.
- The prompt text and the category table are left out. The code never checks `category` against the table.
- The Supabase delete and insert and all logging are left out, because they are network I/O.
- Floating-point numbers are left out. Amounts are integers or null, and embedding vectors have an unspecified type `V`.
- `JSON.stringify` is modelled as injective on the values the schema admits, so the vote keys are the values themselves.
- Exceptions are left out. A record without a voted field would make `JSON.parse("undefined")` throw, which the schema rules out. A failing segment would abort the run.
- Consensus.Consensus: the guard `if (mostFrequent)` is always true, because a key is a non-empty string. The model therefore always replaces the field.
- Ordering.SaveOrder: `localeCompare` is a parameter `le`, required to be a total preorder. Its collation rules are not modelled.
- Accumulation.ConvertDocument: the in-memory list between snapshots is described as a multiset. The exact order of records that tie on both category and content is not stated.
- Sync.ShapeRow: the embedding vector is opaque, so only its provenance is stated.

## Findings

| source | as written | input that shows it | evidently intended | confidence | as-written member | corrected member |
|---|---|---|---|---|---|---|
| convert-md-to-json.js:434-462 | One frequency table per field, counted over every record of every attempt, decides that field for every output record | One attempt returning two records with costs 200 and 100: both records get cost 100, although the only attempt gave the first record 200 | Count per array position, so a value that every attempt agrees on at a position is kept | medium, not executed | Consensus.PooledVoteOverridesAgreement | Consensus.PositionalKeepsAgreement |

`Consensus.Consensus` models the code as written.
`Consensus.PositionalConsensus` is the per-position vote, with the same contract shape but a per-position ballot.
It keeps the code's tie-break: among tied values the one whose key JavaScript enumerates first wins (`Tally.IsPluralityWinner`).
`Consensus.PositionalKeepsAgreement` proves that a value agreed on at a position survives that vote.
`Consensus.PositionalKeepsSample` shows that on the input above the per-position vote keeps 200.
