# aminome in Dafny

aminome copies new Misskey notes from the PostgreSQL `note` table into a
Meilisearch index. It runs one loop. The loop fetches the public and home
notes whose id lies above a checkpoint, in id order, at most 100000 at a time.
It turns each row into an index document, adding a `createdAt` time decoded
from the note's "aid" identifier. It posts the batch to the index. Only after
the index accepts the batch does it move the checkpoint to the batch's last id
and write it to `last_indexed_id.txt`. The loop stops when a fetch comes back
empty. Any error ends the run. The next run is meant to resume from the last
saved checkpoint, but as written it cannot reload an aid (see Findings).

The project has one module per component:

- `Results` (results.dfy): the `Result` and `Option` types, and `MapAll`,
  Python's list comprehension over a function that may raise.
- `Ids` (ids.dfy): the id order the query compares and sorts by, and the
  `Cursor` (`Beginning` or `At(id)`).
- `Aid` (aid.dfy): `parse_aid`. It also holds a reference encoder for the
  8-character base-36 time prefix, used to state the decoder's round trip.
- `Notes` (notes.dfy): the `Row` and `Document` records, `format_note`, and
  the list comprehension that formats a batch.
- `Query` (query.dfy): what the `fetch_notes` query means. `Pending(db, c)`
  lists the qualifying rows above `c` in ascending id order. It is built by
  repeatedly taking the row with the lowest id. `Fetch` is its first 100000
  rows.
- `Meilisearch` (meilisearch.dfy): `send_notes_to_meilisearch`. The index
  service is a parameter that maps a request body to the HTTP status it
  answers with.
- `Checkpoint` (checkpoint.dfy): the checkpoint file, both as the code
  reads it and as the loop needs it (see Findings).
- `Sync` (sync.dfy): `main` as the class `Indexer`. The table is a constant
  field, the checkpoint file's content is the field `checkpoint`, and the
  ghost field `log` holds the batches the index accepted during the run. The
  method `Sync` is the `while True` loop.

Modelling decisions:

- Ids are compared character by character (lexicographic order on code
  points). This is the order PostgreSQL's "C" collation gives the ASCII ids
  that Misskey generates.
- The database is a fixed sequence of rows. `id` is the primary key, and
  `UniqueIds` states this where a lemma needs it.
- The code starts from the integer 0 when there is no checkpoint file. The
  model's `Beginning` cursor stands for the start that value is meant to
  give, below every id (see "Left out" for how the code passes it).
- `load_last_indexed_id` reads the checkpoint with `int(...)` and starts
  from 0 (aminome.py:66-68), treating it as an integer. The code writes a
  note id string there, and the model follows what is written.
- `parse_aid` accepts the digits `0-9`, `a-z` and `A-Z`, because Python's
  `int(s, 36)` ignores case. `ParseAidIgnoresCase` shows that an upper-case
  letter decodes like its lower-case form.

## Model

| member | source | states |
|---|---|---|
| `Results.MapAll` | aminome.py:85 | On success there is one result per input, in order, each the function's value on that input. On failure the error is the one raised by the first input that fails, and every earlier input succeeded. |
| `Ids.Below` | aminome.py:26-27 | The order that `"id" > %s` and `ORDER BY "id"` use: strict lexicographic order on characters, a proper prefix first. Its properties are stated by the lemmas below. |
| `Ids.Above` | aminome.py:26 | The condition `"id" > %s`: every id is above `Beginning`, and above `At(c)` exactly when c is below it. Its properties are stated by `AboveTransitive`. |
| `Ids.BelowIrreflexive` | aminome.py:26-27 | No id lies above itself. |
| `Ids.BelowTransitive` | aminome.py:26-27 | The id order is transitive. |
| `Ids.BelowAsymmetric` | aminome.py:26-27 | Two ids are never each above the other. |
| `Ids.BelowTotalFrom` | aminome.py:27 | Two strings that share their first k characters are equal or ordered one way or the other. |
| `Ids.BelowTotal` | aminome.py:27 | Any two distinct ids are ordered, so `ORDER BY "id"` is a total order. |
| `Ids.AboveTransitive` | aminome.py:26 | An id above one that is above the cursor is itself above the cursor. |
| `Aid.DigitValue` | aminome.py:44 | Every base-36 digit has a value below 36, and exactly the decimal digits have values below 10. |
| `Aid.DigitValueIgnoresCase` | aminome.py:44 | An upper-case letter is a digit with the same value as its lower-case form. |
| `Aid.Base36IgnoresCase` | aminome.py:44 | Lower-casing a digit string does not change its value. |
| `Aid.Base36` | aminome.py:44 | A string of n base-36 digits has a value below 36^n. |
| `Aid.TimePrefix` | aminome.py:44 | `id[:8]` is a prefix of the id, 8 characters long, or the whole id if it is shorter. |
| `Aid.ParseAid` | aminome.py:42-45 | Decoding succeeds exactly when the id is non-empty and its first (up to) 8 characters are all base-36 digits. On success the time lies between 946684800000 and 946684800000 + 36^8 - 1. On failure the error carries the prefix literal, as Python's ValueError does. |
| `Aid.ParseAidPrefixOnly` | aminome.py:44 | Two ids that share their first 8 characters decode to the same result. |
| `Aid.ParseAidIgnoresCase` | aminome.py:42-45 | An id and its lower-cased form both fail to decode or both decode to the same time. |
| `Aid.ParseAidRejects` | aminome.py:44 | A character that is not a base-36 digit among the first 8 makes decoding fail. |
| `Aid.EncodeBase36RoundTrip` | aminome.py:44 | Reading back the fixed-width base-36 encoding of any n below 36^width gives n. |
| `Aid.ParseAidRoundTrip` | aminome.py:42-45 | For an id whose first 8 characters encode the time t (from 2000-01-01 on, within the 36^8 ms range), decoding gives exactly t, whatever follows the prefix. |
| `Aid.ParseAidEpoch` | aminome.py:43-44 | An id starting with "00000000" decodes to exactly 946684800000, which is 2000-01-01T00:00:00Z. |
| `Aid.DecodeEncodeBase36` | aminome.py:44 | Re-encoding the base-36 value of any string of lower-case digits, at the string's own width, gives the string back. |
| `Aid.ParseAidMintedAt` | aminome.py:42-45 | Every id whose first 8 characters are lower-case base-36 digits decodes. It is exactly the id minted at the decoded time, followed by the same suffix. Together with `ParseAidRoundTrip` this makes decoding and minting inverse on every such prefix. |
| `Notes.FormatNote` | aminome.py:47-57 | The function has no contract of its own. Its behaviour is stated by `FormatNoteFields` and `FormatNoteCreatedAt`. |
| `Notes.FormatNoteFields` | aminome.py:47-57 | Formatting fails exactly when the id fails to decode, with the same error. Otherwise `id`, `text`, `userId`, `userHost`, `channelId`, `cw` and `tags` are copied verbatim, and `createdAt` is the decoded time. |
| `Notes.FormatNoteCreatedAt` | aminome.py:51 | A note whose id was minted at time t is indexed with `createdAt` = t. |
| `Notes.FormatAll` | aminome.py:85 | `MapAll` of `FormatNote`. Its behaviour is stated by `MapAll`'s contract and by `FormatAllSpec`. |
| `Notes.FormatAllSpec` | aminome.py:85 | A batch formats exactly when every id in it decodes. Each document keeps its note's id and carries the decoded time, one per note and in order. Otherwise the error is the literal of the first id that does not decode. |
| `Query.Qualifies` | aminome.py:25 | The visibility condition: a row qualifies exactly when its visibility is `public` or `home`. |
| `Query.CountShrinks` | aminome.py:26 | Moving the cursor up to a candidate's id drops that candidate and adds no row. `CountAbove` is the termination measure of `Pending`. |
| `Query.Lowest` | aminome.py:25-27 | The step that picks the next row of the ordered result. It keeps the later row of `db` on a tie, which unique ids rule out. Its behaviour is stated by `LowestSpec`. |
| `Query.LowestSpec` | aminome.py:25-27 | There is no lowest candidate exactly when no public or home row lies above the cursor. Otherwise the lowest candidate is a row of the table, qualifies, lies above the cursor, and no candidate has a smaller id. |
| `Query.Pending` | aminome.py:25-27 | The WHERE and ORDER BY of the query without the LIMIT. Its behaviour is stated by `PendingSound`, `PendingAscending`, `PendingComplete`, `PendingCharacterized`, `PendingEmpty` and `PendingResume`. |
| `Query.Fetch` | aminome.py:27 | A batch has at most 100000 rows. |
| `Query.PendingSound` | aminome.py:25-26 | Every listed row is in the table, is public or home, and lies above the cursor. |
| `Query.PendingAscending` | aminome.py:27 | The listed ids are strictly ascending. |
| `Query.PendingComplete` | aminome.py:25-27 | With unique ids, every public or home row above the cursor is listed. |
| `Query.PendingCharacterized` | aminome.py:25-27 | Filter-then-sort as a reference: any strictly ascending list holding exactly the qualifying rows above the cursor is `Pending`. |
| `Query.PendingEmpty` | aminome.py:25-26 | Nothing is pending exactly when no public or home row lies above the cursor. |
| `Query.PendingResume` | aminome.py:26-27 | Querying again from the k-th listed id gives exactly the rest of the list. |
| `Query.FetchIsPrefix` | aminome.py:27 | A batch is a prefix of the ordered list, and it is either full (100000 rows) or the whole list. |
| `Query.FetchSound` | aminome.py:22-30 | A fetched row is in the table, has visibility `public` or `home`, and lies above the cursor. |
| `Query.FetchAscending` | aminome.py:27 | The ids in a batch are strictly ascending. |
| `Query.FetchComplete` | aminome.py:25-27 | With unique ids, a qualifying row above the cursor is missing from a batch only when the batch is full and the row lies beyond the batch's last id. |
| `Query.FetchEmpty` | aminome.py:81-83 | A fetch is empty, which stops the loop, exactly when no qualifying row lies above the cursor. |
| `Query.FetchAdvances` | aminome.py:80-88 | The last id of a non-empty batch lies strictly above the cursor, and moving the cursor there strictly shrinks the number of rows left to fetch. |
| `Query.SortedTableFetchedWhole` | aminome.py:22-30 | If every row qualifies, the ids are ascending and there are at most 100000 rows, the first fetch returns the whole table in order and the next fetch, from its last id, is empty. |
| `Meilisearch.Send` | aminome.py:32-40 | An empty batch makes no request. A non-empty batch is accepted as a whole exactly when the service answers 200 or 202. Any other status rejects the whole batch with that status. |
| `Checkpoint.SavedText` | aminome.py:59-61 | The saved text is exactly as long as the id. That the content is the id itself is pinned only through `LoadSaveRoundTrip`. |
| `Checkpoint.LoadAsWritten` | aminome.py:63-68 | With no file the start value is 0. Otherwise loading succeeds exactly when the file's text is a non-empty string of decimal digits. |
| `Checkpoint.ReloadAsWrittenFails` | aminome.py:59-68 | A saved id containing any non-decimal character cannot be loaded again. |
| `Checkpoint.ReloadAsWrittenFailsOnAid` | aminome.py:59-68 | The aid "9g2ab3cd00", once saved, fails to load. |
| `Checkpoint.Load` | aminome.py:63-68 | The cursor is `Beginning` exactly when there is no checkpoint file. |
| `Checkpoint.LoadSaveRoundTrip` | aminome.py:59-68 | Loading what a run saved gives back the cursor at that id. |
| `Sync.Checkpointed` | aminome.py:87 | `last_indexed_id = notes[-1]['id']` over a run: the id of the last published document, or the starting cursor when nothing was published. Its properties are stated by `CheckpointAfter` and `Indexer.Sync`. |
| `Sync.CheckpointBounds` | aminome.py:87 | After the first k pending rows, the k-th id lies above the starting cursor, and none of the k rows lies above it. |
| `Sync.FetchContinues` | aminome.py:81 | If the rows pending from the cursor are the rest of the run's list, the next batch is the next stretch of that list. |
| `Sync.FormatContinues` | aminome.py:85-87 | Formatting the next batch extends the published documents by the formatted next rows, with the ids unchanged. |
| `Sync.CheckpointAfter` | aminome.py:87-88 | After publishing the first k rows, the checkpoint is the k-th row's id. It lies above the starting cursor, no published id lies above it, and the rows pending from it are exactly those not yet published. |
| `Sync.PublishedPrefixStep` | aminome.py:81-88 | One fetch, format and checkpoint step keeps the run's invariant and publishes at least one more note. The send is covered by `AcceptedBatchesStep`. |
| `Sync.PublishedPrefixDone` | aminome.py:81-83 | Under the invariant, the fetch is empty exactly when everything pending at the start has been published. |
| `Sync.AcceptedBatchesStep` | aminome.py:81-88 | Logging a batch only when it is the whole formatted fetch from the current checkpoint and the index accepted it keeps every logged batch accepted, each the whole formatted fetch from the checkpoint its predecessors left, and at most 100000 documents long. |
| `Sync.Indexer.constructor` | aminome.py:74 | Start-up loads the checkpoint and nothing is published yet. With no file the checkpoint is `Beginning`. Start-up uses the corrected `Checkpoint.Load` from the Findings table. As written, line 74 raises `ValueError` for a file that holds an aid. |
| `Sync.Indexer.Sync` | aminome.py:78-88 | Every logged batch is the whole formatted fetch from the checkpoint that the batches before it left. The index accepted each one with 200 or 202, and none holds more than 100000 documents. The accepted batches, in order, are the rows pending from the old checkpoint, formatted, up to where the run stopped. The checkpoint is the last accepted id, or unchanged if nothing was accepted, so a rejected or undecodable batch never moves it. The checkpoint never moves down, and no published id lies above it. The rows still pending from it are exactly the unpublished rest. The run finishes normally exactly when everything was published. A decode failure carries the batch's error, and a publish failure carries the rejected status. With nothing pending, the run publishes nothing and leaves the checkpoint as it was. |

## Findings

| source | as written | input that shows it | evidently intended | confidence | as-written member | corrected member |
|---|---|---|---|---|---|---|
| aminome.py:59-68 | `save_last_indexed_id` writes the note id string. `load_last_indexed_id` parses the file with `int(...)`. | a checkpoint file holding an aid such as `9g2ab3cd00` | the next run resumes from the saved id | high; not executed | `Checkpoint.ReloadAsWrittenFails` | `Checkpoint.LoadSaveRoundTrip` |

## Left out

- `load_config` and `connect_to_database` (aminome.py:7-19) are left out. They are YAML and database client set-up.
- The SQL text and the psycopg2 cursor are left out. Only the query's meaning over an in-memory table is modelled. A failing query or a lost connection is not modelled.
- Rows inserted while the loop runs are not modelled. The table is fixed for the run.
- Only the C collation's character order is modelled. The order under other collations is not.
- The first run's start value is not modelled as the code passes it. The code passes the Python integer 0, which psycopg2 sends as an unquoted integer literal. PostgreSQL has no comparison operator between `varchar` and `integer`, so the first fetch with no checkpoint file probably fails. `Beginning` models the intended start, which lies below every id.
- The HTTP request is left out: URL and header construction, `orjson.dumps` and `requests.post`. A request that raises instead of answering (network failure) is not modelled separately from a non-success status.
- The index's own contents and its upsert-by-id semantics are not modelled. The `log` records the batches the index accepted.
- A failing write of the checkpoint file is not modelled. `save_last_indexed_id` is the assignment to `checkpoint`.
- `db.close()` in `finally` (aminome.py:90-91) is left out. It is resource cleanup.
- Process exit codes and the exception messages' text are left out. Errors become the `SyncOutcome` values.
- ParseAid: rejects surrounding whitespace, a sign, underscores between digits and non-ASCII digits in the prefix, all of which Python's `int(s, 36)` accepts.
- LoadAsWritten: rejects the same whitespace, sign, underscore and non-ASCII digit forms that Python's `int(text)` accepts.
