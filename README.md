# contacts.app core, modelled in Dafny

A model of the logic inside the contacts web application that is not
plumbing:

- the background archiver's worker loop, which exports every contact to a
  CSV file and answers status queries while it runs;
- the unused, decoupled export writer (`Inner`), an interpreter of `Write`
  and `Finish` commands;
- the bulk delete, which parses the raw form body itself;
- the listing's page window and the mapping of a duplicate email to its
  own error;
- the "email already taken" check;
- the fake-data generator: SQL quoting, the unique-email retry loop, the
  statement layout and the default row count.

Stateful parts are classes whose methods are proved against pure
transition functions. The archiver's `Worker` has the loop's locals as its
fields; `Inner` has `res` and the file. The generator and the bulk delete
are methods with loops. Every outside action is a caller-supplied
parameter: the database, the file system and the random generators.
The archiver's commands and stream items arrive as an explicit event
sequence.

| file | module | models |
|---|---|---|
| `model.dfy` | `Model` | error enum, contact, the comma-joined record, byte/char splitting |
| `int_parse.dfy` | `IntParse` | `i64::from_str` on decimal text, `Display` of integers |
| `archiver.dfy` | `Archiver` | `Archiver::work`, its status projection |
| `writer.dfy` | `ArchiveWriter` | `Inner::new/work/handle/write/finish` |
| `contacts.dfy` | `Contacts` | offset/limit of `get_page`/`get_filtered_page`, error mapping of `create`/`update_by_id` |
| `contacts_page.dfy` | `ContactsPage` | the `delete` handler's form parser and deletion loop, the `page` default |
| `email_check.dfy` | `EmailCheck` | the `email` endpoint's decision |
| `fake_data.dfy` | `FakeData` | `postgres_escape`, `write`, the `num` argument |

Where the code and its documented design differ, the model follows the
code:

- No CSV header line is written. Each archived line is
  `id,first,last,phone,email` and a newline, with no quoting.
- `Start` while an export runs restarts it. `ArchiverRunning` is never
  raised.
- A row error is reported, but the stream goes on being consumed. When the
  stream ends, the stored result is overwritten by `Ok(())` and the worker
  stays marked running.
- A failed file creation on `Start` reports the error but leaves the
  previous file and stream in place. An export already in progress then
  goes on (`Archiver.StartFailures`).
- `writer.rs` is never declared as a module, so `Inner` is unused. It is
  modelled on its own.
- The generated statement keeps the comma after its last tuple. It ends in
  `'),` plus a newline, then `;`. With no rows it is `... VALUES ;`
  (`FakeData.StatementEnding`).
- The bulk delete passes each parsed `i64` straight to `delete_by_id`,
  which takes a `ContactId` (a wrapper of a UUID,
  `src/model/contacts/id.rs:9`, `src/model/contacts.rs:107`). As written
  the handler does not type-check. The model follows the text: the ids
  it deletes are the parsed integers.
- The bulk delete reads the raw body without URL decoding. Every
  parameter's value must be a decimal `i64`, whatever its name. The empty
  body counts as one parameter without a value, so it is refused.

## Model

| member | source | states |
|---|---|---|
| Model.CsvRecord | src/model/archiver/writer.rs:97 | the record is id, first, last, phone and email joined by `,` in that order, with no quoting and no terminator |
| Model.SplitAt | src/pages/contacts.rs:180 | splitting yields at least one piece, so even the empty body is one parameter |
| Model.SplitAtInverse | src/pages/contacts.rs:180 | splitting the body at every `&` loses nothing: joining the pieces back with `&` gives the body, and no piece contains `&` |
| Model.JoinSplit | src/pages/contacts.rs:180 | joining the pieces of a split back with the separator gives the input |
| Model.PiecesLackSep | src/pages/contacts.rs:180 | no piece of a split contains the separator |
| Model.SplitAtJoin | src/pages/contacts.rs:180 | a separator-free prefix followed by the separator splits off as exactly one piece |
| Model.SplitAtNoSep | src/pages/contacts.rs:180 | a body without `&` is a single parameter |
| Model.CsvRecordSplits | src/model/archiver/writer.rs:97 | a record whose fields contain no comma splits back at `,` into exactly id, first, last, phone, email; the format has no escaping, so this is the only case in which it is unambiguous |
| IntParse.ParseI64 | src/pages/contacts.rs:187 | an accepted text is an optional single sign followed by one or more digits; its value lies within the signed 64-bit range and is negative only after a `-` |
| IntParse.ParseIntText | src/pages/contacts.rs:187 | every 64-bit integer written in decimal parses back to itself |
| IntParse.NatTextValue | src/pages/contacts.rs:187 | the digits of a natural number's decimal text read back to that number |
| IntParse.ParseIgnoresPlusAndZeros | src/pages/contacts.rs:187 | a leading `+` or leading zero does not change the parsed value |
| IntParse.LeadingZero | src/pages/contacts.rs:187 | a leading zero digit does not change a digit string's value |
| Archiver.CsvLine | src/model/archiver.rs:103 | the line for a contact is its record followed by exactly one newline |
| Archiver.StartNext | src/model/archiver.rs:59-80 | `Start` always sets running; a failed count stores its error and keeps count and total; a successful count sets total and zeroes count; a failed creation stores the I/O error; the result stays empty exactly when both succeed, and then a new empty file and the new stream replace the old ones; a failure keeps the old stream, file and disk content |
| Archiver.ResetNext | src/model/archiver.rs:89-93 | after `Reset` the status is `Waiting` and nothing can be consumed; stream, file, disk content, count and total are kept |
| Archiver.StatusOf | src/model/archiver.rs:81-88 | the status is `Complete` exactly when a result is stored, with that result; `Waiting` exactly when none is stored and the worker is stopped; otherwise `Running` with the count and total |
| Archiver.RowNext | src/model/archiver.rs:98-124 | the stream branch keeps the file open exactly while the stream is live and never changes running; nothing changes unless running with a live stream; the end of the stream closes the file, puts its content on disk and stores `Ok(())`; otherwise exactly the first item is consumed |
| Archiver.RowCounted | src/model/archiver.rs:101-112 | the count goes up by one exactly when a contact is consumed and its write succeeds, and then its line is appended to the file; otherwise the count stays and the file is kept or, at the end of the stream, closed |
| Archiver.Step | src/model/archiver.rs:54-127 | handling any one event keeps a file open exactly when the stream is live |
| Archiver.Run | src/model/archiver.rs:54-127 | after every event sequence, a file is open exactly when the stream is live (not pending) |
| Archiver.RunAppend | src/model/archiver.rs:54-127 | events are handled one at a time in order: running two event sequences one after the other is running their concatenation |
| Archiver.RestartDiscardsEarlierStart | src/model/archiver.rs:59-79 | a successful start performed while a run is in progress yields the same state as the start alone, which reports `Running(0, total)`; no "already running" error exists |
| Archiver.StartFailures | src/model/archiver.rs:62-76 | a failed count reports `Complete(Err)`, sets running and changes nothing else; a failed file creation also sets total and resets count, keeps the previous file and stream, and leaves a stream in progress consumable |
| Archiver.StoppedConsumesNothing | src/model/archiver.rs:98 | while not running, any number of stream events leave the state unchanged |
| Archiver.ResetStopsExport | src/model/archiver.rs:89-93 | after a reset the status is `Waiting` and no further row is consumed, whatever rows remain |
| Archiver.ProgressMonotone | src/model/archiver.rs:98-117 | stream events never decrease the progress count and never change the total |
| Archiver.DrainStep | src/model/archiver.rs:98-117 | consuming one more row takes the state after k - 1 rows to the state after k rows: a contact adds its line and one to the count, a row error becomes the result |
| Archiver.DrainPrefix | src/model/archiver.rs:98-117 | after k stream events, the first k rows are consumed: each contact appends its line and is counted, a row error is stored, and the remaining stream is the rest |
| Archiver.DrainAll | src/model/archiver.rs:118-123 | at the stream's end the file is flushed to disk and closed, the stream becomes pending, the result becomes `Ok(())` even after a row error, and the worker stays running |
| Archiver.LinesOfContacts | src/model/archiver.rs:101-103 | for a stream of contacts only, line i of the export is the record of contact i followed by a newline |
| Archiver.ExportRun | src/model/archiver.rs:59-123 | a successful start followed by draining the stream leaves on disk exactly one line per contact, in stream order, with no header, and reports `Complete(Ok(()))` |
| Archiver.RowErrorKeepsConsuming | src/model/archiver.rs:113-116 | a row error is reported as `Complete(Err)` as soon as it is consumed, and the stream can still be consumed |
| Archiver.Worker.constructor | src/model/archiver.rs:46-53 | the spawned worker is stopped, has no result, no file open and a pending stream |
| Archiver.Worker.Start | src/model/archiver.rs:59-80 | the new state is the start rule applied to the old one; the three outcomes set exactly the fields listed, and running is always set |
| Archiver.Worker.GetStatus | src/model/archiver.rs:81-88 | a stored result gives `Complete`, else a stopped worker gives `Waiting`, else `Running(count, total)`; nothing changes |
| Archiver.Worker.Reset | src/model/archiver.rs:89-93 | clears the result and running; count, total, file, stream and disk content unchanged |
| Archiver.Worker.StepRow | src/model/archiver.rs:98-124 | consumes only while running with a live stream; a contact with a successful write appends one line and increments count; a failed write or row error stores the error without counting; the end of the stream flushes, closes and stores `Ok(())`; running and total never change |
| Archiver.Worker.Work | src/model/archiver.rs:54-127 | the state after any event sequence is `Run` of it, and the status replies are those `Replies` gives |
| ArchiveWriter.HandleNext | src/model/archiver/writer.rs:70-85 | a write never replies or flushes; with an error in `res` it changes nothing and returns nothing, otherwise it returns its outcome and appends the record exactly when it succeeds; `Finish` always returns `Ok` to store, replies once and leaves the file as is; with an error in `res` it replies with that error without flushing, otherwise with the flush outcome, and a successful flush puts the file on disk |
| ArchiveWriter.WritesDroppedAfterError | src/model/archiver/writer.rs:64-66 | while `res` holds an error every write is dropped: state and error unchanged |
| ArchiveWriter.WritesKeepFirstError | src/model/archiver/writer.rs:64-73 | writes from an error-free state leave in `res` the first write error (or `Ok`) and append exactly the records written before it |
| ArchiveWriter.WrittenWithoutError | src/model/archiver/writer.rs:97 | without a write error, the records reaching the file are those of all contacts, in order |
| ArchiveWriter.WritesReplyNothing | src/model/archiver/writer.rs:72-73 | however many writes are handled, and whatever `res` holds, none of them sends a reply |
| ArchiveWriter.Session | src/model/archiver/writer.rs:64-82 | writes followed by `Finish` give exactly one reply, the `Finish`'s: the first write error (with no flush), or else the flush outcome; the file gains the records written before the first error, a flush puts it on disk only after error-free writes, and `res` is `Ok` afterwards |
| ArchiveWriter.Inner.constructor | src/model/archiver/writer.rs:51-57 | a fresh interpreter holds `Ok` and an empty file |
| ArchiveWriter.Inner.WriteRecord | src/model/archiver/writer.rs:87-98 | a successful write appends the five fields joined by commas with no terminator; the reply is the write's outcome |
| ArchiveWriter.Inner.FinishFile | src/model/archiver/writer.rs:100-102 | a successful flush puts the file's content on disk; the reply is the flush's outcome |
| ArchiveWriter.Inner.Handle | src/model/archiver/writer.rs:70-85 | a write is performed only while `res` is Ok; `Finish` swaps `res` for Ok and replies with the old error or the flush outcome, flushing only in the latter case |
| ArchiveWriter.Inner.Work | src/model/archiver/writer.rs:59-68 | commands are handled one at a time in arrival order, storing what each returns; the final state and replies are `RunNext` and `RunReplies` of the commands |
| ArchiveWriter.NewInner | src/model/archiver/writer.rs:51-57 | creating the file fails exactly when creating the interpreter does, with the same error |
| Contacts.WrapI64 | src/model/contacts.rs:74 | the result is in the signed 64-bit range, equals the input when it already is, and is congruent to the input modulo 2^64 |
| Contacts.Offset | src/model/contacts.rs:73-74 | the offset is a signed 64-bit value congruent to (page - 1) * 10 modulo 2^64, as wrapping arithmetic gives it |
| Contacts.GetPage | src/model/contacts.rs:91-93 | the unfiltered listing asks for 10 rows at the page's offset, which is (page - 1) * 10 for every page that does not wrap |
| Contacts.GetFilteredPage | src/model/contacts.rs:72-74 | the filtered listing asks for the same window as the unfiltered one |
| Contacts.OffsetOfPage | src/model/contacts.rs:73-74 | page p starts at row (p - 1) * 10 while that fits in 64 bits; page 1 starts at 0 and page 0 asks for offset -10 |
| Contacts.PagesDoNotOverlap | src/model/contacts.rs:73-74 | for pages up to the largest one that does not wrap, windows of different pages never overlap, and consecutive pages are exactly 10 rows apart; past that bound the offsets wrap around (see `Contacts.OffsetWraps`) |
| Contacts.OffsetWraps | src/model/contacts.rs:74 | the first page past the largest plain one asks for a negative offset (wrap-around) |
| Contacts.MapWriteResult | src/model/contacts.rs:124-130 | success returns the id; a unique violation reported by the database exactly gives `DuplicateEmail`; every other failure is passed on as a database error |
| ContactsPage.PageOrDefault | src/pages/contacts.rs:77 | a missing `page` is 1, a given one is used as is |
| ContactsPage.IsUtf8 | src/pages/contacts.rs:186 | a non-empty valid text starts with an ASCII byte or a lead byte from 0xC2 to 0xF4 |
| ContactsPage.SplitFirst | src/pages/contacts.rs:181 | a parameter splits into one or two pieces, two exactly when it contains `=`; the first piece holds no `=` and the pieces joined with `=` give the parameter |
| ContactsPage.ParseParam | src/pages/contacts.rs:181-187 | "param had no name" never happens; "param had no value" happens exactly when the parameter has no `=` |
| ContactsPage.AsciiIsUtf8 | src/pages/contacts.rs:186 | ASCII text passes the UTF-8 check |
| ContactsPage.ParseParamAccepts | src/pages/contacts.rs:181-187 | "param had no name" never happens; "no value" happens exactly when there is no `=`; a parameter is accepted exactly when the text after its first `=` parses as an `i64`, whatever the name |
| ContactsPage.AsciiDigitsText | src/pages/contacts.rs:186-187 | a value that parses as an `i64` is valid UTF-8, so the UTF-8 check never refuses a number |
| ContactsPage.ParamEffect | src/pages/contacts.rs:181-190 | a parameter deletes an id exactly when it is well formed, its raw name is `selected_contact_ids` and the store accepts, and the id is its value; a well-formed parameter with any other name does nothing; a malformed one fails with its parse error whatever its name; a store failure is passed on |
| ContactsPage.Effects | src/pages/contacts.rs:180-191 | there is one effect per parameter, and effect i is that of parameter i with the store's answer i |
| ContactsPage.DeletedIdsAppend | src/pages/contacts.rs:180-191 | the deletions of a sequence of parameters are those of its first part followed by those of the rest, so deletions happen in parameter order |
| ContactsPage.DeletedIdsFromEffects | src/pages/contacts.rs:188-190 | every deleted id is one some parameter asked to delete |
| ContactsPage.DeleteNext | src/pages/contacts.rs:181-190 | one turn of the loop fails exactly when the parameter's effect is an error, and then with that error and no new deletion; otherwise the deleted ids are those of all parameters up to this one |
| ContactsPage.Delete | src/pages/contacts.rs:180-191 | the request succeeds exactly when every parameter is well formed and every deletion it asks for succeeds, with the selected ids deleted in order; otherwise it fails with the first failing parameter's error, after the deletions of the parameters before it |
| ContactsPage.EmptyFormRefused | src/pages/contacts.rs:180-185 | the empty body is one parameter without `=`, refused with "param had no value" |
| EmailCheck.Get | src/pages/contacts/item/email.rs:35-39 | a lookup error is passed on; otherwise the answer is "Email already exists" exactly when the email belongs to a contact with another id, and "" otherwise, in particular when no contact has it |
| EmailCheck.ByEmail | src/pages/contacts/item/email.rs:35 | the lookup finds nothing exactly when no contact has the email, and otherwise a contact of the store that has it |
| EmailCheck.TakenByAnother | src/pages/contacts/item/email.rs:35-39 | for a store with unique emails, the email is reported taken exactly when some contact other than the one edited holds it |
| FakeData.PostgresEscape | generate-fake-data/src/main.rs:75-77 | the escaped text is longer than the input by the number of single quotes, and text without a quote is unchanged |
| FakeData.EscapeWithoutQuotes | generate-fake-data/src/main.rs:75-77 | text without a quote is left unchanged |
| FakeData.EscapeAppend | generate-fake-data/src/main.rs:75-77 | escaping a concatenation escapes each part, so each character is handled on its own |
| FakeData.UnescapeEscape | generate-fake-data/src/main.rs:75-77 | replacing `''` by `'` recovers the input, and the escaped text has its quotes in adjacent pairs |
| FakeData.EscapeUnescape | generate-fake-data/src/main.rs:75-77 | every text whose quotes come in adjacent pairs is the escape of exactly one text |
| FakeData.NumArg | generate-fake-data/src/main.rs:11-14 | the row count is a signed 64-bit value |
| FakeData.NumArgDefaults | generate-fake-data/src/main.rs:11-14 | a missing or unparsable argument gives 9000 |
| FakeData.NumArgReadsDecimal | generate-fake-data/src/main.rs:11-14 | a decimal 64-bit argument is used as given |
| FakeData.RowLine | generate-fake-data/src/main.rs:60-67 | a row's line starts with `('` and ends with `'),` and a newline |
| FakeData.Statement | generate-fake-data/src/main.rs:32-73 | the statement is longer than the header and ends with `;` |
| FakeData.EmptyStatement | generate-fake-data/src/main.rs:33-71 | with no rows the statement is the header followed directly by `;` |
| FakeData.StatementEnding | generate-fake-data/src/main.rs:60-71 | with at least one row, the statement without its final `;` ends in the last tuple's `'),` and a newline, so the comma after the last tuple is kept |
| FakeData.DrawRow | generate-fake-data/src/main.rs:42-58 | the row's email is built from its names and its phone is the row's third draw; generation gives up exactly when the first 9,999,999 candidate emails are all used; otherwise the row is the first candidate not yet used, and the next stream position follows its names |
| FakeData.AppendFreshRow | generate-fake-data/src/main.rs:60-68 | appending a row with an unused email keeps the emails distinct and adds its email to the used set and its line to the statement |
| FakeData.EmailsHold | generate-fake-data/src/main.rs:68 | every row's email is among the used ones |
| FakeData.AppendRowLine | generate-fake-data/src/main.rs:60-67 | writing a row appends its line to the statement so far |
| FakeData.NextRow | generate-fake-data/src/main.rs:40-69 | one turn keeps the header-plus-lines output, distinct emails built from the names, and `used` as the rows' emails; it gives up exactly when every candidate from position k is used, and then changes nothing; otherwise it appends the first fresh candidate drawn from k, and the next row starts where that candidate's names end |
| FakeData.Write | generate-fake-data/src/main.rs:32-73 | the output is the header, one escaped tuple line per row, then `;`; emails are pairwise distinct and each is `first.last@example.com` of its row; every row is the first fresh candidate drawn from the stream position where the previous row ended, starting at position 0; without giving up there are exactly `num` rows (none for a negative `num`); giving up leaves fewer than `num`, and happens only when every candidate from the position the loop reached is already used |

## Left out

- Concurrency and scheduling are not modelled: `tokio::select!` with `biased` polling, the channels, `spawn`, `spawn_blocking`, `yield_once` and the channel-closed arms. The order of events and commands is a sequence the caller chooses.
- Archiver.Worker.GetStatus: reports the pair (count, total) instead of the `f32` fraction `count / total`, which has no Dafny counterpart (floating point; NaN when total is 0).
- Archiver.Worker.StepRow: `count` is unbounded here. In the source it is an inferred `i32`, which would overflow after 2^31 - 1 rows; that is not modelled.
- Buffering in `BufWriter` is abstracted. On disk the model only distinguishes "truncated" and "flushed". Intermediate flushes of a full buffer are not modelled, and neither is a buffer flushed when a restart drops the previous writer.
- `write_all` partial writes are not modelled: a write either appends its whole line or fails.
- The reused `line` buffer is not modelled.
- The `unwrap` panics are not modelled: on flush in the archiver, and on send and receive in the writer.
- Contacts.GetPage: release-build wrapping arithmetic is modelled. A debug build would instead panic on the overflowing page numbers.
- The SQL queries themselves are left out, with the database pool. Counting, the contact stream, deletion, insert/update and the email lookup are inputs or outcomes given as parameters.
- `ContactId` is a string here. Its UUID parsing and display are left out.
- The HTTP handlers' routing, templates, flashes and htmx headers are left out. So are the other pages and the asset build.
- The random name and phone generators are a caller-given stream of strings. The generator's progress messages on standard error are not modelled.
- The archiver's `info!` and `trace!` log messages are not modelled (archiver.rs:46, 79, 87, 92); they change no state.
- The choice between a file and standard output for the generator's output is left out, since the statement is the same in both.
- ContactsPage.Delete: the deletion of each id is the caller-given outcome of the store. Which rows a deletion removes is not modelled.
- FakeData.Write: write errors on the output are not modelled (the header, each tuple line and the final `;`, main.rs:33-36, 60-67 and 71). The source then returns early with a partial statement; the model always produces the whole statement.
- ContactsPage.Delete: the `dbg!` of the form body, which prints it to standard error, is not modelled.
