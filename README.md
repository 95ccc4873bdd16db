# Bulk quiz bot: question bank and batched upload

A Dafny model of the two pieces of logic in `boat/quiz_bot.py`, a Telegram bot
that posts every question of a CSV file to a chat as quiz polls:

- **Loading the question bank** (`QuestionBank.load_csv`). The header must name
  the nine columns `question_no`, `question`, `option1`..`option4`,
  `correct_answer`, `description` and `reference`, or the load fails before
  any row is read and the bank is untouched. Each row is then either skipped
  or turned into a `QuizItem`:
  - a row whose `question` cell is missing or empty is skipped (the test is
    on the unstripped cell, so a whitespace-only question is kept, with
    empty text);
  - the four option cells are stripped and the empty ones dropped, in
    column order;
  - the stripped `correct_answer` is looked up by exact text among those
    options; the first match gives the answer index, and a row with no
    match is skipped.
  Accepted items are appended to the bank, and the new size is returned.
- **Uploading the bank** (`upload_all`). An empty bank returns at once.
  Otherwise the items are cut into consecutive batches of `BATCH_SIZE` (100).
  Each item becomes a poll whose text is `"<no>) <question>\n\n"`, followed
  by `"<reference>\n"` when there is a reference. The text is cut to 300
  characters, the options to 10 and the explanation to 200. A failed send is
  logged and the loop moves on. The 2-second pause between polls follows
  only a send that went through. The 10-second pause follows every batch.

Modules:

- `Wrappers` (`wrappers.dfy`): `Option` and `Result`.
- `PyText` (`py_text.dfy`): Python's `str.strip()` and its whitespace
  set, and the slice `s[:n]`.
- `QuizBank` (`quiz_bank.dfy`):
  - the `QuizItem` record and the function `Normalize`, which says what
    becomes of one row;
  - `Accepted`, the items a list of rows yields;
  - the class `QuestionBank`, whose `LoadCsv` method is the loading loop
    over its `items` field.
- `Upload` (`upload.dfy`):
  - the poll payload (`PollFor`) and the batching (`Batches`);
  - the run's event trace as a specification function (`UploadTrace`);
  - the nested loop `UploadAll`, proved to produce exactly that trace.

A run is observed as a trace of `Send(poll, delivered)` and `Sleep(seconds)`
events. The items whose send goes through are given as the set `delivered`
of their positions in the bank.

What `load_csv` and `upload_all` do not do:
- `correct_answer` is never read as a number: a digit string must equal an
  option's text (`NumericAnswerDropped`);
- there is no fallback to the first option;
- a failed send is not retried;
- `load_csv` appends to the bank rather than replacing it.

## Model

| member | source | states |
|---|---|---|
| PyText.Take | boat/quiz_bot.py:116-120 | the slice `s[:n]` (its meaning is stated by `TakeSpec`) |
| PyText.StripLeftSpec | boat/quiz_bot.py:58 | removing leading whitespace leaves a suffix that starts with a non-space, and everything removed was whitespace |
| PyText.StripRightSpec | boat/quiz_bot.py:58 | removing trailing whitespace leaves a prefix that ends with a non-space, and everything removed was whitespace |
| PyText.Strip | boat/quiz_bot.py:58 | `strip()` never lengthens a string, and gives the empty string exactly when the string is all whitespace (the test `if opt.strip()`) |
| PyText.StripEnds | boat/quiz_bot.py:58 | the result of `strip()` has no whitespace at either end |
| PyText.StripIsInnerPiece | boat/quiz_bot.py:58 | the result of `strip()` is a contiguous piece of the input with only whitespace outside it |
| PyText.StripIdempotent | boat/quiz_bot.py:58 | stripping twice is stripping once |
| PyText.TakeSpec | boat/quiz_bot.py:116-120 | the slice `s[:n]` is a prefix of `s` of at most `n` elements: all of `s` when it fits, exactly `n` elements otherwise |
| QuizBank.HasRequiredColumns | boat/quiz_bot.py:44-49 | the header check: all nine required columns are among the field names |
| QuizBank.Get | boat/quiz_bot.py:52-60 | `row.get(key, default)`: the cell when the column is present, the default otherwise |
| QuizBank.CellsOf | boat/quiz_bot.py:52-73 | the cells the loader reads from a row, each as `row.get(column, "")`; there are always four option cells |
| QuizBank.OrNone | boat/quiz_bot.py:72-73 | `value or None`: an empty cell becomes `None` |
| QuizBank.CompactStripped | boat/quiz_bot.py:54-58 | the options kept are no more than the cells, and each is non-empty with no surrounding whitespace |
| QuizBank.CompactStrippedAppend | boat/quiz_bot.py:54-58 | compacting keeps column order: compacting a concatenation compacts each part |
| QuizBank.CompactStrippedMembers | boat/quiz_bot.py:54-58 | a string is a kept option exactly when it is non-empty and is the stripped text of some cell |
| QuizBank.IndexOf | boat/quiz_bot.py:60 | `list.index`, with `None` where Python raises (its meaning is stated by `IndexOfSpec`) |
| QuizBank.IndexOfSpec | boat/quiz_bot.py:59-62 | `list.index` fails exactly when the value is absent, and otherwise returns the first position holding it |
| QuizBank.Normalize | boat/quiz_bot.py:52-75 | what one pass of the row loop does with a row's cells: `None` where it continues, otherwise the item it appends (its meaning is stated by `NormalizeSpec`) |
| QuizBank.NormalizeRow | boat/quiz_bot.py:52-75 | the same for a decoded row, read through `CellsOf` |
| QuizBank.NormalizeSpec | boat/quiz_bot.py:51-75 | a row is accepted exactly when its question cell is non-empty and its stripped answer is among its kept options. The accepted item has those options, an in-range answer index at the first matching option, the stripped question, and the number, description and reference passed through (empty ones become `None`) |
| QuizBank.SkipEmptyQuestion | boat/quiz_bot.py:52-53 | a row with an empty or missing question cell yields nothing |
| QuizBank.SkipUnmatchedAnswer | boat/quiz_bot.py:59-62 | a row with a question whose stripped answer is not the text of one of its kept options yields nothing |
| QuizBank.MissingAnswerDropped | boat/quiz_bot.py:59-62 | a row without a `correct_answer` cell yields nothing: the empty answer is never a kept option |
| QuizBank.BlankQuestionKept | boat/quiz_bot.py:52-69 | a whitespace-only question passes the emptiness test and is stored as the empty string |
| QuizBank.ExampleOptions | boat/quiz_bot.py:54-58 | the cells "3", "4", "5", "" give the options ["3", "4", "5"] |
| QuizBank.TextAnswerExample | boat/quiz_bot.py:54-62 | the answer "4" among options ["3", "4", "5"] selects index 1 |
| QuizBank.NumericAnswerDropped | boat/quiz_bot.py:59-62 | the answer "2" is not read as an option number: it matches no option, so the row is dropped |
| QuizBank.FilterMapAppend | boat/quiz_bot.py:51-75 | the items yielded by two runs of rows, one after the other, are the items of each run in order |
| QuizBank.FilterMapMembers | boat/quiz_bot.py:51-75 | an item is yielded exactly when some row yields it |
| QuizBank.FilterMapStep | boat/quiz_bot.py:51-75 | one more row adds exactly what that row yields, at the end |
| QuizBank.Accepted | boat/quiz_bot.py:51-75 | the rows yield no more items than there are rows, and every item yielded has one to four non-empty stripped options and an answer index in range |
| QuizBank.QuestionBank.constructor | boat/quiz_bot.py:38-39 | a new bank is empty |
| QuizBank.QuestionBank.LoadCsv | boat/quiz_bot.py:41-76 | with a column missing, the load fails with the set of column names found and the bank is unchanged. Otherwise the new bank is the old one followed by the accepted items in row order, and the new size is returned. A bank of well-formed items stays so |
| Upload.Caption | boat/quiz_bot.py:109-111 | the poll text before it is cut: "<no>) <question>", a blank line, then the reference and a newline when there is one |
| Upload.DescriptionText | boat/quiz_bot.py:120 | `item.description or ""` |
| Upload.PollFor | boat/quiz_bot.py:114-121 | the arguments of `send_poll` for an item (its meaning is stated by `PollForLimits` and `LoadedItemPoll`) |
| Upload.PollForLimits | boat/quiz_bot.py:109-121 | the poll text is a prefix of the caption: all of it when it fits, exactly its first 300 characters otherwise. The options are likewise the item's options or exactly the first 10. The explanation is the description or exactly its first 200 characters. The answer index is unchanged and the poll is not anonymous |
| Upload.CaptionStartsWithQuestion | boat/quiz_bot.py:109-111 | the caption starts with "<no>) <question>" and adds at least the separator and a blank line |
| Upload.LoadedItemPoll | boat/quiz_bot.py:117-119 | for an item the loader accepted, the poll keeps every option and its answer index designates the item's correct option |
| Upload.FlattenAppend | boat/quiz_bot.py:102-103 | flattening a concatenation of batch lists concatenates the flattenings |
| Upload.Batches | boat/quiz_bot.py:102-103 | the batches, put back together in order, are the items |
| Upload.BatchesShape | boat/quiz_bot.py:102-103 | there are ceil(n / 100) batches, none empty, all of 100 items but possibly the last |
| Upload.BatchAt | boat/quiz_bot.py:102-103 | batch `k` is the slice of items starting at `k * 100` |
| Upload.BatchesPrefix | boat/quiz_bot.py:102-103 | the first `k` batches hold exactly the first `k * 100` items |
| Upload.BatchesOf250 | boat/quiz_bot.py:102-103 | 250 items make batches of 100, 100 and 50 |
| Upload.ItemEvents | boat/quiz_bot.py:114-123 | the events of one item: its send attempt, then the pause between polls only if it went through |
| Upload.ItemsTrace | boat/quiz_bot.py:106-125 | the events of the inner loop over a batch, item `i` delivered when `base + i` is in `delivered` |
| Upload.BatchesTrace | boat/quiz_bot.py:102-128 | the events of the outer loop: each batch's item events followed by the pause between batches |
| Upload.UploadTrace | boat/quiz_bot.py:94-128 | the events of a whole run over the batches of the bank (its meaning is stated by `UploadAttemptsEveryItem`, `UploadBatchPauses` and `UploadPaced`) |
| Upload.ItemsTraceSnoc | boat/quiz_bot.py:106-123 | one more item in a batch adds its send and, if it went through, its pause, at the end |
| Upload.BatchesTraceOne | boat/quiz_bot.py:102-128 | a single batch produces its items' events followed by one batch pause |
| Upload.BatchesTraceSnoc | boat/quiz_bot.py:102-128 | one more batch adds its items' events and a batch pause at the end, its first item numbered after all earlier items |
| Upload.UploadStep | boat/quiz_bot.py:102-128 | a turn of the outer loop handles the batch at `k * 100` and extends the trace by that batch's events |
| Upload.AttemptsAppend | boat/quiz_bot.py:106-125 | the send attempts of two traces in sequence are those of each in order |
| Upload.AttemptsForAt | boat/quiz_bot.py:106-125 | the expected attempts are one per item, item `i` as its poll, delivered when `base + i` is in `delivered` |
| Upload.ItemsTraceAttempts | boat/quiz_bot.py:106-125 | a batch's sends are one per item, in order, whatever their outcomes |
| Upload.BatchesTraceAttempts | boat/quiz_bot.py:102-128 | the sends of a run of batches are one per item of all batches, in order |
| Upload.UploadAttemptsEveryItem | boat/quiz_bot.py:102-128 | in a run where every chat reply succeeds, every item of the bank gets exactly one send attempt, in bank order, as the poll built from it, whether or not earlier sends failed |
| Upload.BatchPausesAppend | boat/quiz_bot.py:128 | batch pauses of two traces in sequence add up |
| Upload.ItemsTraceNoBatchPause | boat/quiz_bot.py:106-125 | the item loop itself never takes the batch pause |
| Upload.BatchesTracePauses | boat/quiz_bot.py:102-128 | a run of batches takes one batch pause per batch |
| Upload.UploadBatchPauses | boat/quiz_bot.py:95-128 | a run takes ceil(n / 100) batch pauses, and an empty bank produces no events at all |
| Upload.PacedAppend | boat/quiz_bot.py:123 | two traces whose poll pauses each follow exactly their delivered sends concatenate into one that does too |
| Upload.ItemsTracePaced | boat/quiz_bot.py:106-125 | within a batch, a poll pause comes right after each delivered send and nowhere else |
| Upload.BatchesTracePaced | boat/quiz_bot.py:102-128 | the same holds across batches and batch pauses |
| Upload.KnownEventsAppend | boat/quiz_bot.py:106-128 | traces made only of sends and the two pauses stay so when concatenated |
| Upload.ItemsTraceKnown | boat/quiz_bot.py:106-125 | the inner loop only sends polls and takes the pause between polls |
| Upload.BatchesTraceKnown | boat/quiz_bot.py:102-128 | the outer loop only sends polls and takes the two pauses |
| Upload.UploadPaced | boat/quiz_bot.py:102-128 | in a whole run, a poll pause comes right after each delivered send and after nothing else. Every event is a send, a 2-second or a 10-second pause, so a failed send is followed directly by the next attempt or the batch pause |
| Upload.SendBatch | boat/quiz_bot.py:106-125 | the inner loop produces exactly the batch's trace: per item its send, then a poll pause if delivered |
| Upload.UploadAll | boat/quiz_bot.py:94-130 | the nested loop produces exactly the run's trace over the batches of the bank, and nothing for an empty bank |

## Left out

- The Telegram handlers `start` and `count`, `auto_upload_on_start` and
  `main` (boat/quiz_bot.py:88-92, 132-163) are not modelled. They are
  framework glue.
- The `deleteWebhook` request is not modelled. It is a network side effect.
- Opening the file and `csv.DictReader` are not modelled. The loader takes
  the header's field names and the decoded rows as maps from column to text.
- `DictReader` gives `None` for the missing cells of a short row. The model
  reads such a cell as absent from the row map. For the question, the answer,
  the description and the reference this is what the code does: a `None`
  question or answer skips the row (the answer's `.strip()` raises inside
  the `try` at boat/quiz_bot.py:59-62, as `MissingAnswerDropped` shows), and
  a `None` description or reference becomes `None`. A `None` option cell
  makes `.strip()` at boat/quiz_bot.py:58 raise outside the `try`, so the
  load aborts with the rows before it already appended. That case is not
  modelled: the model reads the option as empty. Likewise a `None` question
  number, which the code stores as `None`, is stored by the model as the
  empty string.
- The `ValueError` for a missing column is `MissingColumns(found)`. It keeps
  the set of column names found, but not `reader.fieldnames` as read (their
  order, duplicates, or the `None` of an empty file) nor the message text
  listing the required columns.
- The chat replies and the `logging.error` line are not modelled, including
  the question number the log reports. The chat id is also left out, since
  it is the same for every send. The replies at boat/quiz_bot.py:100, 104
  and 127 are outside the `try`, so a reply that raises ends the run early.
  The model assumes every reply succeeds, and `UploadAttemptsEveryItem` and
  `UploadAll` describe a run in which they do.
- `send_poll` is the parameter `delivered`. Its exceptions are only the
  outcome `false`; the poll's `type="quiz"` is implicit.
- `asyncio.sleep` and the async structure are not modelled. Each sleep is
  a `Sleep(seconds)` event in the trace.
- The module-level `QBANK` built at import time (boat/quiz_bot.py:78-79) is
  not modelled. A bank is built with the constructor and filled by
  `LoadCsv`.
- Upload.UploadAll works on the bank's item list as a value, since
  `upload_all` only reads it.
