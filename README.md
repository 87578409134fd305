# Task bot core in Dafny

A model of the to-do Telegram bot in `bot.py`: the `tasks` table it keeps in
SQLite, and the three command handlers that read and change it. `/add` stores a
task, with an optional trailing `H:MM`/`HH:MM` reminder. `/list` shows the
user's open tasks, numbered from 1. `/done n` marks the n-th listed task done.

Modules:

- `Options` (options.dfy): `Option`.
- `Text` (text.dfy): the Python string operations the handlers rely on:
  - `str.isspace`, `strip()`, `split()` and `split(maxsplit=1)`;
  - `replace(tok, '')`;
  - `int()` on a whitespace-free word, and `f"{n}"` for integers.
- `TimeToken` (timetoken.dfy): `re.search(r'(\d{1,2}:\d{2})$', text)`, including
  the rule that `$` also matches just before a final newline, and the extraction
  step of `/add` built on it.
- `TaskTable` (tasktable.dfy): the `tasks` table as a sequence of rows in
  insertion order. It holds the meaning of the listing query (`OpenOf`) and of
  the completion UPDATE (`MarkDone`), and the lemmas about them.
- `TaskStore` (store.dfy): the class `Store`, with the rows and the
  AUTOINCREMENT counter as fields:
  - `add_task` and `mark_task_done` are methods that update the fields;
  - `get_user_tasks` is a function that reads them.
- `Commands` (commands.dfy): the `/add`, `/list` and `/done` handlers as methods
  on a `Store`.
  - `/list` builds its reply line by line, as the handler does, and is proved
    equal to `RenderList` of the listing.
  - The other replies are values of the `Reply` datatype.
  - `ReplyText` gives the message text of every reply.

Behaviour of `bot.py` worth noting, modelled as the code has it:

- `/list` appends the reminder right after a task's text, with no separator.
  For example, it shows `2. Call mom18:00`.
- `/add` accepts a task whose text is empty once the time is taken out. For
  example, `/add 18:00` stores the text `""` with the reminder `18:00`.
- `replace` removes every occurrence of the matched time, not only the trailing
  one.
- The result of `replace` is stripped at both ends.
- When no time matches, the argument is stored exactly as `split(maxsplit=1)`
  leaves it, trailing whitespace included.
- `add_task` always reports success, so the "could not add" reply
  (`Reply.AddFailed`) is unreachable in the model, as it is in the code.

## Model

| member | source | states |
|---|---|---|
| TaskStore.Store.constructor | bot.py:23-38 | `init_db`: the table starts empty, the first id to be issued is 1, and the store invariant holds (ids ascending, all below the counter) |
| TaskStore.Store.AddTask | bot.py:40-47 | appends exactly one open row under a fresh id, which is above every id issued before; the counter advances by one; the invariant is kept; it reports success |
| TaskStore.Store.GetUserTasks | bot.py:49-56 | the listing is strictly ascending by id; every entry is `(id, text, reminder)` of an open row of that user; every open row of that user is listed |
| TaskStore.Store.MarkTaskDone | bot.py:58-64 | the loop over the rows leaves the table equal to `MarkDone` of the old table: every row with that id is done, whoever owns it, and nothing else changes; the counter is unchanged and it reports success |
| TaskTable.OpenOf | bot.py:52 | the listing query `WHERE user_id = ? AND is_done = FALSE ORDER BY id` on a table kept in id order: the open rows of the user, in table order, as `(id, task_text, reminder_time)`; never longer than the table (its meaning is stated by `OpenOfExact` and `OpenOfAscending`) |
| TaskTable.OpenOfSound | bot.py:52 | every listed entry comes from an open row of the user: no task of another user and no finished task is listed |
| TaskTable.OpenOfComplete | bot.py:52 | every open row of the user is listed |
| TaskTable.OpenOfExact | bot.py:52 | the listing holds exactly the user's open rows (both directions) |
| TaskTable.OpenOfAscending | bot.py:52 | `ORDER BY id`: on a table whose ids ascend, the listing strictly ascends by id |
| TaskTable.OpenOfAppend | bot.py:43-44 | inserting a row extends the user's listing by that row exactly when it is an open row of that user, and leaves the listing as it was otherwise |
| TaskTable.MarkDone | bot.py:61 | the completion UPDATE `SET is_done = TRUE WHERE id = ?`: the table keeps its length (row by row in `MarkDoneAt`) |
| TaskTable.MarkDoneAt | bot.py:61 | row by row, the UPDATE keeps every row's id, owner, text and reminder, and a row is done afterwards exactly when it was done before or carries the id |
| TaskTable.MarkDoneAbsent | bot.py:61 | the UPDATE on an id that no row has changes nothing (and raises no error) |
| TaskTable.MarkDoneIdempotent | bot.py:61 | completing the same id twice gives the same table as completing it once |
| TaskTable.MarkDoneOtherOwner | bot.py:61 | when no row with that id belongs to user `v`, `v`'s listing is unchanged by the UPDATE |
| TaskTable.MarkDoneRemovesListed | bot.py:61 | on an id-ascending table, completing the id of entry `k` of a user's listing removes exactly entry `k` from that listing |
| TaskTable.MarkDoneKeepsOtherUsers | bot.py:61 | completing a task listed for one user leaves every other user's listing unchanged |
| Text.IsSpace | bot.py:148 | `str.isspace()` on one character: the whitespace set of CPython's `str` (ASCII whitespace, the separators `\x1c`-`\x1f`, NEL, NBSP and the Unicode space separators); `split()` and `strip()` break on these |
| Text.Words | bot.py:148 | `split()`: every word is non-empty and free of whitespace, and there are no words exactly when the text is all whitespace (which words they are is fixed by `WordsCons`) |
| Text.WordsCons | bot.py:148 | `split()` takes the words off the front: leading whitespace, then a non-empty whitespace-free word ending at whitespace or at the end, gives that word followed by the words of the rest |
| Text.SplitOnce | bot.py:103 | `split(maxsplit=1)`: at most two parts; a second part starts with non-whitespace and is a final segment of the text |
| Text.SplitOnceAgreesWithWords | bot.py:103 | `split(maxsplit=1)` has fewer than two parts exactly when `split()` does; its first part is the first word; splitting its second part gives the remaining words |
| Text.SplitOnceOfCommand | bot.py:103 | `"/add " + arg` splits into `["/add", arg]` when `arg` starts with non-whitespace |
| Text.WordsOfCommand | bot.py:148 | `cmd + " " + arg` splits into exactly `[cmd, arg]` when both are single words |
| Text.Strip | bot.py:116 | `strip()`: the text with leading and trailing whitespace removed; neither end of the result is whitespace; the result is empty exactly when the text is all whitespace |
| Text.StripAround | bot.py:116 | stripping `a + w + b`, where `a` and `b` are whitespace and `w` does not begin or end with whitespace, gives `w` |
| Text.RemoveAll | bot.py:116 | `replace(tok, '')`: never longer than the text; the text itself when `tok` does not occur; shorter by at least `|tok|` when it does (the result itself is fixed by `RemoveFirstOccurrence`) |
| Text.RemoveFirstOccurrence | bot.py:116 | `replace(tok, '')` scans left to right: the text before the first occurrence is kept, that occurrence is deleted, and the rest is processed the same way |
| Text.ParseInt | bot.py:153 | `int()` on a word: succeeds exactly on an optional sign followed by decimal digits; a digits-only word gives a non-negative value |
| Text.DecimalString | bot.py:137 | `f"{n}"` for a natural number: a non-empty string of digits with no leading zero |
| Text.DecimalRoundTrip | bot.py:137 | the value of the digits of `f"{n}"` is `n` |
| Text.ParseDecimal | bot.py:153 | `int(f"{n}") == n` |
| Text.ParseNegative | bot.py:153 | `int()` reads `-` followed by the digits of a positive `m` back as `-m`, and that text is a single word |
| TimeToken.Search | bot.py:111 | `re.search`: a match when one exists, and it is the leftmost one; no result exactly when the pattern matches nowhere |
| TimeToken.MatchesEndAt | bot.py:111 | every match ends at the end of the text, or just before a final newline, and is 4 or 5 characters long |
| TimeToken.ExtractTime | bot.py:111-116 | no reminder exactly when nothing matches, and then the text is kept verbatim; otherwise the reminder is a time token the pattern matched, the text is shorter by at least the token's length, and neither end of the text is whitespace |
| TimeToken.ExtractSingleToken | bot.py:111-116 | a text ending in a time token that occurs nowhere else (and is the longest token the text ends with) stores that token as the reminder and the stripped rest as the text |
| TimeToken.ExtractSuffix | bot.py:111-116 | a text ending in a time token (the longest it ends with) takes that token as the reminder, and the text is the stripped rest with every occurrence of the token removed |
| TimeToken.RemoveOnlyOccurrence | bot.py:116 | removing a token that occurs only at the end of `a + tok` leaves `a` |
| TimeToken.SearchFindsSuffix | bot.py:111 | on `body + tok`, where `tok` is a time token not preceded by a digit when it has one hour digit, the search finds exactly `tok` |
| TimeToken.NoTrailingDigit | bot.py:111-114 | a text that does not end in a digit (ignoring a final newline) is stored verbatim, with no reminder |
| TimeToken.CallMomExample | bot.py:111-116 | `"Call mom 18:00"` stores `"Call mom"` with reminder `"18:00"` |
| TimeToken.TimeInsideTextExample | bot.py:111-114 | `"call at 9:00 sharp"` is stored verbatim, with no reminder |
| TimeToken.PlainTextExample | bot.py:111-114 | `"Buy milk"` is stored verbatim, with no reminder |
| TimeToken.LeftmostMatchExample | bot.py:111-116 | `"123:45"` stores text `"1"` with reminder `"23:45"`: the leftmost match wins |
| TimeToken.BareTimeExample | bot.py:111-116 | `"18:00"` stores an empty text with reminder `"18:00"` |
| TimeToken.EveryOccurrenceRemovedExample | bot.py:116 | `"10:00 or 10:00"` stores `"or"`: every occurrence of the token is removed |
| Commands.IntString | bot.py:159-161 | `f"{task_num}"` for any integer, negative included: a non-empty whitespace-free word that `int()` reads back as the same number |
| Commands.ReplyText | bot.py:104-163 | the message text of each reply, character for character as the handlers send it; what the `/add` and `/done` replies say is stated by `AddReplyEchoes`, `CompletedNamesNumber` and `NotFoundNamesNumber` |
| Commands.AddReplyEchoes | bot.py:119-121 | the `/add` confirmation is its header followed by the stored text; it ends there when there is no reminder to show, and ends with the reminder otherwise |
| Commands.CompletedNamesNumber | bot.py:159 | `split()` of the `/done` confirmation is `*Задача`, the number it was given, and `выполнена!*` |
| Commands.NotFoundNamesNumber | bot.py:161 | `split()` of the not-found reply is `*Задача`, the number it was given, `не` and `найдена*` |
| Commands.AddCommand | bot.py:101-124 | without an argument, it replies "specify a task" and leaves the store alone; otherwise it extracts the time, appends one row for the user, extends that user's listing by exactly that task, leaves every other user's listing unchanged, and echoes text and reminder |
| Commands.ListCommand | bot.py:126-143 | the reply built by the loop is the empty-list message or the header, the numbered lines of the user's listing, and the footer |
| Commands.Line | bot.py:137-140 | one iteration's line: number, `. `, text, the reminder with no separator, and a final newline; it is at least four characters long and ends with the newline |
| Commands.Lines | bot.py:135-140 | the lines of a listing numbered on from `first`: at least four characters per entry, so a non-empty listing never renders as nothing |
| Commands.RenderList | bot.py:130-142 | the `/list` reply for a listing: the empty-list message, or the header, the lines and the footer (stated by `RenderListShape` and `ListedEntryIsLine`) |
| Commands.RenderListShape | bot.py:130-142 | the empty-list message is sent exactly when there is nothing to list; any other reply starts with the header and ends with the footer |
| Commands.LinesConcat | bot.py:135-140 | rendering two listings one after the other renders each, the second numbered on from the first |
| Commands.LinesSnoc | bot.py:135-140 | one more loop iteration appends exactly the line of the next entry |
| Commands.LineAppended | bot.py:137-140 | the three appends of one iteration (number and text, the reminder if non-empty, newline) add one `Line` |
| Commands.ListedEntryIsLine | bot.py:135-140 | entry `k` of the listing appears, in order, as line `k + 1` between the lines before and after it |
| Commands.DoneNumberRoundTrip | bot.py:148-153 | the number shown on a line, sent back as `/done <number>`, splits into two words and `int()` reads it back as that number |
| Commands.DoneOnListing | bot.py:154-158 | completing the id at position `n` of a user's listing removes exactly that entry and leaves other users' listings alone |
| Commands.DoneCommand | bot.py:145-163 | there are four outcomes. A missing argument gets "specify a number" and a non-integer gets "use a number"; an out-of-range position (0, negative, or past the end) gets "not found". These three leave the store unchanged. Otherwise, the n-th entry of the current listing is completed: it drops out of the user's listing, other users' listings are unchanged, and the reply names `n` |

## Left out

- The Telegram transport (aiogram, the dispatcher, polling, `parse_mode="Markdown"`) is not modelled. The `/add` and `/done` handlers take the message text and the sender's id, `/list` takes the sender's id, and each returns its reply.
- Command routing is not modelled: the `Command(...)` filters and the `@botname` suffix of a command.
- The `/start`, `/help` and fallback handlers are not modelled. They only send constant texts and touch no state.
- SQLite is replaced by the in-memory `Store`.
  - Connection handling, the file `/tmp/tasks.db` and durability are not modelled.
  - The database errors `init_db` catches and prints are not modelled.
  - Exceptions that `add_task` or `mark_task_done` could raise are not modelled. In the model they always succeed, as they report.
- Reading `API_TOKEN` from the environment, exiting when it is missing, and logging are left out as process start-up I/O.
- Concurrency is left out. Handlers run as one atomic step each. So another handler's write landing between `/done`'s `get_user_tasks` (bot.py:154) and its `mark_task_done` (bot.py:158) is not represented. A `/list` followed later by a `/done` is represented: `/done` reads the listing again, so the number resolves against the current listing.
- Text.ParseInt: follows `int()` only for an optional sign and ASCII digits. It rejects the digit-group underscores (`"1_0"`) and the non-ASCII decimal digits that Python's `int()` accepts, so such a `/done` argument gets the "use a number" reply in the model.
- TimeToken.Search: `\d` is modelled as the ASCII digits only. Python's `re` on `str` also matches other Unicode decimal digits.
- Text.IsSpace: whitespace is CPython's `str.isspace` set. Unicode normalisation and encodings are not modelled.
- The reminder is only stored and displayed, never scheduled, as in the code.
