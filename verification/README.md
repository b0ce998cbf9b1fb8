# TurboGastos expense pipeline: a Dafny model

This project models the data handling of the TurboGastos expense tracker:

- **The `.env` configurator** (`configure_envs.py`). It reads a `.env.example` template and the current `.env`, offers a default for every template variable, takes the user's answers, and writes the new `.env`.
- **The two expense workers.** The conversational worker (`worker/worker.py`) asks a language model for a reply and optional expense data. It publishes the reply on `gastos:confirmations` whenever the model's result is an object and the message carries `chat_id` and `wid`, and it stores the message only when an amount was found. The first worker (`worker.py`) stores every message it can validate, and it confirms only when an amount was found. Both workers share the SQLite `messages` table, its upsert, and its read queries.
- **The Gmail reader** (`gmail_reader/run.py`). It collects unread bank mails page by page and extracts subject and body. It turns each mail into a record on the `gastos:msgs` stream, in the same shape as a chat message, and then marks the mail read.

The modules follow the program's structure:

- `PyStr` and `PyInt` give the Python string and integer operations the scripts rely on, with Python's semantics: `strip`, `find`/`rfind`, slicing with negative bounds, `split('=', 1)`, `replace`, `join`, text-file line iteration, `int()` and `str()`.
- `Json` holds decoded JSON values and the `{`…`}` extraction.
- `Store` is the table: a map from the primary key `wid` to the row.
- `Bus` is the workers' effect on the outside world. It is an append-only trace of published confirmations, upserts and stream acknowledgements.
- `EnvConfig`, `LegacyWorker`, `LlmWorker` and `Gmail` follow their source files.
- `Pipeline` connects the Gmail record to what each worker does with it.

Everything outside the program is a parameter of the model:

- the file contents and the user's answers;
- the language model's answer, or its failure;
- `json.loads`/`json.dumps`;
- base64 and UTF-8 decoding;
- the Gmail API responses;
- the clock.

The confirmations on `gastos:confirmations` are `{chat_id, original_wid}` from `worker.py` (lines 262-265) and `{chat_id, original_wid, reply_message}` from `worker/worker.py` (lines 236-240).

In `worker.py` the model lookup `genai.get_model` (line 91) and the model construction `genai.GenerativeModel('gemini-pro')` (line 95) both sit outside the `try` of `parse_expense_with_llm`. When either raises, `process_message` catches the exception, so the message is acknowledged without being stored. `LegacyWorker.ParseExpense` returns `None` for both cases (`LookupRaises` and `BuildRaises`), and `LegacyWorker.Respond` then has no effects.

## Model

| member | source | states |
|---|---|---|
| PyStr.Strip | configure_envs.py:19 | `strip()` returns an infix of its argument with no whitespace at either end and only whitespace (Python's `isspace` set) before and after it |
| PyStr.StripSurrounded | configure_envs.py:28 | whatever whitespace surrounds a trimmed core, stripping returns exactly that core |
| PyStr.StripTrimmed | configure_envs.py:33-34 | stripping a string without surrounding whitespace leaves it unchanged |
| PyStr.StripInfix | configure_envs.py:22-23 | every character of the strip occurs in the original |
| PyStr.StripDropsNewline | configure_envs.py:18-19 | a line read from a file has no newline left after stripping |
| PyStr.Find | worker.py:113 | `find` is -1 exactly when the character is absent; otherwise it is the first position holding it |
| PyStr.RFind | worker.py:113 | `rfind` is -1 exactly when the character is absent; otherwise it is the last position holding it |
| PyStr.SliceBound | worker/worker.py:126 | a slice bound counts from the end when negative and is clamped to the string |
| PyStr.Slice | worker/worker.py:126 | `s[a:b]` is the text between the normalised bounds, and empty when the start is not before the end |
| PyStr.SplitOnce | configure_envs.py:32 | `split('=', 1)` gives a first part without `=` which, with `=` and the second part, rebuilds the line |
| PyStr.SplitOnceOf | configure_envs.py:22 | splitting `a + '=' + b` with no `=` in `a` gives back `a` and `b`, so `b` keeps every later `=` |
| PyStr.ReplaceAllAbsent | configure_envs.py:9 | `replace` leaves a string without the pattern unchanged |
| PyStr.ReplaceAllSuffix | configure_envs.py:9 | when the only occurrence of the pattern ends the string, `replace` swaps exactly that suffix |
| PyStr.ReplaceCharPointwise | gmail_reader/run.py:82 | replacing one character by another keeps the length and maps each position on its own |
| PyStr.JoinThenNewline | configure_envs.py:47 | `'\n'.join(lines) + '\n'` puts exactly one newline after every line |
| PyStr.FileLinesConcat | configure_envs.py:18 | the lines a text file yields, put back together, are the file |
| PyStr.FileLinesShape | configure_envs.py:27 | every line yielded is non-empty and holds a newline only as its last character |
| PyStr.FileLinesOfTerminated | configure_envs.py:46-47 | a file written as newline-terminated lines yields exactly those lines when read again |
| PyInt.NatToString | gmail_reader/run.py:121 | `str(n)` of a natural number is a non-empty run of digits with no leading zero |
| PyInt.ParseIntBlank | worker.py:248 | `int()` of text that is only whitespace raises `ValueError` |
| PyInt.IntRoundTrip | gmail_reader/run.py:121 | `int(str(n)) == n` for every integer |
| Json.BraceSpan | worker/worker.py:126 | the JSON candidate runs from the first `{` to the last `}` when the first precedes the last. It is empty when there is no `}` or every `}` comes first. Without any `{` the `-1` start selects the last character, which is kept only when it is `}` |
| Store.Upsert | worker/worker.py:269-288 | a new `wid` inserts the row as given. An existing `wid` keeps wid, chat_id, chat_name, sender_id, sender_name and type, and takes ts, body, amount, currency, category and meta_json from the new row. No other row changes |
| Store.UpsertKeepsKeyed | worker.py:52 | every row stays stored under its own `wid` (the primary key) |
| Store.UpsertIdempotent | worker.py:275-290 | upserting the same message twice is the same as once |
| Store.UpsertCommutes | worker/worker.py:276-282 | upserts of different `wid`s commute |
| Store.RepeatedUpsert | worker.py:278-284 | after repeated upserts of one `wid`, the identity columns are the first row's and the content columns the last row's |
| Store.LookupAfterUpsert | worker/worker.py:161-169 | after an upsert the message is found under its `wid` with the new content, and every other lookup is unchanged |
| Store.PageSize | worker.py:154 | `LIMIT` lets through at most `limit` rows, and all of them when the limit is negative |
| Store.NewestKey | worker.py:154 | picks a stored row whose `ts` no other row exceeds |
| Store.Recent | worker/worker.py:153-159 | `ORDER BY ts DESC LIMIT ?` returns as many rows as the limit allows, in non-increasing `ts`, each stored row at most once, and no row left out is newer than one returned |
| Store.LastTs | worker.py:172-178 | `MAX(ts)` is `None` exactly on an empty table; otherwise it is a stored `ts` that no row exceeds |
| Store.Summary | worker/worker.py:171-181 | `message_count` is the number of rows, `last_message_ts` is absent exactly when there are none and is then the largest `ts` |
| Store.SummaryAfterUpsert | worker.py:168-178 | an upsert raises the count by one exactly when the `wid` is new, and the last timestamp becomes at least the upserted one |
| Store.RowFromFields | worker.py:242-255 | building a `Message` succeeds exactly when all eight stream fields are present, the timestamp parses with `int()` and the expense columns have the declared kinds; the row then holds those values |
| Bus.ApplyConcat | worker.py:198-201 | applying a trace in two parts is applying it whole |
| Bus.ApplyKeepsKeyed | worker/worker.py:52 | the primary-key invariant holds after any trace of effects |
| Bus.DrainAcks | worker.py:194-201 | processing a batch acknowledges each entry exactly once, in batch order, and an empty batch does nothing |
| Bus.DrainSplit | worker.py:198-201 | entry `k` is acknowledged right after its own processing and after everything done for earlier entries |
| Bus.DrainAllAcks | worker/worker.py:213-217 | a whole reply of several streams acknowledges every entry once, stream by stream |
| LegacyWorker.ParseExpense | worker.py:89-126 | a raising model lookup or model construction gives no result. Every other path (stub, call failure, decoding error, non-object, success) gives exactly the keys amount, currency, category and meta_json. On success the first three come from the decoded object, and a missing `meta_json` is serialised as `{}` |
| LegacyWorker.Respond | worker.py:237-269 | a valid message is upserted first; a confirmation `{chat_id, original_wid}` follows exactly when the amount is not `None`; an invalid message or a raising parse does nothing |
| LegacyWorker.EveryValidMessageStored | worker.py:242-258 | every message with complete fields and an integer timestamp, parsed into the four keys with an amount that is `None` or a number and text fields that are `None` or strings, is stored, with or without an amount, and its `wid` is then in the table |
| LegacyWorker.StubStoresWithoutConfirming | worker.py:91-93 | the stub result stores the message with no amount and confirms nothing |
| LegacyWorker.ConfirmsOnlyAfterUpsert | worker.py:258-266 | any published confirmation comes second, after the upsert of the same `wid`, and only when an amount was found |
| LegacyWorker.StatsAfterProcessing | worker.py:168-178 | after one processed message the count grows exactly when the `wid` is new, and the last timestamp is at least the message's |
| LegacyWorker.ConsumerIterationAcks | worker.py:203-231 | one loop pass acknowledges every pending (`'0'`) entry before every new (`'>'`) entry, each once, in the order read |
| LlmWorker.ParseExpense | worker/worker.py:89-131 | no API key gives the fixed not-configured reply; a model that cannot be built gives the init-failure reply; a raising call or undecodable answer gives the fallback reply; otherwise the decoded value is returned as is |
| LlmWorker.UnconfiguredIgnoresModel | worker/worker.py:92-94 | without an API key the result does not depend on the model's answer and carries no expense data |
| LlmWorker.FailuresCarryNoExpense | worker/worker.py:96-131 | every failure path yields an object whose `expense_data` is `None` |
| LlmWorker.Respond | worker/worker.py:223-267 | when the result is an object and `chat_id`/`wid` exist, a reply (defaulting to "No pude procesar tu mensaje.") is published first on `gastos:confirmations`; an upsert of the same `wid` may follow; nothing is acknowledged |
| LlmWorker.StoresOnlyExpenses | worker/worker.py:245-264 | a row is stored exactly when `expense_data` is a non-empty object with a non-`None` amount and the row validates; otherwise the table is unchanged |
| LlmWorker.RespondToCanned | worker/worker.py:231-241 | a canned result is answered with its own reply and stores nothing |
| LlmWorker.UnconfiguredNeverStores | worker/worker.py:223-241 | without an API key every message gets the not-configured reply and the table never changes |
| LlmWorker.UnparseableAnswer | worker/worker.py:126-131 | an answer whose brace span does not decode gets the fallback reply and stores nothing |
| LlmWorker.ConsumeOnceAcks | worker/worker.py:198-221 | every entry read with `'>'` is acknowledged once, in the order read |
| Gmail.SearchEmails | gmail_reader/run.py:52-63 | the result is the messages of the pages up to the first without `nextPageToken`, in page order; it is absent only when the pages run out before such a page, which also stands for a `messages.list` call that raises |
| Gmail.CollectedConcat | gmail_reader/run.py:56-62 | collecting two runs of pages is concatenating their messages |
| Gmail.CollectedSkipsEmptyPages | gmail_reader/run.py:61-62 | a page without `messages`, or with an empty list, contributes nothing |
| Gmail.StopsAtUnique | gmail_reader/run.py:58 | there is at most one page after which the loop stops |
| Gmail.StopsAtIgnoresLaterPages | gmail_reader/run.py:58-60 | pages after the stopping page do not change where the loop stops |
| Gmail.SubjectIndex | gmail_reader/run.py:70-74 | the first header named exactly `Subject`, or none when no header has that name |
| Gmail.SubjectIgnoresLaterHeaders | gmail_reader/run.py:71-74 | headers after the first `Subject` header, later `Subject` headers included, do not change the subject |
| Gmail.BodyData | gmail_reader/run.py:76-80 | the data comes from `parts[0]` when `parts` is present (an empty list raises), else from the payload body; absent `data` raises |
| Gmail.BodyDataFirstPartOnly | gmail_reader/run.py:76-78 | once `parts` is non-empty, only the first part's `data` counts: later parts and the payload's own body never change it |
| Gmail.ToStandardAlphabet | gmail_reader/run.py:82 | the mapping keeps the length, turns `-` into `+` and `_` into `/`, leaves every other character alone, and leaves no `-` or `_` |
| Gmail.StandardAlphabetRoundTrip | gmail_reader/run.py:82 | on base64url data (no `+` or `/`) the mapping loses nothing: mapping back gives the original |
| Gmail.UrlSafeAlphabetRoundTrip | gmail_reader/run.py:82 | the other direction: a standard-alphabet string without `-` or `_` is what the mapping gives for its URL-safe spelling |
| Gmail.EmailContent | gmail_reader/run.py:65-84 | content exists exactly when the body data exists and decodes; it is then the subject and the decoded text |
| Gmail.EmailContentHeadersOnlySubject | gmail_reader/run.py:69-84 | the headers decide only the subject: payloads that differ only in their headers agree on whether there is content and on the body text |
| Gmail.EmailContentDecodesMailData | gmail_reader/run.py:76-84 | the text passed to `b64decode` is the standard-alphabet string that maps back to the mail's base64url data, so the body text is that string decoded |
| Gmail.ToFields | gmail_reader/run.py:115-124 | the record has exactly the eight chat-message fields, `wid = "gmail-" + id`, the fixed chat and sender fields, `type "email"`, the body, and the timestamp as decimal text |
| Gmail.TimestampRoundTrip | gmail_reader/run.py:121 | a worker reading the timestamp with `int()` gets back the clock value |
| Gmail.WidInjective | gmail_reader/run.py:116 | different mail ids give different `wid`s |
| Gmail.HandledRunMaximal | gmail_reader/run.py:109-129 | the mails handled are the longest run, from the start, of mails that can be both read and marked read |
| Gmail.PollFromShape | gmail_reader/run.py:109-129 | each mail is added to the stream and then marked read, in search order; the round stops at the first mail that cannot be read, leaving nothing for it, or that cannot be marked read, leaving exactly its record added; it completes exactly when no mail fails |
| Gmail.PollRoundShape | gmail_reader/run.py:103-130 | a whole round completes exactly when every mail found can be read and marked read; otherwise it ends at the first that cannot, after handling all before it, with that mail's record added when only `messages.modify` raised |
| Gmail.CompletesWhenAllHandled | gmail_reader/run.py:109-129 | a round that ends after the longest handled run completes exactly when every mail is handled, and otherwise stops at a mail that fails |
| EnvConfig.ParseLine | configure_envs.py:19-23 | a line is skipped exactly when its strip is empty, starts with `#` or has no `=`; otherwise key and value are the stripped text before and after the first `=` of the stripped line; for a line with no inner newline the key also does not start with `#` |
| EnvConfig.FileEntriesClean | configure_envs.py:27-34 | every assignment read from a file has a clean key and a value without surrounding whitespace or newlines |
| EnvConfig.ParseKeptLine | configure_envs.py:32-34 | a line `key=rest` followed by whitespace yields the key and the stripped rest |
| EnvConfig.ReadBackLine | configure_envs.py:22-23 | a line written as `key=value` is read back as the key with the stripped value, and the value keeps every `=` after the first |
| EnvConfig.VarsDomain | configure_envs.py:23 | a key is in the existing variables exactly when some line assigns it |
| EnvConfig.VarsLastWins | configure_envs.py:18-23 | when the existing file repeats a key, its last assignment wins |
| EnvConfig.DefaultPrefersExisting | configure_envs.py:37 | the default is the existing file's (last) value when it defines the key, and the template value otherwise |
| EnvConfig.Configure | configure_envs.py:25-53 | the file is written exactly when the template exists, has variables and every prompt is answered. Its text is then one newline-terminated line per template variable |
| EnvConfig.WrittenLines | configure_envs.py:37-47 | the written file has one line per template variable, in template order: `key=` the answer when non-empty, else the default |
| EnvConfig.ReadBack | configure_envs.py:16-47 | for a template that defines each key once, reading the written file back gives every template key its stripped chosen value, and no other key: keys only the old file had are dropped |
| EnvConfig.RerunWithDefaultsIsStable | configure_envs.py:37-47 | for a template that defines each key once and answers without surrounding whitespace, running again and accepting every default rewrites the same file |
| EnvConfig.EnvPathBesideTemplate | configure_envs.py:9 | the target of `<dir>.env.example` is `<dir>.env` when the directory part does not itself contain `.env.example` |
| Pipeline.MailStoredByLegacyWorker | worker.py:237-258 | a mail record passed to the first worker is stored under `gmail-<id>` with the mail's timestamp, body and the amount found |
| Pipeline.MailAnsweredByLlmWorker | worker/worker.py:231-241 | a mail record passed to the conversational worker is first answered on the `gmail` chat, naming the mail's `wid` |

## Left out

- The chat ingestor that consumes `gastos:confirmations`, the HTTP service around the workers (FastAPI, CORS, the `x-api-key` check, `/health`) and `uvicorn` start-up are not part of this model.
- The language model, its prompts and `genai.configure` are left out: the model's answer, or its failure, is a parameter.
- `json.loads`, `json.dumps`, `base64.b64decode` and UTF-8 decoding are library calls. They are uninterpreted function parameters.
- Redis and SQLite clients are not modelled: consumer-group creation, the `BUSYGROUP` check, connection errors, `asyncio.sleep` retries and the endless loops are left out. A failing `xadd`, `publish`, `xack` or upsert is not modelled either. Each loop is modelled for one pass.
- Store.Summary: `SUM(amount)` and `total_amount` are left out, because amounts are floating point; amounts stay opaque JSON values.
- Store.RowFromFields: pydantic's lax coercion (a numeric string or an integer accepted for `float`, and so on) is not modelled. A value of another kind than `null`/number for the amount, or `null`/string for the text columns, counts as a validation error.
- PyInt.ParseInt: only ASCII digits are accepted. Python's `int()` also accepts other Unicode decimal digits.
- PyStr.FileLines: universal-newline translation of `\r` and `\r\n` when reading a text file is not modelled. Only `\n` ends a line.
- EnvConfig.Configure: an unreadable existing `.env` is not modelled; it raises outside the `try`. The console output, `os.path.normpath`, `glob`, `sorted` and `main` are left out. A missing template and running out of input (`EOFError`) both become "nothing written".
- Gmail.SearchEmails: the page tokens are not modelled. The service's answers are given as the sequence of pages in the order requested.
- Gmail.PollRound: OAuth, token files, the search query text and `time.sleep` are left out. A mail that cannot be fetched or decoded, or whose `messages.modify` call raises, ends the round, as the uncaught exception ends the program. A `messages.list` call that raises is modelled only as the pages running out in `Gmail.SearchEmails`; the program then ends before any mail of that round is handled. `Gmail.PollRound` takes the mails found and does not model that case.
- LegacyWorker.ConsumerIteration: one model lookup outcome is fixed for the whole pass, although `get_model` runs again for every message (`worker.py:91`). The model's answer is a function of the message body alone, although the real model may answer the same prompt differently.
- LlmWorker.ConsumeOnce: the model's answer is likewise a function of the message body alone, although the real model may answer the same prompt differently.
- EnvConfig.ReadBack and EnvConfig.RerunWithDefaultsIsStable: a template that repeats a key is not covered. Both statements are false for it, because the prompt is asked once per template line but read back with the last assignment winning.
- The exception paths of `process_message` in both workers are modelled as "no further effects". Only the exceptions the modelled data can cause are represented: missing fields, a bad timestamp, validation, and `.get` on a non-object.
