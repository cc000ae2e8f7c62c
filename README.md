# App Live: a verified model of its session, response and aggregation logic

App Live is a single Streamlit script (`app.py`) for live polls during classes
and streams. A moderator, let in by a shared password, creates a session with
one question and gets a six-digit PIN. Participants enter the PIN and send
free-text answers. The moderator's screen counts the answers, shows the total,
the number of distinct answers and the most popular one, a top-15 bar chart, a
ranked list of every answer and a "word cloud" of the 20 most frequent
answers. Answers are compared exactly as stored, so counting is case-sensitive.
The cloud is the exception: it groups answers by their upper-cased text.

This project models the logic under that UI, in Dafny:

- `text.dfy`, module `Text`: Python's `str.strip()` and `str.upper()`, the two
  string operations applied to user input.
- `tally.dfy`, module `Tally`: `collections.Counter` over strings, with
  keys in first-seen order, plus `most_common()` and `most_common(n)`. Python's
  sort is stable, so `most_common` is modelled as a stable insertion sort.
- `aggregation.dfy`, module `Aggregation`: the moderator's metrics, bar chart
  and ranked list.
- `wordcloud.dfy`, module `WordCloud`: the data behind the word cloud. That
  is the phrases, their counts, the top 20 and their font sizes.
- `store.dfy`, module `Store`: the three SQLite tables as fields of a
  `Database` object, updated in place by the store functions of `app.py`.
  Also the PIN derivation and the config-table rules for the moderator
  password.
- `visit.dfy`, module `Visit`: the per-visit state `st.session_state` as a
  `VisitState` object, and the actions of each screen. These are choosing a
  mode, the password gate, changing the password, creating, moderating and
  ending a session, and a participant finding a session and answering it.
- `seqs.dfy`, module `Seqs`: a few facts about sequences of any element type.
- `option.dfy`, module `Optional`: the `Option` type.

Randomness, time and failure are inputs. `uuid.uuid4()` supplies the numbers a
PIN is made from and the row ids, so these are parameters. `datetime.now()` is
a clock in the `Database` that moves forward with every insert. Any database
error, which the source catches and turns into a failure value, is a `fault`
flag on each operation.

Some behaviour comes from the code rather than from the UI's intent. The model
follows the code:

- The `sessions` table declares `pin TEXT UNIQUE` (app.py:117-118). A PIN is
  regenerated only once on a collision (app.py:189-191). If the second PIN
  also collides, the insert fails and `create_session` returns `(None, None)`.
  The session is never stored under a duplicate PIN.
- `update_moderator_password` reports success even when there is no password
  row to update. Then nothing changes and the default password stays in
  force. The `UpdatedPassword` lemma states this.
- `get_moderator_password` answers `admin123` when the config table cannot be
  read (app.py:142-144). So on a failed read, `admin123` is accepted both at
  login and as the "current password" of a change.
- The sidebar radio button sets the mode at the start of every run
  (app.py:336-341). The mode an action sets (`moderate` after creating a
  session, app.py:482; `create` after ending one, app.py:546) therefore lasts
  only until the next run, which re-reads the radio button. `SelectMode`
  models this.
- The word cloud of `get_responses`' answers is missing only when there are
  no answers (`CloudOfAnswers`). So the "waiting for more answers" messages
  at app.py:399 and app.py:602 show only when drawing fails.

## Model

| member | source | states |
|---|---|---|
| Text.StripLeft | app.py:220 | Removing leading whitespace leaves a suffix of the text. Everything removed is whitespace, and what is left does not start with whitespace. |
| Text.StripRight | app.py:220 | Removing trailing whitespace leaves a prefix of the text. Everything removed is whitespace, and what is left does not end with whitespace. |
| Text.Strip | app.py:220 | `strip()` is never longer than the text and has whitespace at neither end. It is empty exactly when the text is all whitespace. |
| Text.StripIdempotent | app.py:378-379 | Stripping an already stripped answer again, as `add_response` does, changes nothing. |
| Text.UpperStripCommute | app.py:249 | `upper().strip()` equals `strip().upper()`. A response is blank after upper-casing exactly when it was blank before. |
| Tally.Distinct | app.py:558 | The keys of a Counter have no repeats and are exactly the strings counted. |
| Tally.CounterItems | app.py:558 | A Counter has one item per distinct string, in first-seen order, carrying the number of times that string occurs (at least 1). |
| Tally.CounterSum | app.py:558 | The counts of a Counter add up to the number of strings counted. |
| Tally.CounterSize | app.py:565 | The length of a Counter is the number of distinct strings, and never more than the number counted. |
| Tally.Insert | app.py:607 | One insertion step of the sort keeps the list in non-increasing count order and adds exactly the new item. |
| Tally.MostCommon | app.py:607 | `most_common()` is in non-increasing count order and a permutation of the items. |
| Tally.MostCommonSum | app.py:607 | Sorting keeps the sum of the counts. |
| Tally.MostCommonStable | app.py:607 | Items with the same count come out of `most_common()` in the order they went in. |
| Tally.MostCommonNIsTop | app.py:254 | `most_common(n)` keeps min(n, size) items, largest first, all taken from the Counter. No item left out has a higher count than one kept. |
| Tally.MostCommonNItems | app.py:254 | `most_common(n)` of a Counter has at most n items, each a counted string with its true count. |
| Tally.MostCommonNDistinct | app.py:254 | `most_common(n)` of a Counter never lists a string twice. |
| Tally.MostCommonNLeftOut | app.py:254 | A string that `most_common(n)` leaves out occurs no more often than any string it keeps. |
| Tally.MostCommonNEmpty | app.py:254-256 | For n ≥ 1, `most_common(n)` is empty exactly when nothing was counted. |
| Tally.MostCommonFirstIsMax | app.py:568 | The first item of `most_common()` is an item of the Counter with the largest count. |
| Tally.MostCommonFirstIsEarliest | app.py:568 | Of the items with the largest count, `most_common()` puts first the one that comes first. |
| Tally.DistinctPrefix | app.py:558 | The keys counted from a prefix of the input are the first keys of the whole Counter, so a string seen earlier is listed earlier. |
| Tally.CounterFirstIsEarliest | app.py:568 | The first item of `most_common()` is, of the strings with the largest count, the one seen first. Every key listed before it, and every string before its first occurrence, occurs fewer times. |
| Aggregation.MostPopular | app.py:566-569 | "Mais Popular" exists exactly when there are responses. It is a response that occurs, with its true count, and no response occurs more often. |
| Aggregation.MostPopularIsEarliest | app.py:568 | Among equally popular responses, "Mais Popular" is the one that comes first in the list it is given: every response before its first occurrence there occurs fewer times. On the moderator's screen that list is newest first (app.py:232), so a tie goes to the answer submitted most recently. |
| Aggregation.SummaryMetrics | app.py:563-565 | The total is the number of responses. The unique count is the number of distinct responses and never exceeds the total. |
| Aggregation.RankedListIsComplete | app.py:607-608 | The ranked list holds every distinct response exactly once with its true count, in non-increasing count order. Its counts add up to the total. |
| Aggregation.BarChartIsTop | app.py:576-578 | The bar chart has at most 15 bars, largest first, each a distinct response with its true count. No response left out occurs more often than one shown. |
| Aggregation.CaseSensitiveExample | app.py:558-569 | For ["Blue", "blue", "Blue", "Red"] there are 3 distinct responses, and "Blue" is most popular with 2. |
| WordCloud.CollectPhrases | app.py:246-251 | The collection loop builds exactly the upper-cased, stripped, non-empty phrases of the responses, in order. |
| WordCloud.PhraseEmptyIffBlank | app.py:249-250 | A response's phrase is empty exactly when the response is blank. |
| WordCloud.PhrasesEmptyIffAllBlank | app.py:246-251 | No phrase is collected exactly when every response is blank. |
| WordCloud.PhrasesFromResponses | app.py:249-251 | Every phrase collected is the phrase of some response. |
| WordCloud.PhrasesNonEmpty | app.py:250-251 | No collected phrase is empty. |
| WordCloud.PhraseCount | app.py:249-253 | A phrase occurs among the collected phrases once for every response that gives it. |
| WordCloud.FontSize | app.py:276-280 | Every size is at most 58. A phrase given at least once is drawn at 29 or more, and from 6 occurrences on always at 58. |
| WordCloud.FontSizeMonotone | app.py:276-280 | A phrase given more often is never drawn smaller. |
| WordCloud.FontSizeOfFive | app.py:276-280 | A phrase given 5 times is drawn at size 53. |
| WordCloud.SizeWords | app.py:274-280 | The drawing loop sizes each kept phrase by the font-size rule, in order. |
| WordCloud.SizedWords | app.py:274-280 | Each drawn word is its phrase with its count and the font size of that count. |
| WordCloud.PrepareCloud | app.py:246-280 | `create_wordcloud`, up to the drawing, computes exactly the cloud specification `Cloud`. |
| WordCloud.CloudNoneIffAllBlank | app.py:246-257 | `create_wordcloud` returns nothing exactly when every response is blank. |
| WordCloud.CloudWords | app.py:246-280 | At most 20 phrases are drawn, most frequent first. Each is a response's upper-cased, stripped text, never empty, with its true count and a size from 29 to 58. |
| WordCloud.CloudIsTop | app.py:253-254 | The cloud draws min(20, number of distinct phrases) phrases, none twice. No phrase left out is given more often than one drawn. |
| WordCloud.RepeatedResponse | app.py:246-257 | The same non-blank response given n times is drawn as one phrase with count n. |
| Store.Decimal | app.py:182 | `str(n)` is one or more decimal digits without a leading zero. |
| Store.DecimalValue | app.py:182 | Reading back the digits of `str(n)` gives n. |
| Store.DecimalLength | app.py:182 | A number of at least 10^k has more than k digits. |
| Store.Pin | app.py:182 | A PIN is 1 to 6 decimal digits and is the start of `str(n)`. |
| Store.PinOfLargeNumber | app.py:182 | For the numbers `uuid4().int` yields (≥ 100000), a PIN has exactly six digits, the first not zero. |
| Store.Seeded | app.py:126-128 | After `init_db` the password row exists, and every other row keeps its value. |
| Store.SeedIdempotent | app.py:126-128 | `init_db` is idempotent, never overwrites a stored password, and never changes which password is in force. |
| Store.UpdatedPassword | app.py:151 | The UPDATE makes the new password the one in force when the row exists. Without the row it changes nothing and `admin123` stays in force. |
| Store.FindPin | app.py:205-207 | A PIN lookup returns a stored session with that PIN, or nothing exactly when no session has it. |
| Store.FindAppended | app.py:193-207 | A session inserted under a PIN not yet used is the one its PIN then finds. |
| Store.OfSession | app.py:232 | `WHERE session_id = ?` keeps exactly the rows of that session. |
| Store.OfSessionChronological | app.py:232 | Picking out one session's rows keeps them in insertion order. |
| Store.ReverseIsNewestFirst | app.py:232 | On rows stamped in insertion order, reading a session's rows backwards gives the same rows ordered by `created_at DESC`. |
| Store.Kept | app.py:234 | The list comprehension keeps only texts that are not blank. |
| Store.ResponsesAfterInsert | app.py:219-234 | A new non-blank row comes first among its own session's responses. Other sessions' responses are unchanged. |
| Store.InsertionOrder | app.py:219-234 | Answers A, B, C added in that order are read back as C, B, A, ahead of the earlier ones. |
| Store.RowsValidAppend | app.py:219-220 | Inserting a stripped row with a fresh id, stamped now, keeps the responses table valid: ids unique, insertion order, every text stripped. |
| Store.SessionsValidAppend | app.py:193-194 | Inserting a session with a fresh id and an unused PIN keeps the sessions table valid: PINs and ids unique. |
| Store.Database.constructor | app.py:117-123 | A new database has empty tables and no password row. |
| Store.Database.InitDb | app.py:112-132 | `init_db` seeds the default password only where none is stored, and changes nothing on a failure. |
| Store.Database.ModeratorPassword | app.py:134-144 | The stored password is in force. With no row, or on a failed read, `admin123` is. |
| Store.Database.UpdateModeratorPassword | app.py:146-156 | Success is reported unless the store fails. Only an existing password row is rewritten. |
| Store.Database.CreateSession | app.py:178-199 | The PIN is made from the first number, or from the second if the first PIN is taken. The session is stored exactly when that PIN is free, the id is unused and the store does not fail; the PIN then finds it. Otherwise nothing changes. |
| Store.Database.SessionByPin | app.py:201-211 | Returns a stored session with the PIN asked for. Whenever such a session exists and the store does not fail, one is returned. |
| Store.Database.AddResponse | app.py:213-225 | The stripped text is appended, stamped now, exactly when the id is unused and the store does not fail. Otherwise nothing changes. |
| Store.Database.StoredNewestFirst | app.py:232 | In a valid database, the rows `get_responses` reads for a session are exactly that session's rows, ordered by `created_at DESC`. |
| Store.Database.ResponsesOf | app.py:227-237 | The responses returned are never blank. A failed read returns none. |
| Visit.Participant | app.py:360-401 | A blank PIN shows the prompt, and an unknown PIN the error. Otherwise the page shows the question of the session with the stripped PIN and its number of answers. The cloud is `create_wordcloud` of those answers, which is missing exactly when there are no answers. |
| Visit.CloudOfAnswers | app.py:389-399 | For answers that are never blank, the word cloud is missing exactly when there are none. |
| Visit.SubmitResponse | app.py:378-386 | A blank answer never reaches the store. Any other is stored stripped, exactly when the store accepts it, and is then the session's newest response. |
| Visit.VisitState.Start | app.py:302-321 | A visit starts in participant mode, holding no session, not authenticated, with auto-refresh on and the PIN from the link. |
| Visit.VisitState.ApplyQueryPin | app.py:317-321 | A non-empty `?pin=` replaces the held PIN; otherwise the held PIN is kept. |
| Visit.VisitState.SelectMode | app.py:334-345 | Every run takes the mode from the radio button. Auto-refresh is read only in moderation mode. |
| Visit.VisitState.Authenticate | app.py:430-431 | The visit is let in exactly when the password typed equals the moderator password in force, and stays in. |
| Visit.VisitState.TogglePasswordForm | app.py:441-442 | The button flips whether the change-password form shows. |
| Visit.VisitState.ChangePassword | app.py:453-465 | The stored password changes only when the current password matches, the new one equals its confirmation and has at least 6 characters, and the store does not fail. Otherwise the config table is unchanged. On a change the form closes, and when the password row exists the new password is the one in force. |
| Visit.VisitState.CreateSession | app.py:477-490 | A non-blank question is stored stripped, as a new session appended after all earlier ones, and the clock moves on. The visit then holds the session in moderation mode. A blank question or a failed insert changes nothing. |
| Visit.VisitState.Hold | app.py:480-482 | The visit holds the new session and its PIN and switches to moderation. |
| Visit.VisitState.EndSession | app.py:543-547 | Ending lets go of the session and its PIN and switches to create mode. The store is not touched. |
| Visit.VisitState.OpenCreate | app.py:622-625 | With no session held, the button switches to create mode. |
| Visit.VisitState.RenderModeration | app.py:511-625 | With no session held, nothing is shown. A session its PIN no longer finds is let go of. A session its PIN still finds is kept and shown live, with its PIN, its question and the number of answers. The dashboard (`Summarize` of the answers) is shown exactly when someone has answered. The cloud is `create_wordcloud` of the answers, which is missing exactly when nobody has answered. |

## Left out

- A failed commit. Every failure is modelled as happening before the write,
  so a failed operation changes nothing. In `app.py`, `conn.commit()` can
  fail after an INSERT or UPDATE has run, for example when the database is
  busy past the 30-second timeout. The change then stays in the open
  transaction of the one shared connection (app.py:108-110). Later reads see
  it, and the next commit makes it permanent.
- Streamlit rendering, CSS, forms, `st.rerun`, `time.sleep` and the
  5-second auto-refresh loop. These are UI and timing; the model takes one
  action per run.
- The SQLite connection, SQL text and `threading.Lock`. The tables are
  sequences and a map, and operations run one at a time, so the lock has
  nothing to guard.
- Whatever `CREATE TABLE IF NOT EXISTS` finds in an existing database file.
  The model starts from an empty database.
- The foreign key from `responses` to `sessions`. SQLite does not enforce it
  by default, so an answer to an unknown session id is stored like any other.
- QR-code generation, the join link, plotly and matplotlib drawing, numpy's
  random positions and rotations, and the viridis colours. These are library
  calls and floating-point layout.
- `uuid4()` values are parameters, and `datetime.now()` is the `Database`
  clock, which goes up by one on every insert. Wall-clock time is not
  modelled; only the order of the stamps matters. The model does not know
  that `uuid4().int` is at least 2^78; `PinOfLargeNumber` takes "at least
  100000" as its precondition.
- Text.Upper: maps only the ASCII letters a-z, whereas Python's
  `str.upper()` also maps other scripts' letters, and a few characters to
  more than one character.
- Aggregation.BarChartIsTop: states the bar chart as one top-15 choice
  rather than the exact rows pandas picks. `sort_values` without
  `kind='stable'` does not promise an order among equal counts.
- Visit.VisitState.Authenticate: the same action models both password forms
  (app.py:430-431 and app.py:504-505).
- Displayed text, such as the "Mais Popular" label `value (countx)` and the
  participant-count banner. The model keeps the values these strings are
  made from.
