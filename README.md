# YouTube Summarizer: a verified model of its accounts, history and string handling

The application is one Streamlit script, `youtube_summarizer.py`. A user registers and logs in. They submit a YouTube link, and the script fetches the captions, asks a language model for a summary, reads it aloud and stores it under the user's account. A history page lists the stored summaries. This project models the deterministic logic under that glue and proves properties of it:

- **Email validator** (`email.dfy`, module `Email`). `is_valid_email` is a regular-expression match. It is modelled twice:
  - `IsValidEmail` is a hand-written check that splits at the first `@` and the last `.`.
  - `RegexAccepts` reads the pattern literally: some way of splitting the string matches it.

  The two are proved to accept the same strings. This includes Python's `$`, which also accepts one final newline.
- **Account store and session** (`users.dfy`, module `Users`; `app.dfy`, module `App`).
  - The `users` table is a sequence of rows with an AUTOINCREMENT counter, held in the `Database` class.
  - `st.session_state` is the `Session` class, with `loggedIn`, `userId` and `username`.
  - `Register`, `Login` and `SignOut` change these objects, as `register`, `login` and `sign_out` do.
  - The pure lookups `FindByEmail` and `FindByCredentials` stand for the SQL queries at lines 104 and 83.
  - `FindById` stands for the `FOREIGN KEY (user_id) REFERENCES users(user_id)` at line 205 and for the session's `user_id`.
  - The lemmas cover email uniqueness, the register-then-login round trip and wrong-password rejection.
- **String helpers** (`text.dfy`, module `Text`).
  - `url.split("=")[1]` is `VideoId`, built on a model of Python's `split`.
  - The transcript assembly `" ".join(...)` is `Transcript`, built on a model of `join`.
  - Split and join are proved inverse to each other.
- **History query** (`history.dfy`, module `History`; `App.ViewHistory`).
  - The `summaries` table is a sequence of rows. `created_at` is an abstract timestamp: a day, which is what `DATE(created_at)` gives, and a second within it.
  - The query's `params` list is a list of conditions.
  - `Execute` selects the rows and orders them newest first.
  - The history page is proved to list exactly the caller's rows, filtered by day when a day is given and ordered newest first. It is also proved that the thumbnail's `split('=')[1]` never fails on a stored link.
- **Storing a summary** (`App.SummarizeVideo`). This is the video page's "Summarize" action. Three external calls are function parameters:
  - `fetch`: the caption provider;
  - `generate`: the language model;
  - `speaks`: speech synthesis.

  A row is stored only after every step succeeds. The action keeps the table invariant `TablesValid`: every summary belongs to an existing account, and every stored link contains `=`.

`common.dfy` (module `Common`) holds `Option` and the search functions `IndexOf` and `LastIndexOf`, which behave like Python's `str.find` and `str.rfind`.

Modelling decisions:

- **Python's `$`.** `re.match` with `$` accepts `"a@b.co\n"`. The model accepts it too. Such an email is stored as written, so it is a different email from `"a@b.co"`.
- **`sign_out`.** It clears `user_logged_in` and `user_id` but leaves `username` set. The model keeps that.
- **Language-model failure.** When the model call fails, the source catches the exception and continues with `summary = None`. The next call, `text_to_speech(None)`, is taken to raise, because gTTS refuses empty text. So nothing is stored. `SummarizeVideo` treats a missing summary as a synthesis failure.
- **Links without `=`.** A non-empty link without `=` stops the video page at line 121 with an uncaught IndexError. An empty link reaches `extract_transcript_details`, where the IndexError is caught. The first case is `LinkWithoutId`, the second `NoTranscript`.
- **Passwords.** `register` stores the password as given (youtube_summarizer.py:110), and `login` compares it as given (line 83). The model does the same.
- **Failed model call.** `generate_gemini_content` returns None when the model call fails (lines 69-71). `summarization` passes that None on to `text_to_speech` (lines 127-133) without checking it.

## Model

| member | source | states |
|---|---|---|
| `Email.IsValidEmail` | youtube_summarizer.py:22-27 | the validator splits at the first `@` and the host's last `.`; `Email.IsValidEmailMatchesRegex` proves it agrees with the pattern |
| `Email.IsValidEmailMatchesRegex` | youtube_summarizer.py:22-27 | the hand-written validator accepts a string exactly when `re.match` with the source's pattern does, including the one-trailing-newline case of `$` |
| `Email.MatchesWholeIffWholeMatch` | youtube_summarizer.py:26 | splitting at the first `@` and the last `.` accepts exactly the strings for which some split matches `[a-zA-Z0-9._%+-]+@[a-zA-Z0-9.-]+\.[a-zA-Z]{2,}` |
| `Email.SplitIsForced` | youtube_summarizer.py:26 | any split matching the pattern has its `@` at the first `@` and its `.` at the host's last `.`, so the match is unique |
| `Email.ValidEmailShape` | youtube_summarizer.py:26-27 | an accepted string has exactly one `@`, a non-empty local part from `[a-zA-Z0-9._%+-]`, and after the `@` a host whose last `.` has host characters before it and 2+ ASCII letters after it, up to an optional final newline |
| `Email.NewlineShape` | youtube_summarizer.py:26-27 | for a string accepted through the trailing-newline case, its only `@` is that of the text before the newline |
| `Email.HostHasNoAt` | youtube_summarizer.py:26 | a host part that matches contains no `@` |
| `Email.NoAtIsInvalid` | youtube_summarizer.py:26-27 | a string without `@` is rejected |
| `Email.AcceptsPlainAddress` | youtube_summarizer.py:26-27 | `user@example.com` is accepted |
| `Email.RejectsShortTopLevelLabel` | youtube_summarizer.py:26-27 | `user@example.c` is rejected, because the top-level label needs two letters |
| `Common.IndexOfIsFirst` | youtube_summarizer.py:54 | the first `=` of a link, the one `split` cuts at, is the unique occurrence with none before it |
| `Text.Join` | youtube_summarizer.py:57 | `" ".join`: the pieces in order with the separator between neighbours; `Text.JoinSplit`, `Text.SplitJoin` and `Text.JoinAppend` state its properties |
| `Text.Transcript` | youtube_summarizer.py:57 | the segment texts joined by one space; `Text.TranscriptAppend` and `Text.TranscriptSplitsBack` state its properties |
| `Text.Split` | youtube_summarizer.py:54 | `split` gives at least one piece; it gives exactly one when the separator is absent; no piece contains the separator |
| `Text.JoinSplit` | youtube_summarizer.py:54 | joining the pieces of `split(sep)` with `sep` gives the original string back |
| `Text.SplitJoin` | youtube_summarizer.py:57 | splitting a join of separator-free pieces gives the pieces back |
| `Text.VideoId` | youtube_summarizer.py:54 | `split("=")[1]` fails (IndexError) exactly when the link has no `=`; the id itself contains no `=` |
| `Text.VideoIdIsSecondField` | youtube_summarizer.py:54 | the video id is the text between the first `=` and the next `=`, or the end of the link |
| `Text.WatchLinkExample` | youtube_summarizer.py:121 | `watch?v=x1Y_` yields the id `x1Y_` |
| `Text.JoinAppend` | youtube_summarizer.py:57 | `join` keeps order: joining `a + b` is joining `a`, the separator, then joining `b` |
| `Text.TranscriptAppend` | youtube_summarizer.py:57 | the transcript of two consecutive runs of segments is their transcripts joined by one space |
| `Text.TranscriptSplitsBack` | youtube_summarizer.py:57 | when no segment text has a space, splitting the transcript at spaces recovers the segment texts in order |
| `Text.ExtractTranscriptDetails` | youtube_summarizer.py:52-61 | a transcript is returned exactly when the link yields a video id and the caption provider succeeds for it; the link then contains `=` |
| `Users.FindByEmail` | youtube_summarizer.py:104-105 | the email lookup finds nothing exactly when no row has the email; otherwise it returns a stored row with that email |
| `Users.FindByCredentials` | youtube_summarizer.py:83-84 | the login lookup finds nothing exactly when no row has both the email and the password; otherwise it returns a stored row with both |
| `Users.FindById` | youtube_summarizer.py:205 | the id lookup finds nothing exactly when no row has the id; otherwise it returns the stored row with that id |
| `Users.RegisterKeepsUsersValid` | youtube_summarizer.py:95-112 | a registration that passes every guard appends a row that keeps the table invariant: non-empty fields, valid email, increasing ids, unique emails |
| `Users.FindByIdAfterAppend` | youtube_summarizer.py:110 | inserting a user does not change the row an existing id refers to |
| `Users.RegisterThenAuthenticate` | youtube_summarizer.py:74-112 | after a registration that passes every guard, login with the same email and password finds exactly the new row |
| `Users.CredentialsAfterAppend` | youtube_summarizer.py:83-84 | the login lookup for a newly appended row's credentials returns that row when no earlier row has its email |
| `Users.Authenticate` | youtube_summarizer.py:75-84 | login returns a row exactly when both inputs are non-empty, the email is valid, and some stored row has that email and password; the returned row is stored and has both |
| `Users.AuthenticateFindsTheAccount` | youtube_summarizer.py:74-92 | on a valid table, login returns row k exactly when both inputs are non-empty, the email is valid, and row k has that email and password |
| `Users.WrongPasswordRejected` | youtube_summarizer.py:83-92 | a stored email with a password other than its own does not log in |
| `Users.SecondRegistrationConflicts` | youtube_summarizer.py:104-108 | once an email is registered, another registration with it fails the uniqueness guard, and the lookup finds the first row |
| `Users.EmailAfterAppend` | youtube_summarizer.py:104-105 | the email lookup finds a newly appended row when no earlier row has its email |
| `Users.OneAccountPerEmail` | youtube_summarizer.py:195 | on a valid table, the number of accounts with an email is 1 if the lookup finds it and 0 otherwise |
| `History.Select` | youtube_summarizer.py:156-161 | the WHERE clause keeps each row that meets every bound condition, as often as it is stored, and drops every other row |
| `History.Insert` | youtube_summarizer.py:163 | inserting into a newest-first sequence keeps it newest first and adds exactly that row |
| `History.PrependNewer` | youtube_summarizer.py:163 | a row no older than the first row of a newest-first sequence may stand in front of it |
| `History.PrependNewest` | youtube_summarizer.py:163 | a row no older than any row of a newest-first sequence may stand in front of it |
| `History.SortNewestFirst` | youtube_summarizer.py:163 | `ORDER BY created_at DESC` yields a newest-first permutation of its input |
| `History.Execute` | youtube_summarizer.py:156-167 | the query result is newest first and holds each row that meets every condition as often as it is stored, and no other row |
| `History.HistoryQueryExact` | youtube_summarizer.py:155-167 | the history query returns exactly the caller's rows, only those of the filter day when one is given, each as often as stored, ordered newest first |
| `History.UnfilteredHistoryIsAllOwned` | youtube_summarizer.py:156-167 | without a date filter, every row of the caller's is in the result |
| `History.HistoryShowsOnlyMatches` | youtube_summarizer.py:156-167 | every returned row is stored, is the caller's, and is from the filter day when one is given |
| `App.StoreSummaryKeepsSummariesValid` | youtube_summarizer.py:136-140 | storing a summary under the next id, for an existing account and a link with `=`, keeps the summaries' ids increasing and below the counter, and every summary's owner existing and its link holding `=` |
| `App.StoreSummaryKeepsTablesValid` | youtube_summarizer.py:136-140 | storing a summary under the next id, for an existing account and a link with `=`, keeps both tables' invariants |
| `App.RegisterKeepsTablesValid` | youtube_summarizer.py:95-112 | inserting a user who passes every guard of `register` keeps both tables' invariants, and every summary still belongs to an existing account |
| `App.Database.constructor` | youtube_summarizer.py:192-206 | the freshly created tables are empty, their counters start at 1, and the invariant holds |
| `App.Database.Register` | youtube_summarizer.py:95-112 | the checks run in order, empty fields, then email format, then existing email, each with its message; a failure writes nothing; success appends exactly `(next id, username, email, password)` and reports success; the invariant, unique emails included, is kept |
| `App.Database.InsertUser` | youtube_summarizer.py:110-111 | the user insert appends exactly `(next id, username, email, password)`, advances the counter, leaves the summaries alone and keeps the invariant |
| `App.Database.InsertSummary` | youtube_summarizer.py:136-140 | the summary insert appends exactly `(next id, user, link, summary, now)`, advances the counter, leaves the users alone and keeps the invariant |
| `App.Session.constructor` | youtube_summarizer.py:210 | a new session is logged out and holds no user id or username |
| `App.Session.Login` | youtube_summarizer.py:74-92 | login succeeds exactly when both fields are non-empty, the email is valid and a row has that email and password; it then sets `user_logged_in`, `user_id = row[0]` and `username = row[1]`; any failure leaves the session unchanged |
| `App.Session.SignOut` | youtube_summarizer.py:184-187 | after sign-out the session is logged out with no user id, and the username is unchanged |
| `App.RegisterThenLogin` | youtube_summarizer.py:216-238 | registering then logging in with the same credentials succeeds whenever the registration does, and binds the session to the new id and username; a successful registration appends the row with the next id and advances the counter; a refused one leaves the users table, the counter and the session as they were and does not log in; the summaries table never changes |
| `App.ViewHistory` | youtube_summarizer.py:148-181 | a logged-out session gets the "must be logged in" case; a logged-in one gets exactly its own summaries (filtered by day when a day is given), newest first, and "no summaries" exactly when none match; every listed link yields a video id |
| `App.HistoryLinksHoldId` | youtube_summarizer.py:171-174 | every link the history query returns contains `=`, because every stored link does |
| `App.ListCards` | youtube_summarizer.py:171-177 | the loop over the result rows lists every row in order, with the video id that `split('=')[1]` takes from its link |
| `App.Summarize` | youtube_summarizer.py:120-145 | exactly one outcome per case, each stated as if-and-only-if. A non-empty link without `=` stops the page. Otherwise a missing or empty transcript gives the "Unable to fetch transcript" error. A transcript followed by a failed model call or failed speech gives a synthesis failure. Otherwise the steps succeed, and the summary is the model's answer to the prompt followed by the transcript, for a link that contains `=` |
| `App.SummarizeVideo` | youtube_summarizer.py:115-145 | the outcome is that of `Summarize`; a row is stored exactly when it succeeds, and the row is `(next id, session user, link, summary, now)`; otherwise nothing is stored; the users table is never touched and the invariant is kept |

## Left out

- Streamlit rendering is not modelled: titles, images, the sidebar radio choices, buttons, `st.rerun` and the error and success banners. Only which outcome a page reaches is kept, for example `HistoryView` and `SummarizeOutcome`.
- The error messages that `login` shows with `st.error` are not modelled. `login` returns only a boolean, and that boolean is modelled.
- The raw-text summarization panels are not modelled (lines 240-255 and 288-312). `generate_summary` is a call into gensim with a floating-point ratio, followed by gTTS. Neither stores nor reads anything of the core.
- `text_to_speech`, `generate_gemini_content` and `YouTubeTranscriptApi.get_transcript` are foreign calls. They are the parameters `speaks`, `generate` and `fetch`, and a failure of any of them is `None` or `false`. Of a caption segment only the `text` field is modelled.
- The SQLite connection, `CREATE TABLE`, commits and `conn.close()` are not modelled. The tables are in-memory sequences.
- `CURRENT_TIMESTAMP` is the parameter `now`. A timestamp is an abstract `(day, second)` pair with no calendar.
- Ties in `ORDER BY created_at DESC` are left open, as SQLite leaves them. The contracts only require newest-first order and the right rows; `SortNewestFirst` happens to keep table order among ties.
- The UNIQUE constraint on `email` is never reached in the model, because `register`'s own check runs first in this single-threaded program. Concurrent writers are not modelled.
- Two session keys are written but never read by the core, so they are not modelled: `summary_text` (line 130) and `email` (line 222). The repeated `user_logged_in = True` in `main` (line 221) is also left out, because `login` has already set it.
- On the video page, `split("=")[1]` at line 121 runs on every page run with a non-empty link. It is modelled only as the first step of the "Summarize" action.
- The thumbnail and clipboard actions are not modelled: `pyperclip.copy` and the image URLs. Of the thumbnails, only the video id computed for them is kept.
- `view_history` takes its date from `st.date_input`, which starts with today's date. The model also allows the no-filter case that the `if filter_date:` branch provides for.
- Python strings are sequences of code points, and the model uses Dafny `char`. No encoding or normalisation is involved in anything the core does.
