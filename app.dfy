/**
 * The stateful part of youtube_summarizer.py: the SQLite database with its two tables, the
 * Streamlit session flags, and the operations that change them (`register`, `login`,
 * `sign_out`, the storing step of `summarization`) or read them (`view_history`).
 *
 * The database connection becomes a `Database` object whose fields are the tables and their
 * AUTOINCREMENT counters; `st.session_state` becomes a `Session` object with the three keys
 * the core reads and writes. Caption retrieval, the language model and speech synthesis are
 * parameters: functions that either give a result or fail.
 */
module App {
  import opened Common
  import opened Email
  import opened Text
  import opened Users
  import opened History

  /** The instruction prefix sent to the language model before the transcript. */
  const Prompt := "You are a YouTube video summarizer. Please provide the summary of the text given here: "

  /** The messages `register` returns. */
  const FillAllFields := "Please fill in all fields."
  const InvalidEmailAddress := "Invalid email address."
  const EmailAlreadyExists := "Email already exists."
  const RegistrationSuccessful := "Registration successful. Please login."

  /**
   * Both tables keep their invariants; every summary belongs to an existing account
   * (the FOREIGN KEY) and its link holds an `=` (it was stored only after
   * `split("=")[1]` succeeded on it).
   */
  ghost predicate TablesValid(users: seq<UserRow>, nextUserId: nat, summaries: seq<SummaryRow>, nextSummaryId: nat) {
    1 <= nextUserId && 1 <= nextSummaryId && UsersValid(users, nextUserId) &&
    SummariesValid(summaries, nextSummaryId) && SummariesLinked(users, summaries)
  }

  /** Every summary's owner exists and its link holds an `=`. */
  ghost predicate SummariesLinked(users: seq<UserRow>, summaries: seq<SummaryRow>) {
    forall i | 0 <= i < |summaries| ::
      FindById(users, summaries[i].userId).Some? && '=' in summaries[i].videoUrl
  }

  /** Storing a summary of an existing account, for a link with an `=`, under the next id keeps the summaries table valid. */
  lemma StoreSummaryKeepsSummariesValid(users: seq<UserRow>, summaries: seq<SummaryRow>, nextSummaryId: nat, row: SummaryRow)
    requires SummariesValid(summaries, nextSummaryId) && SummariesLinked(users, summaries)
    requires row.id == nextSummaryId >= 1 && FindById(users, row.userId).Some? && '=' in row.videoUrl
    ensures SummariesValid(summaries + [row], nextSummaryId + 1) && SummariesLinked(users, summaries + [row])
  {
  }

  /** Registering an account that passes every guard keeps both tables valid. */
  lemma RegisterKeepsTablesValid(users: seq<UserRow>, nextUserId: nat, summaries: seq<SummaryRow>,
                                 nextSummaryId: nat, row: UserRow)
    requires TablesValid(users, nextUserId, summaries, nextSummaryId)
    requires row.userId == nextUserId && CanRegister(users, row.username, row.email, row.password)
    ensures TablesValid(users + [row], nextUserId + 1, summaries, nextSummaryId)
  {
    RegisterKeepsUsersValid(users, nextUserId, row.username, row.email, row.password);
    forall i | 0 <= i < |summaries| ensures FindById(users + [row], summaries[i].userId).Some? {
      FindByIdAfterAppend(users, row, summaries[i].userId);
    }
  }

  /** Storing a summary for an existing account, with a link that holds an `=`, keeps both tables valid. */
  lemma StoreSummaryKeepsTablesValid(users: seq<UserRow>, nextUserId: nat, summaries: seq<SummaryRow>,
                                     nextSummaryId: nat, row: SummaryRow)
    requires TablesValid(users, nextUserId, summaries, nextSummaryId)
    requires row.id == nextSummaryId && FindById(users, row.userId).Some? && '=' in row.videoUrl
    ensures TablesValid(users, nextUserId, summaries + [row], nextSummaryId + 1)
  {
    StoreSummaryKeepsSummariesValid(users, summaries, nextSummaryId, row);
  }

  class Database {
    var users: seq<UserRow>
    var nextUserId: nat
    var summaries: seq<SummaryRow>
    var nextSummaryId: nat

    ghost predicate Valid()
      reads this
    {
      TablesValid(users, nextUserId, summaries, nextSummaryId)
    }

    /** The database as `main` first creates it: both tables empty. */
    constructor ()
      ensures Valid()
      ensures users == [] && summaries == [] && nextUserId == 1 && nextSummaryId == 1
    {
      users, nextUserId := [], 1;
      summaries, nextSummaryId := [], 1;
    }

    /**
     * `register(username, email, password)`: the empty-field check first, then the email
     * check, then the uniqueness check; only when all pass is one row inserted.
     */
    method Register(username: string, email: string, password: string) returns (success: bool, message: string)
      requires Valid()
      modifies this
      ensures Valid()
      ensures summaries == old(summaries) && nextSummaryId == old(nextSummaryId)
      ensures success <==> CanRegister(old(users), username, email, password)
      ensures username == "" || email == "" || password == "" ==>
                message == FillAllFields
      ensures username != "" && email != "" && password != "" && !IsValidEmail(email) ==>
                message == InvalidEmailAddress
      ensures username != "" && email != "" && password != "" && IsValidEmail(email) &&
              FindByEmail(old(users), email).Some? ==>
                message == EmailAlreadyExists
      ensures success ==> message == RegistrationSuccessful
      ensures !success ==> users == old(users) && nextUserId == old(nextUserId)
      ensures success ==> users == old(users) + [UserRow(old(nextUserId), username, email, password)] &&
                          nextUserId == old(nextUserId) + 1
    {
      if username == "" || email == "" || password == "" {
        return false, FillAllFields;
      }
      if !IsValidEmail(email) {
        return false, InvalidEmailAddress;
      }
      var existing := FindByEmail(users, email);
      if existing.Some? {
        return false, EmailAlreadyExists;
      }
      InsertUser(username, email, password);
      return true, RegistrationSuccessful;
    }

    /**
     * `INSERT INTO users (username, email, password) VALUES (?, ?, ?)` once every guard of
     * `register` has passed: the row gets the next id.
     */
    method InsertUser(username: string, email: string, password: string)
      requires Valid() && CanRegister(users, username, email, password)
      modifies this
      ensures Valid()
      ensures summaries == old(summaries) && nextSummaryId == old(nextSummaryId)
      ensures users == old(users) + [UserRow(old(nextUserId), username, email, password)]
      ensures nextUserId == old(nextUserId) + 1
    {
      var row := UserRow(nextUserId, username, email, password);
      RegisterKeepsTablesValid(users, nextUserId, summaries, nextSummaryId, row);
      users, nextUserId := users + [row], nextUserId + 1;
    }

    /**
     * `INSERT INTO summaries (user_id, video_url, summary) VALUES (?, ?, ?)`: the row gets the
     * next id and the time `now` (the column's CURRENT_TIMESTAMP default).
     */
    method InsertSummary(userId: nat, videoUrl: string, summary: string, now: Timestamp)
      requires Valid() && FindById(users, userId).Some? && '=' in videoUrl
      modifies this
      ensures Valid()
      ensures users == old(users) && nextUserId == old(nextUserId)
      ensures summaries == old(summaries) + [SummaryRow(old(nextSummaryId), userId, videoUrl, summary, now)]
      ensures nextSummaryId == old(nextSummaryId) + 1
    {
      var row := SummaryRow(nextSummaryId, userId, videoUrl, summary, now);
      StoreSummaryKeepsTablesValid(users, nextUserId, summaries, nextSummaryId, row);
      summaries, nextSummaryId := summaries + [row], nextSummaryId + 1;
    }
  }

  /** `st.session_state`: the keys `user_logged_in`, `user_id` and `username`. */
  class Session {
    var loggedIn: bool
    var userId: Option<nat>
    var username: Option<string>

    /** A fresh browser session: nothing set, which the source reads as logged out. */
    constructor ()
      ensures !loggedIn && userId == None && username == None
    {
      loggedIn, userId, username := false, None, None;
    }

    /** A logged-in session names an account that exists. */
    ghost predicate BoundTo(db: Database)
      reads this, db
    {
      loggedIn ==> userId.Some? && FindById(db.users, userId.value).Some?
    }

    /**
     * `login(email, password)`: on success the session is bound to the matching row's id
     * and username; on any failure nothing in the session changes.
     */
    method Login(db: Database, email: string, password: string) returns (ok: bool)
      modifies this
      ensures ok <==> Authenticate(db.users, email, password).Some?
      ensures ok ==> loggedIn &&
                     userId == Some(Authenticate(db.users, email, password).value.userId) &&
                     username == Some(Authenticate(db.users, email, password).value.username)
      ensures ok ==> BoundTo(db)
      ensures !ok ==> loggedIn == old(loggedIn) && userId == old(userId) && username == old(username)
    {
      if email == "" || password == "" {
        return false;
      }
      if !IsValidEmail(email) {
        return false;
      }
      var row := FindByCredentials(db.users, email, password);
      if row.Some? {
        loggedIn := true;
        userId := Some(row.value.userId);
        username := Some(row.value.username);
        return true;
      } else {
        return false;
      }
    }

    /** `sign_out()`: logged out, no user id; the stored username is left as it was. */
    method SignOut()
      modifies this
      ensures !loggedIn && userId == None && username == old(username)
    {
      loggedIn := false;
      userId := None;
    }
  }

  /** What the sidebar flow "Register" then "Login" does with the same credentials. */
  method RegisterThenLogin(db: Database, session: Session, username: string, email: string, password: string)
    returns (registered: bool, loggedIn: bool)
    requires db.Valid()
    modifies db, session
    ensures db.Valid()
    ensures registered <==> CanRegister(old(db.users), username, email, password)
    ensures registered ==> loggedIn && session.loggedIn && session.BoundTo(db) &&
                           session.userId == Some(old(db.nextUserId)) && session.username == Some(username)
    ensures db.summaries == old(db.summaries) && db.nextSummaryId == old(db.nextSummaryId)
    ensures registered ==> db.users == old(db.users) + [UserRow(old(db.nextUserId), username, email, password)] &&
                           db.nextUserId == old(db.nextUserId) + 1
    ensures !registered ==> db.users == old(db.users) && db.nextUserId == old(db.nextUserId) && !loggedIn &&
                            session.loggedIn == old(session.loggedIn) && session.userId == old(session.userId) &&
                            session.username == old(session.username)
  {
    var message;
    registered, message := db.Register(username, email, password);
    loggedIn := false;
    if registered {
      RegisterThenAuthenticate(old(db.users), old(db.nextUserId), username, email, password);
      loggedIn := session.Login(db, email, password);
    }
  }

  // ---------------------------------------------------------------------------
  // History.
  // ---------------------------------------------------------------------------

  /** One listed summary: its row and the video id its thumbnail is fetched by. */
  datatype Card = Card(row: SummaryRow, videoId: string)

  /** What `view_history` shows. */
  datatype HistoryView =
    | NotLoggedIn                 // "You must be logged in to view your summary history."
    | NoSummaries                 // "No summaries found matching the criteria."
    | Listing(cards: seq<Card>)   // "Your Summary History", one entry per row

  function Rows(cards: seq<Card>): (rows: seq<SummaryRow>)
    ensures |rows| == |cards|
    ensures forall k | 0 <= k < |cards| :: rows[k] == cards[k].row
  {
    seq(|cards|, k requires 0 <= k < |cards| => cards[k].row)
  }

  /** The rows a view lists, newest first. */
  function Shown(view: HistoryView): (rows: seq<SummaryRow>) {
    if view.Listing? then Rows(view.cards) else []
  }

  /**
   * `view_history()`: for a logged-in session, the caller's summaries (on `filterDate` when
   * given), newest first, each with the video id of its link; the thumbnail's
   * `split('=')[1]` never fails because every stored link holds an `=`.
   */
  method ViewHistory(db: Database, session: Session, filterDate: Option<int>) returns (view: HistoryView)
    requires db.Valid() && (session.loggedIn ==> session.userId.Some?)
    ensures !session.loggedIn <==> view == NotLoggedIn
    ensures session.loggedIn ==>
              NewestFirst(Shown(view)) &&
              forall x :: multiset(Shown(view))[x] ==
                          if InHistory(x, session.userId.value, filterDate) then multiset(db.summaries)[x] else 0
    ensures view.Listing? ==> |view.cards| > 0
    ensures view.Listing? ==> forall k | 0 <= k < |view.cards| ::
              VideoId(view.cards[k].row.videoUrl) == Some(view.cards[k].videoId)
  {
    if !session.loggedIn {
      return NotLoggedIn;
    }
    var userId := session.userId.value;
    var params := [OwnerIs(userId)];
    if filterDate.Some? {
      params := params + [CreatedOn(filterDate.value)];
    }
    assert params == HistoryParams(userId, filterDate);
    var rows := Execute(db.summaries, params);
    HistoryQueryExact(db.summaries, userId, filterDate);
    if |rows| == 0 {
      return NoSummaries;
    }
    HistoryLinksHoldId(db.users, db.summaries, userId, filterDate);
    var cards := ListCards(rows);
    return Listing(cards);
  }

  /** Every link the history query returns holds an `=`, since every stored link does. */
  lemma HistoryLinksHoldId(users: seq<UserRow>, summaries: seq<SummaryRow>, userId: nat, filterDate: Option<int>)
    requires SummariesLinked(users, summaries)
    ensures var rows := Execute(summaries, HistoryParams(userId, filterDate));
      forall k | 0 <= k < |rows| :: '=' in rows[k].videoUrl
  {
    var rows := Execute(summaries, HistoryParams(userId, filterDate));
    forall k | 0 <= k < |rows| ensures '=' in rows[k].videoUrl {
      HistoryShowsOnlyMatches(summaries, userId, filterDate, rows[k]);
    }
  }

  /**
   * The loop of `view_history` over the result rows: one entry per row, in order, with the
   * video id that `summary[2].split('=')[1]` takes from the row's link for its thumbnail.
   */
  method ListCards(rows: seq<SummaryRow>) returns (cards: seq<Card>)
    requires forall k | 0 <= k < |rows| :: '=' in rows[k].videoUrl
    ensures Rows(cards) == rows
    ensures forall k | 0 <= k < |cards| :: VideoId(cards[k].row.videoUrl) == Some(cards[k].videoId)
  {
    cards := [];
    var i := 0;
    while i < |rows|
      invariant 0 <= i <= |rows|
      invariant |cards| == i
      invariant forall k | 0 <= k < i :: cards[k].row == rows[k]
      invariant forall k | 0 <= k < i :: VideoId(rows[k].videoUrl) == Some(cards[k].videoId)
    {
      var id := VideoId(rows[i].videoUrl);
      cards := cards + [Card(rows[i], id.value)];
      i := i + 1;
    }
  }

  // ---------------------------------------------------------------------------
  // Summarizing a video and storing the summary.
  // ---------------------------------------------------------------------------

  /** How pressing "Summarize" on the video page ends. */
  datatype SummarizeOutcome =
    | LinkWithoutId     // `youtube_link.split("=")[1]` raised IndexError: the page stops
    | NoTranscript      // "Error: Unable to fetch transcript. Please try again."
    | SpeechFailed      // speech synthesis raised: the page stops before the row is stored
    | Saved(summary: string)

  /**
   * The steps of `summarization()` after "Summarize" is pressed with `link`, up to the point
   * where the row would be stored: take the video id, fetch and join the transcript, ask the
   * model for a summary, synthesize speech. `fetch`, `generate` and `speaks` stand for the
   * caption provider, the language model and the speech synthesizer; the model's None is a
   * caught failure, which reaches the synthesizer as None, and the synthesizer rejects it.
   */
  function Summarize(link: string,
                     fetch: string -> Option<seq<Segment>>,
                     generate: string -> Option<string>,
                     speaks: string -> bool): (outcome: SummarizeOutcome)
    ensures outcome == LinkWithoutId <==> link != "" && '=' !in link
    ensures outcome == NoTranscript <==>
              !(link != "" && '=' !in link) &&
              var transcript := ExtractTranscriptDetails(link, fetch);
              transcript.None? || transcript.value == ""
    ensures outcome == SpeechFailed <==>
              var transcript := ExtractTranscriptDetails(link, fetch);
              transcript.Some? && transcript.value != "" &&
              (generate(Prompt + transcript.value).None? || !speaks(generate(Prompt + transcript.value).value))
    ensures outcome.Saved? <==>
              var transcript := ExtractTranscriptDetails(link, fetch);
              transcript.Some? && transcript.value != "" &&
              generate(Prompt + transcript.value).Some? &&
              speaks(generate(Prompt + transcript.value).value)
    ensures outcome.Saved? ==>
              '=' in link &&
              outcome.summary == generate(Prompt + ExtractTranscriptDetails(link, fetch).value).value
  {
    if link != "" && VideoId(link).None? then LinkWithoutId
    else
      var transcript := ExtractTranscriptDetails(link, fetch);
      if transcript.None? || transcript.value == "" then NoTranscript
      else
        var summary := generate(Prompt + transcript.value);
        if summary.None? || !speaks(summary.value) then SpeechFailed
        else Saved(summary.value)
  }

  /**
   * `summarization()` when "Summarize" is pressed with `link`: the steps of `Summarize`,
   * then, when they all succeed, the row `(user_id, link, summary)` stamped `now` is stored
   * under the next summary id.
   */
  method SummarizeVideo(db: Database, session: Session, link: string,
                        fetch: string -> Option<seq<Segment>>,
                        generate: string -> Option<string>,
                        speaks: string -> bool,
                        now: Timestamp)
    returns (outcome: SummarizeOutcome)
    requires db.Valid() && session.loggedIn && session.BoundTo(db)
    modifies db
    ensures db.Valid()
    ensures db.users == old(db.users) && db.nextUserId == old(db.nextUserId)
    ensures outcome == Summarize(link, fetch, generate, speaks)
    ensures outcome.Saved? ==>
              db.summaries == old(db.summaries) +
                [SummaryRow(old(db.nextSummaryId), session.userId.value, link, outcome.summary, now)] &&
              db.nextSummaryId == old(db.nextSummaryId) + 1
    ensures !outcome.Saved? ==> db.summaries == old(db.summaries) && db.nextSummaryId == old(db.nextSummaryId)
  {
    outcome := Summarize(link, fetch, generate, speaks);
    if outcome.Saved? {
      db.InsertSummary(session.userId.value, link, outcome.summary, now);
    }
  }
}
