/**
 * The users table `users(user_id, username, email, password)` and the lookups that
 * `register` and `login` run on it, as functions over the rows in insertion order.
 * Passwords are stored and compared as given (the source does not hash them).
 */
module Users {
  import opened Common
  import opened Email

  /** A row of the users table. */
  datatype UserRow = UserRow(userId: nat, username: string, email: string, password: string)

  /**
   * What every stored row satisfies, since `register` is the only writer: non-empty fields,
   * a valid email, AUTOINCREMENT ids increasing in insertion order and below the next id,
   * and no email twice.
   */
  ghost predicate UsersValid(rows: seq<UserRow>, nextId: nat) {
    (forall i {:trigger RowValid(rows[i])} | 0 <= i < |rows| :: RowValid(rows[i])) &&
    (forall i | 0 <= i < |rows| :: rows[i].userId < nextId) &&
    (forall i, j | 0 <= i < j < |rows| :: rows[i].userId < rows[j].userId && rows[i].email != rows[j].email)
  }

  /** One stored row on its own: a positive id, non-empty fields, a valid email. */
  ghost predicate RowValid(row: UserRow) {
    1 <= row.userId && row.username != "" && row.email != "" && row.password != "" &&
    IsValidEmail(row.email)
  }

  /** `SELECT * FROM users WHERE email = ?` followed by `fetchone()`: the first such row. */
  function FindByEmail(rows: seq<UserRow>, email: string): (r: Option<UserRow>)
    ensures r.None? <==> forall i | 0 <= i < |rows| :: rows[i].email != email
    ensures r.Some? ==> r.value in rows && r.value.email == email
  {
    if |rows| == 0 then None
    else if rows[0].email == email then Some(rows[0])
    else FindByEmail(rows[1..], email)
  }

  /** `SELECT * FROM users WHERE email = ? AND password = ?` followed by `fetchone()`. */
  function FindByCredentials(rows: seq<UserRow>, email: string, password: string): (r: Option<UserRow>)
    ensures r.None? <==> forall i | 0 <= i < |rows| :: !(rows[i].email == email && rows[i].password == password)
    ensures r.Some? ==> r.value in rows && r.value.email == email && r.value.password == password
  {
    if |rows| == 0 then None
    else if rows[0].email == email && rows[0].password == password then Some(rows[0])
    else FindByCredentials(rows[1..], email, password)
  }

  /** The row with a given `user_id` (the key the session and the summaries refer to). */
  function FindById(rows: seq<UserRow>, id: nat): (r: Option<UserRow>)
    ensures r.None? <==> forall i | 0 <= i < |rows| :: rows[i].userId != id
    ensures r.Some? ==> r.value in rows && r.value.userId == id
  {
    if |rows| == 0 then None
    else if rows[0].userId == id then Some(rows[0])
    else FindById(rows[1..], id)
  }

  /** The guards of `register` that all pass: fields present, email valid, email not yet taken. */
  predicate CanRegister(rows: seq<UserRow>, username: string, email: string, password: string) {
    username != "" && email != "" && password != "" && IsValidEmail(email) && FindByEmail(rows, email).None?
  }

  /** The decision `login` makes: its input checks, then the credential lookup. */
  function Authenticate(rows: seq<UserRow>, email: string, password: string): (r: Option<UserRow>)
    ensures r.Some? <==>
              email != "" && password != "" && IsValidEmail(email) &&
              exists i | 0 <= i < |rows| :: rows[i].email == email && rows[i].password == password
    ensures r.Some? ==> r.value in rows && r.value.email == email && r.value.password == password
  {
    if email == "" || password == "" then None
    else if !IsValidEmail(email) then None
    else FindByCredentials(rows, email, password)
  }

  /** How many rows carry `email`. */
  function CountEmail(rows: seq<UserRow>, email: string): (count: nat)
  {
    if |rows| == 0 then 0
    else (if rows[0].email == email then 1 else 0) + CountEmail(rows[1..], email)
  }

  // ---------------------------------------------------------------------------
  // Properties.
  // ---------------------------------------------------------------------------

  /** A successful registration appends a row that keeps the table's invariant, emails unique included. */
  lemma RegisterKeepsUsersValid(rows: seq<UserRow>, nextId: nat, username: string, email: string, password: string)
    requires UsersValid(rows, nextId) && 1 <= nextId
    requires CanRegister(rows, username, email, password)
    ensures UsersValid(rows + [UserRow(nextId, username, email, password)], nextId + 1)
  {
    var s := rows + [UserRow(nextId, username, email, password)];
    forall i | 0 <= i < |s| ensures RowValid(s[i]) {
      if i < |rows| { assert s[i] == rows[i]; }
    }
    forall i | 0 <= i < |s| ensures s[i].userId < nextId + 1 {
      if i < |rows| { assert s[i] == rows[i]; }
    }
    forall i, j | 0 <= i < j < |s| ensures s[i].userId < s[j].userId && s[i].email != s[j].email {
      assert s[i] == rows[i];
      if j < |rows| { assert s[j] == rows[j]; }
    }
  }

  /** Appending a row does not change which row an existing id finds. */
  lemma {:induction false} FindByIdAfterAppend(rows: seq<UserRow>, row: UserRow, id: nat)
    requires FindById(rows, id).Some?
    ensures FindById(rows + [row], id) == FindById(rows, id)
  {
    if rows[0].userId != id {
      assert (rows + [row])[1..] == rows[1..] + [row];
      FindByIdAfterAppend(rows[1..], row, id);
    }
  }

  /**
   * Register, then log in: after a registration that passes every guard, `login` with the
   * same email and password finds exactly the new row.
   */
  lemma RegisterThenAuthenticate(rows: seq<UserRow>, nextId: nat, username: string, email: string, password: string)
    requires CanRegister(rows, username, email, password)
    ensures Authenticate(rows + [UserRow(nextId, username, email, password)], email, password) ==
            Some(UserRow(nextId, username, email, password))
  {
    var row := UserRow(nextId, username, email, password);
    CredentialsAfterAppend(rows, row);
  }

  lemma {:induction false} CredentialsAfterAppend(rows: seq<UserRow>, row: UserRow)
    requires forall i | 0 <= i < |rows| :: rows[i].email != row.email
    ensures FindByCredentials(rows + [row], row.email, row.password) == Some(row)
  {
    if |rows| > 0 {
      assert (rows + [row])[1..] == rows[1..] + [row];
      CredentialsAfterAppend(rows[1..], row);
    }
  }

  /**
   * `login` succeeds exactly for non-empty, valid credentials of a stored row, and then it
   * is that row (there is only one per email).
   */
  lemma AuthenticateFindsTheAccount(rows: seq<UserRow>, nextId: nat, email: string, password: string, k: nat)
    requires UsersValid(rows, nextId) && k < |rows|
    ensures Authenticate(rows, email, password) == Some(rows[k]) <==>
            email != "" && password != "" && IsValidEmail(email) &&
            rows[k].email == email && rows[k].password == password
  {
  }

  /** A stored email with a wrong password does not log in. */
  lemma WrongPasswordRejected(rows: seq<UserRow>, nextId: nat, k: nat, password: string)
    requires UsersValid(rows, nextId) && k < |rows|
    requires rows[k].password != password
    ensures Authenticate(rows, rows[k].email, password) == None
  {
  }

  /** Once an email is registered, a second registration with it fails the uniqueness guard. */
  lemma SecondRegistrationConflicts(rows: seq<UserRow>, nextId: nat, username: string, email: string, password: string,
                                    username2: string, password2: string)
    requires CanRegister(rows, username, email, password)
    ensures !CanRegister(rows + [UserRow(nextId, username, email, password)], username2, email, password2)
    ensures FindByEmail(rows + [UserRow(nextId, username, email, password)], email) ==
            Some(UserRow(nextId, username, email, password))
  {
    var row := UserRow(nextId, username, email, password);
    assert (rows + [row])[|rows|] == row;
    EmailAfterAppend(rows, row);
  }

  lemma {:induction false} EmailAfterAppend(rows: seq<UserRow>, row: UserRow)
    requires forall i | 0 <= i < |rows| :: rows[i].email != row.email
    ensures FindByEmail(rows + [row], row.email) == Some(row)
  {
    if |rows| > 0 {
      assert (rows + [row])[1..] == rows[1..] + [row];
      EmailAfterAppend(rows[1..], row);
    }
  }

  /** The table holds at most one account per email, and exactly one for a registered email. */
  lemma {:induction false} OneAccountPerEmail(rows: seq<UserRow>, nextId: nat, email: string)
    requires UsersValid(rows, nextId)
    ensures CountEmail(rows, email) == if FindByEmail(rows, email).Some? then 1 else 0
  {
    if |rows| > 0 {
      assert UsersValid(rows[1..], nextId);
      OneAccountPerEmail(rows[1..], nextId, email);
      if rows[0].email == email {
        assert FindByEmail(rows[1..], email).None? by {
          forall i | 0 <= i < |rows[1..]| ensures rows[1..][i].email != email {
            assert rows[1..][i] == rows[i + 1];
          }
        }
      }
    }
  }
}
