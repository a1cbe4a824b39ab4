/**
 * The login page (src/app/login/page.js): a fixed table of accounts, and the
 * form handler that looks the submitted pair up in it and either navigates by
 * role or shows one generic error. Navigation and `setError` are the outcome
 * the handler returns; the table is a constant value, so no attempt can
 * change it, and the outcome carries no session to persist.
 */
module LoginPage {
  import opened Wrappers

  datatype Account = Account(username: string, password: string, isAdmin: bool)

  /** The hard-coded `users` table. */
  const Users: seq<Account> := [
    Account("user1", "password1", false),
    Account("admin1", "adminpass1", true)
  ]

  const AdminPath: string := "/admin"
  const QuestionnairesPath: string := "/questionnaires"
  const InvalidCredentials: string := "Invalid username or password"

  /** What submitting the form does: `router.push(path)`, or `setError(message)`. */
  datatype LoginOutcome = Navigate(path: string) | ShowError(message: string)

  /** Both fields are exactly equal, case included. */
  predicate Matches(account: Account, username: string, password: string)
  {
    account.username == username && account.password == password
  }

  /** Account `i` is the first in table order that matches both fields. */
  predicate FirstMatchAt(table: seq<Account>, i: nat, username: string, password: string)
    requires i < |table|
  {
    Matches(table[i], username, password) && forall j :: 0 <= j < i ==> !Matches(table[j], username, password)
  }

  /** `users.find(...)`: the first account in table order that matches both fields. */
  function FindAccount(table: seq<Account>, username: string, password: string): (found: Option<Account>)
    ensures found.None? <==> forall i :: 0 <= i < |table| ==> !Matches(table[i], username, password)
    ensures found.Some? ==> exists i :: 0 <= i < |table| && FirstMatchAt(table, i, username, password) && table[i] == found.value
  {
    if table == [] then None
    else if Matches(table[0], username, password) then Some(table[0])
    else
      var found := FindAccount(table[1..], username, password);
      assert found.Some? ==> exists i :: 0 <= i < |table| && FirstMatchAt(table, i, username, password) && table[i] == found.value by {
        if found.Some? {
          var i :| 0 <= i < |table[1..]| && FirstMatchAt(table[1..], i, username, password) && table[1..][i] == found.value;
          assert table[i + 1] == table[1..][i];
          assert forall j :: 1 <= j < i + 1 ==> table[j] == table[1..][j - 1];
          assert FirstMatchAt(table, i + 1, username, password);
        }
      }
      found
  }

  /** Where a matched account is sent. */
  function RouteFor(account: Account): (path: string)
    ensures account.isAdmin ==> path == AdminPath
    ensures !account.isAdmin ==> path == QuestionnairesPath
  {
    if account.isAdmin then AdminPath else QuestionnairesPath
  }

  /**
   * `handleLogin` against any table: it navigates exactly when some account
   * matches both fields, to the route of the FIRST matching account; otherwise
   * it shows the one fixed message, whichever field was wrong.
   */
  function HandleLoginIn(table: seq<Account>, username: string, password: string): (outcome: LoginOutcome)
    ensures outcome.Navigate? <==> exists i :: 0 <= i < |table| && Matches(table[i], username, password)
    ensures outcome.ShowError? ==> outcome == ShowError(InvalidCredentials)
    ensures outcome.Navigate? ==> outcome.path == AdminPath || outcome.path == QuestionnairesPath
    ensures forall i :: 0 <= i < |table| && FirstMatchAt(table, i, username, password) ==> outcome == Navigate(RouteFor(table[i]))
  {
    match FindAccount(table, username, password)
    case Some(account) => Navigate(RouteFor(account))
    case None => ShowError(InvalidCredentials)
  }

  /** `handleLogin` on the page's own table: only the two stored pairs get in. */
  function HandleLogin(username: string, password: string): (outcome: LoginOutcome)
    ensures outcome == Navigate(QuestionnairesPath) <==> username == "user1" && password == "password1"
    ensures outcome == Navigate(AdminPath) <==> username == "admin1" && password == "adminpass1"
    ensures outcome.ShowError? ==> outcome == ShowError(InvalidCredentials)
    ensures !(username == "user1" && password == "password1") && !(username == "admin1" && password == "adminpass1")
      ==> outcome == ShowError(InvalidCredentials)
  {
    HandleLoginIn(Users, username, password)
  }

  /** Accounts after a matching one never change the outcome: the first match wins. */
  lemma FirstMatchWins(table: seq<Account>, extra: seq<Account>, username: string, password: string)
    requires exists i :: 0 <= i < |table| && Matches(table[i], username, password)
    ensures HandleLoginIn(table + extra, username, password) == HandleLoginIn(table, username, password)
  {
    var found := FindAccount(table, username, password);
    var i :| 0 <= i < |table| && FirstMatchAt(table, i, username, password) && table[i] == found.value;
    assert (table + extra)[i] == table[i];
    assert forall j :: 0 <= j < i ==> (table + extra)[j] == table[j];
    assert FirstMatchAt(table + extra, i, username, password);
  }

  /**
   * Two pairs that match no account cannot be told apart, whether the username
   * is unknown, the password is wrong, or the password belongs to another account.
   */
  lemma WrongFieldIndistinguishable(table: seq<Account>, username: string, password: string, username': string, password': string)
    requires forall i :: 0 <= i < |table| ==> !Matches(table[i], username, password)
    requires forall i :: 0 <= i < |table| ==> !Matches(table[i], username', password')
    ensures HandleLoginIn(table, username, password) == HandleLoginIn(table, username', password')
  {
  }

  /** Worked cases on the page's table; the comparison is case-sensitive. */
  lemma LoginExamples()
    ensures HandleLogin("user1", "password1") == Navigate(QuestionnairesPath)
    ensures HandleLogin("admin1", "adminpass1") == Navigate(AdminPath)
    ensures HandleLogin("User1", "password1") == ShowError(InvalidCredentials)
    ensures HandleLogin("admin1", "password1") == HandleLogin("nobody", "adminpass1")
  {
  }
}
