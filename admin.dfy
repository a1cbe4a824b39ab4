/**
 * The admin dashboard (src/app/admin/page.js): the role gate that runs when the
 * page mounts, the completion listing that `fetchUsers` builds from every answer
 * row, the per-questionnaire grouping that `openUserDetails` builds from one
 * user's rows, and the rule that shows an empty answer as "(No answer)".
 *
 * Query results are given as sequences; a failed query is `QueryError` and
 * leaves the page state unchanged. Navigation and React state updates are the
 * values the members return.
 */
module AdminPage {
  import opened Wrappers

  // ------------------------------------------------------------------ role gate

  /** The object parsed from local storage under "user"; `role` is `None` when absent. */
  datatype StoredUser = StoredUser(role: Option<string>)

  /** What the mount effect does: send the visitor to /login, or fetch the listing. */
  datatype GateOutcome = RedirectToLogin | LoadListing

  const AdminRole: string := "admin"

  /** The mount effect's check: only a stored user whose role is exactly "admin" gets in. */
  function Gate(stored: Option<StoredUser>): (outcome: GateOutcome)
    ensures outcome == LoadListing <==> stored.Some? && stored.value.role == Some(AdminRole)
    ensures outcome == RedirectToLogin <==> stored.None? || stored.value.role != Some(AdminRole)
  {
    if stored.None? || stored.value.role != Some(AdminRole) then RedirectToLogin else LoadListing
  }

  /** The comparison is exact: a differently cased role, or none at all, is turned away. */
  lemma GateIsExact()
    ensures Gate(None) == RedirectToLogin
    ensures Gate(Some(StoredUser(None))) == RedirectToLogin
    ensures Gate(Some(StoredUser(Some("Admin")))) == RedirectToLogin
    ensures Gate(Some(StoredUser(Some("admin")))) == LoadListing
  {
  }

  // ------------------------------------------------------------- query results

  /** The result of a Supabase query: the rows, or an error. */
  datatype Query<T> = Data(rows: seq<T>) | QueryError

  // -------------------------------------------------------- completion listing

  type UserId = int
  type QuestionnaireId = int

  /** A row of `questionnaire_results` joined with `users(username)`. */
  datatype Response = Response(userId: UserId, questionnaireId: QuestionnaireId, username: Option<string>)

  /** The record kept per user while the rows are scanned. */
  datatype Entry = Entry(username: string, userId: UserId, questionnaires: set<QuestionnaireId>)

  /** One line of the dashboard table: the entry plus its `completedCount`. */
  datatype UserSummary = UserSummary(username: string, userId: UserId, questionnaires: set<QuestionnaireId>, completedCount: nat)

  const UnknownUser: string := "Unknown"

  /** `r.users?.username || "Unknown"`: a missing or empty name falls back to "Unknown". */
  function DisplayName(username: Option<string>): (name: string)
    ensures name != ""
    ensures username.Some? && username.value != "" ==> name == username.value
    ensures username.None? || username.value == "" ==> name == UnknownUser
  {
    if username.Some? && username.value != "" then username.value else UnknownUser
  }

  /** Some row among the first `n` belongs to user `u`. */
  predicate SeenBefore(rows: seq<Response>, n: nat, u: UserId)
    requires n <= |rows|
  {
    exists j :: 0 <= j < n && rows[j].userId == u
  }

  /** Some row belongs to user `u`. */
  predicate HasUser(rows: seq<Response>, u: UserId)
  {
    SeenBefore(rows, |rows|, u)
  }

  /** The distinct questionnaire ids among the first `n` rows of user `u`. */
  function QuestionnairesBefore(rows: seq<Response>, n: nat, u: UserId): set<QuestionnaireId>
    requires n <= |rows|
  {
    set j | 0 <= j < n && rows[j].userId == u :: rows[j].questionnaireId
  }

  /** The distinct questionnaire ids among all rows of user `u`. */
  function QuestionnairesOf(rows: seq<Response>, u: UserId): set<QuestionnaireId>
  {
    QuestionnairesBefore(rows, |rows|, u)
  }

  /** The number of rows among the first `n` that belong to user `u`. */
  function CountBefore(rows: seq<Response>, n: nat, u: UserId): nat
    requires n <= |rows|
  {
    if n == 0 then 0 else CountBefore(rows, n - 1, u) + (if rows[n - 1].userId == u then 1 else 0)
  }

  /** The number of rows that belong to user `u`. */
  function RowCount(rows: seq<Response>, u: UserId): nat
  {
    CountBefore(rows, |rows|, u)
  }

  /** The position of the first row of user `u`. */
  function FirstIndex(rows: seq<Response>, u: UserId): (k: nat)
    requires HasUser(rows, u)
    ensures k < |rows| && rows[k].userId == u
    ensures forall j :: 0 <= j < k ==> rows[j].userId != u
  {
    if rows[0].userId == u then 0
    else
      assert HasUser(rows[1..], u) by {
        var j :| 0 <= j < |rows| && rows[j].userId == u;
        assert rows[1..][j - 1] == rows[j];
      }
      FirstIndex(rows[1..], u) + 1
  }

  /** What the dashboard shows for user `u`: the name of their first row and their distinct questionnaires. */
  function SummaryOf(rows: seq<Response>, u: UserId): UserSummary
    requires HasUser(rows, u)
  {
    var qs := QuestionnairesOf(rows, u);
    UserSummary(DisplayName(rows[FirstIndex(rows, u)].username), u, qs, |qs|)
  }

  /**
   * `listing` is the dashboard table for `rows`: exactly the users that occur in
   * the rows, in the order of their first row, each with its summary.
   */
  ghost predicate IsListing(rows: seq<Response>, listing: seq<UserSummary>)
  {
    && (forall k :: 0 <= k < |listing| ==> HasUser(rows, listing[k].userId))
    && (forall u :: HasUser(rows, u) ==> exists k :: 0 <= k < |listing| && listing[k].userId == u)
    && (forall a, b :: 0 <= a < b < |listing| ==>
          FirstIndex(rows, listing[a].userId) < FirstIndex(rows, listing[b].userId))
    && (forall k :: 0 <= k < |listing| ==> listing[k] == SummaryOf(rows, listing[k].userId))
  }

  /** The listed form of an entry: its fields, with the number of its distinct questionnaires as `completedCount`. */
  function Summarize(e: Entry): UserSummary
  {
    UserSummary(e.username, e.userId, e.questionnaires, |e.questionnaires|)
  }

  lemma QuestionnairesStep(rows: seq<Response>, n: nat, u: UserId)
    requires n < |rows|
    ensures QuestionnairesBefore(rows, n + 1, u)
         == QuestionnairesBefore(rows, n, u) + (if rows[n].userId == u then {rows[n].questionnaireId} else {})
  {
  }

  /** `acc` has an entry for exactly the users among the first `i` rows. */
  ghost predicate KeysSeen(rows: seq<Response>, i: nat, acc: map<UserId, Entry>)
    requires i <= |rows|
  {
    forall u :: u in acc <==> SeenBefore(rows, i, u)
  }

  /** Every user of `acc` has their first row among the first `i`. */
  ghost predicate FirstRowsBefore(rows: seq<Response>, i: nat, acc: map<UserId, Entry>)
  {
    forall u :: u in acc ==> HasUser(rows, u) && FirstIndex(rows, u) < i
  }

  /** Each entry names its user after the user's first row and holds the user's distinct questionnaires so far. */
  ghost predicate EntriesSoFar(rows: seq<Response>, i: nat, acc: map<UserId, Entry>)
    requires i <= |rows|
  {
    forall u :: u in acc ==>
      && acc[u].userId == u
      && acc[u].questionnaires == QuestionnairesBefore(rows, i, u)
      && HasUser(rows, u)
      && acc[u].username == DisplayName(rows[FirstIndex(rows, u)].username)
  }

  /** `order` lists the keys of `acc`, by position of each user's first row. */
  ghost predicate InsertionOrder(rows: seq<Response>, acc: map<UserId, Entry>, order: seq<UserId>)
  {
    && (forall k :: 0 <= k < |order| ==> order[k] in acc && HasUser(rows, order[k]))
    && (forall u :: u in acc ==> u in order)
    && (forall a, b :: 0 <= a < b < |order| ==> FirstIndex(rows, order[a]) < FirstIndex(rows, order[b]))
  }

  /**
   * The state of the grouping loop of `fetchUsers` after the first `i` rows:
   * the insertion-ordered map holds one entry per user seen so far.
   */
  ghost predicate Accumulated(rows: seq<Response>, i: nat, acc: map<UserId, Entry>, order: seq<UserId>)
    requires i <= |rows|
  {
    KeysSeen(rows, i, acc) && FirstRowsBefore(rows, i, acc) && EntriesSoFar(rows, i, acc) && InsertionOrder(rows, acc, order)
  }

  /** The map as it is when row `r` is added: a fresh entry with an empty set for a new user. */
  function WithEntry(acc: map<UserId, Entry>, r: Response): (base: map<UserId, Entry>)
  {
    if r.userId in acc then acc else acc[r.userId := Entry(DisplayName(r.username), r.userId, {})]
  }

  /** The first row of a user not seen before position `i` is row `i`. */
  lemma FirstIndexOfNewUser(rows: seq<Response>, i: nat)
    requires i < |rows| && !SeenBefore(rows, i, rows[i].userId)
    ensures HasUser(rows, rows[i].userId) && FirstIndex(rows, rows[i].userId) == i
  {
    var key := rows[i].userId;
    assert HasUser(rows, key) by {
      assert rows[i].userId == key;
    }
  }

  /** One turn of the loop keeps `KeysSeen`. */
  lemma KeysStep(rows: seq<Response>, i: nat, acc: map<UserId, Entry>, acc': map<UserId, Entry>)
    requires i < |rows| && KeysSeen(rows, i, acc)
    requires acc'.Keys == acc.Keys + {rows[i].userId}
    ensures KeysSeen(rows, i + 1, acc')
  {
    forall u
      ensures u in acc' <==> SeenBefore(rows, i + 1, u)
    {
      if u == rows[i].userId {
        assert rows[i].userId == u;
      } else if SeenBefore(rows, i + 1, u) {
        var j :| 0 <= j < i + 1 && rows[j].userId == u;
        assert SeenBefore(rows, i, u);
      }
    }
  }

  /** One turn of the loop keeps `FirstRowsBefore`. */
  lemma FirstRowsStep(rows: seq<Response>, i: nat, acc: map<UserId, Entry>, acc': map<UserId, Entry>)
    requires i < |rows| && KeysSeen(rows, i, acc) && FirstRowsBefore(rows, i, acc)
    requires acc'.Keys == acc.Keys + {rows[i].userId}
    ensures FirstRowsBefore(rows, i + 1, acc')
  {
    if rows[i].userId !in acc {
      FirstIndexOfNewUser(rows, i);
    }
  }

  /** One turn of the loop keeps `EntriesSoFar`. */
  lemma EntriesStep(rows: seq<Response>, i: nat, acc: map<UserId, Entry>, acc': map<UserId, Entry>)
    requires i < |rows| && KeysSeen(rows, i, acc) && EntriesSoFar(rows, i, acc)
    requires var base := WithEntry(acc, rows[i]);
      acc' == base[rows[i].userId := base[rows[i].userId].(questionnaires := base[rows[i].userId].questionnaires + {rows[i].questionnaireId})]
    ensures EntriesSoFar(rows, i + 1, acc')
  {
    if rows[i].userId !in acc {
      FirstIndexOfNewUser(rows, i);
    }
    forall u | u in acc'
      ensures acc'[u].questionnaires == QuestionnairesBefore(rows, i + 1, u)
    {
      QuestionnairesStep(rows, i, u);
    }
  }

  /** One turn of the loop keeps `InsertionOrder`. */
  lemma OrderStep(rows: seq<Response>, i: nat, acc: map<UserId, Entry>, order: seq<UserId>,
                  acc': map<UserId, Entry>, order': seq<UserId>)
    requires i < |rows| && KeysSeen(rows, i, acc) && FirstRowsBefore(rows, i, acc) && InsertionOrder(rows, acc, order)
    requires acc'.Keys == acc.Keys + {rows[i].userId}
    requires order' == if rows[i].userId in acc then order else order + [rows[i].userId]
    ensures InsertionOrder(rows, acc', order')
  {
    var key := rows[i].userId;
    if key !in acc {
      FirstIndexOfNewUser(rows, i);
      forall k | 0 <= k < |order'|
        ensures order'[k] in acc' && HasUser(rows, order'[k])
      {
        if k < |order| {
          assert order'[k] == order[k];
        }
      }
      forall a, b | 0 <= a < b < |order'|
        ensures FirstIndex(rows, order'[a]) < FirstIndex(rows, order'[b])
      {
        assert order'[a] == order[a] && order[a] in acc;
        if b < |order| {
          assert order'[b] == order[b];
        }
      }
    }
  }

  /** One turn of the loop keeps `Accumulated`. */
  lemma AccumulateStep(rows: seq<Response>, i: nat, acc: map<UserId, Entry>, order: seq<UserId>,
                       acc': map<UserId, Entry>, order': seq<UserId>)
    requires i < |rows| && Accumulated(rows, i, acc, order)
    requires var base := WithEntry(acc, rows[i]);
      acc' == base[rows[i].userId := base[rows[i].userId].(questionnaires := base[rows[i].userId].questionnaires + {rows[i].questionnaireId})]
    requires order' == if rows[i].userId in acc then order else order + [rows[i].userId]
    ensures Accumulated(rows, i + 1, acc', order')
  {
    assert acc'.Keys == acc.Keys + {rows[i].userId};
    KeysStep(rows, i, acc, acc');
    FirstRowsStep(rows, i, acc, acc');
    EntriesStep(rows, i, acc, acc');
    OrderStep(rows, i, acc, order, acc', order');
  }

  /** The loop has seen every row: projecting `acc` along `order` gives the listing. */
  lemma AccumulatedListing(rows: seq<Response>, acc: map<UserId, Entry>, order: seq<UserId>, result: seq<UserSummary>)
    requires Accumulated(rows, |rows|, acc, order)
    requires |result| == |order|
    requires forall k :: 0 <= k < |order| ==> result[k] == Summarize(acc[order[k]])
    ensures IsListing(rows, result)
  {
    forall u | HasUser(rows, u)
      ensures exists k :: 0 <= k < |result| && result[k].userId == u
    {
      var k :| 0 <= k < |order| && order[k] == u;
      assert result[k].userId == u;
    }
  }

  /**
   * `fetchUsers` after its query: the `forEach` loop builds a map from user id
   * to entry, the entry created at the user's first row and never renamed, its
   * set collecting every questionnaire id of that user; `Object.values(...).map`
   * then adds `completedCount`.
   */
  method GroupByUser(responses: seq<Response>) returns (result: seq<UserSummary>)
    ensures IsListing(responses, result)
  {
    var userQuestionnaireMap: map<UserId, Entry> := map[];
    var order: seq<UserId> := [];
    for i := 0 to |responses|
      invariant Accumulated(responses, i, userQuestionnaireMap, order)
    {
      var r := responses[i];
      var key := r.userId;
      ghost var acc, ord := userQuestionnaireMap, order;
      assert WithEntry(acc, r) == if key in acc then acc else acc[key := Entry(DisplayName(r.username), key, {})];
      if key !in userQuestionnaireMap {
        userQuestionnaireMap := userQuestionnaireMap[key := Entry(DisplayName(r.username), key, {})];
        order := order + [key];
      }
      var entry := userQuestionnaireMap[key];
      userQuestionnaireMap := userQuestionnaireMap[key := entry.(questionnaires := entry.questionnaires + {r.questionnaireId})];
      AccumulateStep(responses, i, acc, ord, userQuestionnaireMap, order);
    }
    result := seq(|order|, k requires 0 <= k < |order| => Summarize(userQuestionnaireMap[order[k]]));
    AccumulatedListing(responses, userQuestionnaireMap, order, result);
  }

  // ------------------------------------------------- properties of the listing

  /** There are never more distinct questionnaires than rows. */
  lemma {:induction false} DistinctAtMostRows(rows: seq<Response>, n: nat, u: UserId)
    requires n <= |rows|
    ensures |QuestionnairesBefore(rows, n, u)| <= CountBefore(rows, n, u)
  {
    if n > 0 {
      DistinctAtMostRows(rows, n - 1, u);
      QuestionnairesStep(rows, n - 1, u);
    }
  }

  /** A listed user has completed at least one questionnaire, and at most as many as they have rows. */
  lemma CompletedCountBounds(rows: seq<Response>, u: UserId)
    requires HasUser(rows, u)
    ensures 1 <= SummaryOf(rows, u).completedCount <= RowCount(rows, u)
  {
    var k := FirstIndex(rows, u);
    assert rows[k].questionnaireId in QuestionnairesOf(rows, u);
    DistinctAtMostRows(rows, |rows|, u);
  }

  /** What user `u` has among the first `n` rows does not depend on the rows after them. */
  lemma {:induction false} PrefixDetermines(rows: seq<Response>, extra: seq<Response>, n: nat, u: UserId)
    requires n <= |rows|
    ensures QuestionnairesBefore(rows + extra, n, u) == QuestionnairesBefore(rows, n, u)
    ensures CountBefore(rows + extra, n, u) == CountBefore(rows, n, u)
    ensures SeenBefore(rows + extra, n, u) == SeenBefore(rows, n, u)
  {
    assert forall j :: 0 <= j < n ==> (rows + extra)[j] == rows[j];
    if n > 0 {
      PrefixDetermines(rows, extra, n - 1, u);
    }
  }

  /**
   * A new answer row adds its questionnaire to its own user's set and one to
   * that user's row count, and changes nothing for any other user.
   */
  lemma AppendRow(rows: seq<Response>, r: Response, u: UserId)
    ensures QuestionnairesOf(rows + [r], u)
         == QuestionnairesOf(rows, u) + (if r.userId == u then {r.questionnaireId} else {})
    ensures RowCount(rows + [r], u) == RowCount(rows, u) + (if r.userId == u then 1 else 0)
    ensures HasUser(rows + [r], u) <==> HasUser(rows, u) || r.userId == u
  {
    PrefixDetermines(rows, [r], |rows|, u);
    QuestionnairesStep(rows + [r], |rows|, u);
    assert (rows + [r])[|rows|] == r;
    if r.userId == u {
      assert SeenBefore(rows + [r], |rows| + 1, u) by {
        assert (rows + [r])[|rows|].userId == u;
      }
    } else if SeenBefore(rows + [r], |rows| + 1, u) {
      var j :| 0 <= j < |rows| + 1 && (rows + [r])[j].userId == u;
      assert SeenBefore(rows + [r], |rows|, u);
    }
  }

  /**
   * Answering another question of a questionnaire the user already has rows
   * for adds a row but leaves `completedCount` as it was: the count is of
   * distinct questionnaires, not of rows.
   */
  lemma RepeatedQuestionnaireNotCounted(rows: seq<Response>, r: Response)
    requires r.questionnaireId in QuestionnairesOf(rows, r.userId)
    ensures HasUser(rows, r.userId) && HasUser(rows + [r], r.userId)
    ensures SummaryOf(rows + [r], r.userId).completedCount == SummaryOf(rows, r.userId).completedCount
    ensures RowCount(rows + [r], r.userId) == RowCount(rows, r.userId) + 1
  {
    AppendRow(rows, r, r.userId);
    assert QuestionnairesOf(rows + [r], r.userId) == QuestionnairesOf(rows, r.userId);
    var j :| 0 <= j < |rows| && rows[j].userId == r.userId && rows[j].questionnaireId == r.questionnaireId;
    assert SeenBefore(rows, |rows|, r.userId);
  }

  /** A row for a questionnaire new to its user raises that user's `completedCount` by one. */
  lemma NewQuestionnaireCounted(rows: seq<Response>, r: Response)
    requires HasUser(rows, r.userId)
    requires r.questionnaireId !in QuestionnairesOf(rows, r.userId)
    ensures HasUser(rows + [r], r.userId)
    ensures SummaryOf(rows + [r], r.userId).completedCount == SummaryOf(rows, r.userId).completedCount + 1
  {
    AppendRow(rows, r, r.userId);
  }

  /** The first row of a user is still the first once more rows follow. */
  lemma FirstIndexStable(rows: seq<Response>, extra: seq<Response>, u: UserId)
    requires HasUser(rows, u)
    ensures HasUser(rows + extra, u) && FirstIndex(rows + extra, u) == FirstIndex(rows, u)
  {
    var k := FirstIndex(rows, u);
    assert (rows + extra)[k] == rows[k];
    assert HasUser(rows + extra, u) by {
      assert SeenBefore(rows + extra, |rows + extra|, u) by {
        assert 0 <= k < |rows + extra| && (rows + extra)[k].userId == u;
      }
    }
  }

  /** A user's display name comes from their first row: later rows never change it. */
  lemma UsernameFromFirstRow(rows: seq<Response>, extra: seq<Response>, u: UserId)
    requires HasUser(rows, u)
    ensures HasUser(rows + extra, u)
    ensures SummaryOf(rows + extra, u).username == SummaryOf(rows, u).username
    ensures SummaryOf(rows, u).username == DisplayName(rows[FirstIndex(rows, u)].username)
  {
    FirstIndexStable(rows, extra, u);
    assert (rows + extra)[FirstIndex(rows, u)] == rows[FirstIndex(rows, u)];
  }

  /** A list strictly ordered by first row holding only users of `rows`. */
  ghost predicate OrderedUsers(rows: seq<Response>, xs: seq<UserId>)
  {
    && (forall k :: 0 <= k < |xs| ==> HasUser(rows, xs[k]))
    && (forall a, b :: 0 <= a < b < |xs| ==> FirstIndex(rows, xs[a]) < FirstIndex(rows, xs[b]))
  }

  /** The head of such a list comes strictly before every other user in it, and the tail holds exactly the others. */
  lemma OrderedHead(rows: seq<Response>, xs: seq<UserId>)
    requires OrderedUsers(rows, xs) && xs != []
    ensures forall u :: u in xs && u != xs[0] ==> FirstIndex(rows, xs[0]) < FirstIndex(rows, u)
    ensures forall u :: u in xs[1..] <==> u in xs && u != xs[0]
    ensures OrderedUsers(rows, xs[1..])
  {
    forall u | u in xs && u != xs[0]
      ensures FirstIndex(rows, xs[0]) < FirstIndex(rows, u)
    {
      var k :| 0 <= k < |xs| && xs[k] == u;
    }
    forall u
      ensures u in xs[1..] <==> u in xs && u != xs[0]
    {
      if u in xs[1..] {
        var k :| 0 <= k < |xs[1..]| && xs[1..][k] == u;
        assert xs[k + 1] == u;
      }
      if u in xs && u != xs[0] {
        var k :| 0 <= k < |xs| && xs[k] == u;
        assert xs[1..][k - 1] == u;
      }
    }
    assert forall a, b :: 0 <= a < b < |xs[1..]| ==> xs[1..][a] == xs[a + 1] && xs[1..][b] == xs[b + 1];
  }

  /** Two user lists, each strictly ordered by first row and holding the same users, are equal. */
  lemma {:induction false} SameUsersSameOrder(rows: seq<Response>, xs: seq<UserId>, ys: seq<UserId>)
    requires OrderedUsers(rows, xs) && OrderedUsers(rows, ys)
    requires forall u :: u in xs <==> u in ys
    ensures xs == ys
  {
    assert |ys| > 0 ==> ys[0] in xs;
    if xs != [] {
      assert xs[0] in ys;
      OrderedHead(rows, xs);
      OrderedHead(rows, ys);
      assert ys[0] == xs[0];
      SameUsersSameOrder(rows, xs[1..], ys[1..]);
    }
  }

  /** The user ids of a listing, in its order. */
  function UserIds(listing: seq<UserSummary>): (ids: seq<UserId>)
    ensures |ids| == |listing|
    ensures forall k :: 0 <= k < |listing| ==> ids[k] == listing[k].userId
  {
    if listing == [] then [] else [listing[0].userId] + UserIds(listing[1..])
  }

  /** A listing's ids are ordered by first row and are exactly the users of the rows. */
  lemma ListingUsers(rows: seq<Response>, listing: seq<UserSummary>)
    requires IsListing(rows, listing)
    ensures OrderedUsers(rows, UserIds(listing))
    ensures forall u :: u in UserIds(listing) <==> HasUser(rows, u)
  {
    var ids := UserIds(listing);
    forall u
      ensures u in ids <==> HasUser(rows, u)
    {
      if HasUser(rows, u) {
        var k :| 0 <= k < |listing| && listing[k].userId == u;
        assert ids[k] == u;
      }
    }
  }

  /** The listing is determined by the rows: `IsListing` admits exactly one table. */
  lemma ListingIsUnique(rows: seq<Response>, a: seq<UserSummary>, b: seq<UserSummary>)
    requires IsListing(rows, a) && IsListing(rows, b)
    ensures a == b
  {
    ListingUsers(rows, a);
    ListingUsers(rows, b);
    SameUsersSameOrder(rows, UserIds(a), UserIds(b));
    forall k | 0 <= k < |a|
      ensures a[k] == b[k]
    {
      assert a[k].userId == UserIds(a)[k] == UserIds(b)[k] == b[k].userId;
    }
  }

  /** The rows of the worked case below. */
  function ExampleResponses(): seq<Response>
  {
    [Response(1, 10, Some("ann")), Response(1, 20, Some("ann")), Response(2, 10, None), Response(1, 10, Some("ann"))]
  }

  /**
   * A worked case: user 1 answers questionnaires 10 and 20 (10 twice) and is
   * listed with a count of 2 over 3 rows.
   */
  lemma ListingExample()
    ensures HasUser(ExampleResponses(), 1)
    ensures SummaryOf(ExampleResponses(), 1) == UserSummary("ann", 1, {10, 20}, 2)
    ensures RowCount(ExampleResponses(), 1) == 3
  {
    var rows := ExampleResponses();
    assert rows[0].userId == 1;
    assert QuestionnairesBefore(rows, 2, 1) == {10, 20} by {
      QuestionnairesStep(rows, 0, 1);
      QuestionnairesStep(rows, 1, 1);
    }
    assert QuestionnairesOf(rows, 1) == {10, 20} by {
      QuestionnairesStep(rows, 2, 1);
      QuestionnairesStep(rows, 3, 1);
    }
    assert CountBefore(rows, 1, 1) == 1;
    assert CountBefore(rows, 3, 1) == 2;
    assert FirstIndex(rows, 1) == 0;
  }

  /**
   * The same worked case: user 2 answers only questionnaire 10 and has no
   * joined name, so is listed as "Unknown" with a count of 1; user 3 has no
   * rows and is not listed.
   */
  lemma ListingExampleOthers()
    ensures HasUser(ExampleResponses(), 2) && !HasUser(ExampleResponses(), 3)
    ensures SummaryOf(ExampleResponses(), 2) == UserSummary(UnknownUser, 2, {10}, 1)
  {
    var rows := ExampleResponses();
    assert rows[2].userId == 2;
    assert QuestionnairesBefore(rows, 2, 2) == {} by {
      QuestionnairesStep(rows, 0, 2);
      QuestionnairesStep(rows, 1, 2);
    }
    assert QuestionnairesOf(rows, 2) == {10} by {
      QuestionnairesStep(rows, 2, 2);
      QuestionnairesStep(rows, 3, 2);
    }
    assert FirstIndex(rows, 2) == 2;
  }

  /** `fetchUsers`: on a failed query the table is left as it was; otherwise it becomes the listing. */
  method FetchUsers(query: Query<Response>) returns (usersData: Option<seq<UserSummary>>)
    ensures usersData.None? <==> query.QueryError?
    ensures usersData.Some? ==> IsListing(query.rows, usersData.value)
  {
    match query
    case QueryError =>
      usersData := None;
    case Data(responses) =>
      var result := GroupByUser(responses);
      usersData := Some(result);
  }

  // ---------------------------------------------------------- answer details

  /** A row of `questionnaire_results` joined with `questions(question)` and `questionnaires(name)`. */
  datatype DetailRow = DetailRow(answerText: Option<string>, questionnaireName: Option<string>, question: string)

  /** One item pushed onto a group: `{question, answer_text}`. */
  datatype QnA = QnA(question: string, answerText: Option<string>)

  /**
   * The accumulator of the `reduce`: an object from questionnaire name to its
   * items; `names` gives its keys in insertion order, the order in which
   * `Object.entries` lists them for the modal.
   */
  datatype Grouped = Grouped(names: seq<string>, groups: map<string, seq<QnA>>)

  /** What the modal is given in `setSelectedUserDetails`, or nothing when the query failed. */
  datatype DetailsUpdate = Unchanged | ShowModal(userId: UserId, groupedResults: Grouped)

  const UnknownQuestionnaire: string := "Unknown Questionnaire"

  /** The group a row goes to: its questionnaire's name, or the fallback name when that is missing or empty. */
  function GroupName(row: DetailRow): (name: string)
    ensures name != ""
    ensures row.questionnaireName.Some? && row.questionnaireName.value != "" ==> name == row.questionnaireName.value
    ensures row.questionnaireName.None? || row.questionnaireName.value == "" ==> name == UnknownQuestionnaire
  {
    if row.questionnaireName.Some? && row.questionnaireName.value != "" then row.questionnaireName.value
    else UnknownQuestionnaire
  }

  function ToQnA(row: DetailRow): QnA
  {
    QnA(row.question, row.answerText)
  }

  /** The items of group `name` built from the first `n` rows, in row order. */
  function GroupBefore(rows: seq<DetailRow>, n: nat, name: string): seq<QnA>
    requires n <= |rows|
  {
    if n == 0 then []
    else GroupBefore(rows, n - 1, name) + (if GroupName(rows[n - 1]) == name then [ToQnA(rows[n - 1])] else [])
  }

  /** The items of group `name`. */
  function GroupOf(rows: seq<DetailRow>, name: string): seq<QnA>
  {
    GroupBefore(rows, |rows|, name)
  }

  /** The positions, among the first `n`, of the rows that go to group `name`. */
  function IndicesBefore(rows: seq<DetailRow>, n: nat, name: string): seq<nat>
    requires n <= |rows|
  {
    if n == 0 then []
    else IndicesBefore(rows, n - 1, name) + (if GroupName(rows[n - 1]) == name then [n - 1] else [])
  }

  /** The group names of the first `n` rows, each once, in order of first appearance. */
  function NamesBefore(rows: seq<DetailRow>, n: nat): seq<string>
    requires n <= |rows|
  {
    if n == 0 then []
    else
      var seen := NamesBefore(rows, n - 1);
      if GroupName(rows[n - 1]) in seen then seen else seen + [GroupName(rows[n - 1])]
  }

  /** The group names, in the order the modal lists them. */
  function NamesOf(rows: seq<DetailRow>): seq<string>
  {
    NamesBefore(rows, |rows|)
  }

  /** The number of items, over the groups in `names`, built from the first `n` rows. */
  function TotalBefore(rows: seq<DetailRow>, n: nat, names: seq<string>): nat
    requires n <= |rows|
  {
    if names == [] then 0
    else TotalBefore(rows, n, names[..|names| - 1]) + |GroupBefore(rows, n, names[|names| - 1])|
  }

  /** No name occurs twice. */
  predicate Distinct(names: seq<string>)
  {
    forall a, b :: 0 <= a < b < |names| ==> names[a] != names[b]
  }

  /** `grouped` is what the `reduce` over `rows` returns. */
  ghost predicate IsGrouping(rows: seq<DetailRow>, grouped: Grouped)
  {
    && grouped.names == NamesOf(rows)
    && (forall name :: name in grouped.groups <==> name in grouped.names)
    && (forall name :: name in grouped.groups ==> grouped.groups[name] == GroupOf(rows, name))
  }

  /** No group name is listed twice. */
  lemma {:induction false} NamesDistinct(rows: seq<DetailRow>, n: nat)
    requires n <= |rows|
    ensures Distinct(NamesBefore(rows, n))
  {
    if n > 0 {
      NamesDistinct(rows, n - 1);
    }
  }

  /** The names are exactly the group names of the first `n` rows. */
  lemma {:induction false} NamesExact(rows: seq<DetailRow>, n: nat)
    requires n <= |rows|
    ensures forall name :: name in NamesBefore(rows, n) <==> exists j :: 0 <= j < n && GroupName(rows[j]) == name
  {
    if n > 0 {
      NamesExact(rows, n - 1);
      forall name
        ensures name in NamesBefore(rows, n) <==> exists j :: 0 <= j < n && GroupName(rows[j]) == name
      {
        if exists j :: 0 <= j < n && GroupName(rows[j]) == name {
          var j :| 0 <= j < n && GroupName(rows[j]) == name;
          if j < n - 1 {
            assert name in NamesBefore(rows, n - 1);
          }
        }
      }
    }
  }

  /** Some row before position `j` goes to group `name`. */
  predicate OccursBefore(rows: seq<DetailRow>, j: nat, name: string)
    requires j <= |rows|
  {
    exists i :: 0 <= i < j && GroupName(rows[i]) == name
  }

  /**
   * A name listed before another first occurs in an earlier row: every row of
   * the later name `NamesBefore(rows, n)[b]` has a row of the earlier name
   * `NamesBefore(rows, n)[a]` before it.
   */
  lemma {:induction false} NamesFirstAppearance(rows: seq<DetailRow>, n: nat, a: nat, b: nat, j: nat)
    requires n <= |rows| && a < b < |NamesBefore(rows, n)|
    requires j < n && GroupName(rows[j]) == NamesBefore(rows, n)[b]
    ensures OccursBefore(rows, j, NamesBefore(rows, n)[a])
  {
    var seen := NamesBefore(rows, n - 1);
    var name := GroupName(rows[n - 1]);
    NamesExact(rows, n - 1);
    if name in seen {
      assert NamesBefore(rows, n) == seen;
      if j < n - 1 {
        NamesFirstAppearance(rows, n - 1, a, b, j);
      } else {
        var j' :| 0 <= j' < n - 1 && GroupName(rows[j']) == seen[b];
        NamesFirstAppearance(rows, n - 1, a, b, j');
      }
    } else {
      assert NamesBefore(rows, n) == seen + [name];
      if b < |seen| {
        assert seen[b] != name;
        NamesFirstAppearance(rows, n - 1, a, b, j);
      } else {
        assert seen[a] in seen;
        var i :| 0 <= i < n - 1 && GroupName(rows[i]) == seen[a];
        assert j == n - 1;
      }
    }
  }

  /** The modal lists the groups in the order in which their names first occur in the rows. */
  lemma NamesInFirstAppearanceOrder(rows: seq<DetailRow>)
    ensures forall a, b, j :: 0 <= a < b < |NamesOf(rows)| && 0 <= j < |rows| && GroupName(rows[j]) == NamesOf(rows)[b] ==>
      OccursBefore(rows, j, NamesOf(rows)[a])
  {
    forall a, b, j | 0 <= a < b < |NamesOf(rows)| && 0 <= j < |rows| && GroupName(rows[j]) == NamesOf(rows)[b]
      ensures OccursBefore(rows, j, NamesOf(rows)[a])
    {
      NamesFirstAppearance(rows, |rows|, a, b, j);
    }
  }

  /** A group is empty exactly when its name is not among the names. */
  lemma {:induction false} GroupEmptyUnlessNamed(rows: seq<DetailRow>, n: nat, name: string)
    requires n <= |rows|
    ensures GroupBefore(rows, n, name) == [] <==> name !in NamesBefore(rows, n)
  {
    if n > 0 {
      GroupEmptyUnlessNamed(rows, n - 1, name);
    }
  }

  /** The positions strictly increase. */
  predicate Increasing(positions: seq<nat>)
  {
    forall a, b :: 0 <= a < b < |positions| ==> positions[a] < positions[b]
  }

  /** Every position is below `n`. */
  predicate Below(positions: seq<nat>, n: nat)
  {
    forall k :: 0 <= k < |positions| ==> positions[k] < n
  }

  /** Appending a position above all others keeps the positions increasing. */
  lemma IncreasingAppend(positions: seq<nat>, p: nat)
    requires Increasing(positions) && Below(positions, p)
    ensures Increasing(positions + [p]) && Below(positions + [p], p + 1)
  {
    assert forall k :: 0 <= k < |positions| ==> (positions + [p])[k] == positions[k];
  }

  /** The positions listed for group `name` increase and lie among the first `n` rows. */
  lemma {:induction false} IndicesOrdered(rows: seq<DetailRow>, n: nat, name: string)
    requires n <= |rows|
    ensures Increasing(IndicesBefore(rows, n, name)) && Below(IndicesBefore(rows, n, name), n)
  {
    if n > 0 {
      IndicesOrdered(rows, n - 1, name);
      var prev := IndicesBefore(rows, n - 1, name);
      if GroupName(rows[n - 1]) == name {
        assert IndicesBefore(rows, n, name) == prev + [n - 1];
        IncreasingAppend(prev, n - 1);
      } else {
        assert IndicesBefore(rows, n, name) == prev;
      }
    }
  }

  /** The positions listed for group `name` are exactly those of the rows with that name. */
  lemma {:induction false} IndicesExact(rows: seq<DetailRow>, n: nat, name: string)
    requires n <= |rows|
    ensures forall j :: j in IndicesBefore(rows, n, name) <==> 0 <= j < n && GroupName(rows[j]) == name
  {
    if n > 0 {
      IndicesExact(rows, n - 1, name);
      var prev := IndicesBefore(rows, n - 1, name);
      if GroupName(rows[n - 1]) == name {
        assert IndicesBefore(rows, n, name) == prev + [n - 1];
      } else {
        assert IndicesBefore(rows, n, name) == prev;
      }
    }
  }

  /** Item `k` of group `name` comes from the row at the `k`-th listed position. */
  lemma {:induction false} GroupAtIndices(rows: seq<DetailRow>, n: nat, name: string)
    requires n <= |rows|
    ensures |IndicesBefore(rows, n, name)| == |GroupBefore(rows, n, name)|
    ensures forall k :: 0 <= k < |IndicesBefore(rows, n, name)| ==>
      IndicesBefore(rows, n, name)[k] < |rows| && GroupBefore(rows, n, name)[k] == ToQnA(rows[IndicesBefore(rows, n, name)[k]])
  {
    if n > 0 {
      GroupAtIndices(rows, n - 1, name);
    }
  }

  /**
   * Group `name` is the subsequence of the rows whose group name is `name`:
   * item `k` comes from row `IndicesBefore(..)[k]`, the positions increase, and
   * a row's position is listed exactly when its group name is `name`.
   */
  lemma GroupIsOrderedSubsequence(rows: seq<DetailRow>, name: string)
    ensures |IndicesBefore(rows, |rows|, name)| == |GroupOf(rows, name)|
    ensures forall k :: 0 <= k < |IndicesBefore(rows, |rows|, name)| ==>
      IndicesBefore(rows, |rows|, name)[k] < |rows| && GroupOf(rows, name)[k] == ToQnA(rows[IndicesBefore(rows, |rows|, name)[k]])
    ensures Increasing(IndicesBefore(rows, |rows|, name))
    ensures forall j :: j in IndicesBefore(rows, |rows|, name) <==> 0 <= j < |rows| && GroupName(rows[j]) == name
  {
    IndicesOrdered(rows, |rows|, name);
    IndicesExact(rows, |rows|, name);
    GroupAtIndices(rows, |rows|, name);
  }

  /** Every row lands in exactly one group: the one named by its questionnaire, or the fallback. */
  lemma EveryRowInOneGroup(rows: seq<DetailRow>, j: nat)
    requires j < |rows|
    ensures GroupName(rows[j]) in NamesOf(rows)
    ensures forall name :: j in IndicesBefore(rows, |rows|, name) <==> name == GroupName(rows[j])
  {
    NamesExact(rows, |rows|);
    forall name
      ensures j in IndicesBefore(rows, |rows|, name) <==> name == GroupName(rows[j])
    {
      IndicesExact(rows, |rows|, name);
    }
  }

  /** One more row adds one item to the total over distinct names exactly when its group is among them. */
  lemma {:induction false} TotalStep(rows: seq<DetailRow>, n: nat, names: seq<string>)
    requires n < |rows| && Distinct(names)
    ensures TotalBefore(rows, n + 1, names)
         == TotalBefore(rows, n, names) + (if GroupName(rows[n]) in names then 1 else 0)
  {
    if names != [] {
      var init := names[..|names| - 1];
      assert Distinct(init);
      TotalStep(rows, n, init);
      assert names == init + [names[|names| - 1]];
      assert GroupName(rows[n]) in names <==> GroupName(rows[n]) in init || GroupName(rows[n]) == names[|names| - 1];
    }
  }

  /** The total over `names + [name]` adds the size of group `name`. */
  lemma TotalAppendName(rows: seq<DetailRow>, n: nat, names: seq<string>, name: string)
    requires n <= |rows|
    ensures TotalBefore(rows, n, names + [name]) == TotalBefore(rows, n, names) + |GroupBefore(rows, n, name)|
  {
    assert (names + [name])[..|names|] == names;
  }

  /** A row whose group already exists adds one item to the total and no name. */
  lemma ConservedKnownName(rows: seq<DetailRow>, n: nat)
    requires 0 < n <= |rows|
    requires GroupName(rows[n - 1]) in NamesBefore(rows, n - 1)
    requires TotalBefore(rows, n - 1, NamesBefore(rows, n - 1)) == n - 1
    ensures TotalBefore(rows, n, NamesBefore(rows, n)) == n
  {
    var seen := NamesBefore(rows, n - 1);
    assert NamesBefore(rows, n) == seen;
    NamesDistinct(rows, n - 1);
    TotalStep(rows, n - 1, seen);
  }

  /** A row opening a new group adds its name, whose group holds just that row's item. */
  lemma ConservedNewName(rows: seq<DetailRow>, n: nat)
    requires 0 < n <= |rows|
    requires GroupName(rows[n - 1]) !in NamesBefore(rows, n - 1)
    requires TotalBefore(rows, n - 1, NamesBefore(rows, n - 1)) == n - 1
    ensures TotalBefore(rows, n, NamesBefore(rows, n)) == n
  {
    var seen := NamesBefore(rows, n - 1);
    var name := GroupName(rows[n - 1]);
    assert NamesBefore(rows, n) == seen + [name];
    NamesDistinct(rows, n - 1);
    TotalStep(rows, n - 1, seen);
    GroupEmptyUnlessNamed(rows, n - 1, name);
    assert GroupBefore(rows, n, name) == [ToQnA(rows[n - 1])];
    TotalAppendName(rows, n, seen, name);
  }

  /** Grouping loses and duplicates no row: the groups hold as many items as there are rows. */
  lemma {:induction false} EntriesConserved(rows: seq<DetailRow>, n: nat)
    requires n <= |rows|
    ensures TotalBefore(rows, n, NamesBefore(rows, n)) == n
  {
    if n > 0 {
      EntriesConserved(rows, n - 1);
      if GroupName(rows[n - 1]) in NamesBefore(rows, n - 1) {
        ConservedKnownName(rows, n);
      } else {
        ConservedNewName(rows, n);
      }
    }
  }

  /**
   * A worked case: rows from "Intake", from no questionnaire and from one with
   * an empty name, then "Intake" again; the last two rows share the fallback
   * group, and each group keeps its rows' order.
   */
  lemma DetailsExample()
    ensures var rows := [DetailRow(Some("yes"), Some("Intake"), "q1"), DetailRow(None, None, "q2"),
                         DetailRow(Some(""), Some(""), "q3"), DetailRow(Some("no"), Some("Intake"), "q4")];
      && NamesOf(rows) == ["Intake", UnknownQuestionnaire]
      && GroupOf(rows, "Intake") == [QnA("q1", Some("yes")), QnA("q4", Some("no"))]
      && GroupOf(rows, UnknownQuestionnaire) == [QnA("q2", None), QnA("q3", Some(""))]
  {
    var rows := [DetailRow(Some("yes"), Some("Intake"), "q1"), DetailRow(None, None, "q2"),
                 DetailRow(Some(""), Some(""), "q3"), DetailRow(Some("no"), Some("Intake"), "q4")];
    assert GroupName(rows[0]) == "Intake" && GroupName(rows[3]) == "Intake";
    assert GroupName(rows[1]) == UnknownQuestionnaire && GroupName(rows[2]) == UnknownQuestionnaire;
    assert NamesBefore(rows, 1) == ["Intake"];
    assert NamesBefore(rows, 2) == ["Intake", UnknownQuestionnaire];
    assert NamesBefore(rows, 3) == ["Intake", UnknownQuestionnaire];
    assert GroupBefore(rows, 2, "Intake") == [QnA("q1", Some("yes"))];
    assert GroupBefore(rows, 3, "Intake") == [QnA("q1", Some("yes"))];
    assert GroupBefore(rows, 1, UnknownQuestionnaire) == [];
    assert GroupBefore(rows, 2, UnknownQuestionnaire) == [QnA("q2", None)];
    assert GroupBefore(rows, 3, UnknownQuestionnaire) == [QnA("q2", None), QnA("q3", Some(""))];
  }

  /**
   * The properties an empty object literal inherits from `Object.prototype`.
   * Each holds a truthy value without a `push`, so a group of that name is
   * never created and pushing onto it throws a TypeError.
   */
  const InheritedNames: set<string> := {
    "constructor", "__proto__", "hasOwnProperty", "isPrototypeOf", "propertyIsEnumerable",
    "toString", "toLocaleString", "valueOf",
    "__defineGetter__", "__defineSetter__", "__lookupGetter__", "__lookupSetter__"}

  /** Some row among the first `n` names a group that the empty accumulator already inherits. */
  predicate ThrowsBefore(rows: seq<DetailRow>, n: nat)
    requires n <= |rows|
  {
    exists j :: 0 <= j < n && GroupName(rows[j]) in InheritedNames
  }

  /** The `reduce` over `rows` throws. */
  predicate Throws(rows: seq<DetailRow>)
  {
    ThrowsBefore(rows, |rows|)
  }

  /**
   * The `reduce` of `openUserDetails`: each row's `{question, answer_text}` is
   * pushed onto the array of its questionnaire's name, the array created on
   * that name's first row. A name inherited from `Object.prototype` makes the
   * push throw, and then there is no result.
   */
  method GroupByQuestionnaire(results: seq<DetailRow>) returns (grouped: Option<Grouped>)
    ensures grouped.None? <==> Throws(results)
    ensures grouped.Some? ==> IsGrouping(results, grouped.value)
  {
    var acc: map<string, seq<QnA>> := map[];
    var names: seq<string> := [];
    for i := 0 to |results|
      invariant !ThrowsBefore(results, i)
      invariant names == NamesBefore(results, i)
      invariant forall name :: name in acc <==> name in names
      invariant forall name :: name in acc ==> acc[name] == GroupBefore(results, i, name)
    {
      var questionnaireName := GroupName(results[i]);
      if questionnaireName in InheritedNames {
        grouped := None;
        return;
      }
      if questionnaireName !in acc {
        GroupEmptyUnlessNamed(results, i, questionnaireName);
        acc := acc[questionnaireName := []];
        names := names + [questionnaireName];
      }
      acc := acc[questionnaireName := acc[questionnaireName] + [ToQnA(results[i])]];
    }
    grouped := Some(Grouped(names, acc));
  }

  /**
   * `openUserDetails`: on a failed query, or when the grouping throws, nothing
   * changes; otherwise the modal opens for the user on the grouping.
   */
  method OpenUserDetails(userId: UserId, query: Query<DetailRow>) returns (update: DetailsUpdate)
    ensures update.Unchanged? <==> query.QueryError? || Throws(query.rows)
    ensures update.ShowModal? ==> update.userId == userId && IsGrouping(query.rows, update.groupedResults)
  {
    match query
    case QueryError =>
      update := Unchanged;
    case Data(results) =>
      var groupedResults := GroupByQuestionnaire(results);
      match groupedResults
      case None =>
        update := Unchanged;
      case Some(g) =>
        update := ShowModal(userId, g);
  }

  /** A questionnaire named "constructor" makes the grouping throw; the fallback name never does. */
  lemma ThrowsExample()
    ensures Throws([DetailRow(Some("yes"), Some("Intake"), "q1"), DetailRow(Some("no"), Some("constructor"), "q2")])
    ensures !Throws([DetailRow(None, None, "q1"), DetailRow(Some(""), Some("Intake"), "q2")])
  {
    var bad := [DetailRow(Some("yes"), Some("Intake"), "q1"), DetailRow(Some("no"), Some("constructor"), "q2")];
    assert GroupName(bad[1]) == "constructor";
    var good := [DetailRow(None, None, "q1"), DetailRow(Some(""), Some("Intake"), "q2")];
    assert GroupName(good[0]) == UnknownQuestionnaire && GroupName(good[1]) == "Intake";
  }

  const NoAnswer: string := "(No answer)"

  /** `item.answer_text || "(No answer)"`: a missing or empty answer is shown as the placeholder. */
  function AnswerShown(answerText: Option<string>): (shown: string)
    ensures shown != ""
    ensures answerText.Some? && answerText.value != "" ==> shown == answerText.value
    ensures answerText.None? || answerText.value == "" ==> shown == NoAnswer
  {
    if answerText.Some? && answerText.value != "" then answerText.value else NoAnswer
  }
}
