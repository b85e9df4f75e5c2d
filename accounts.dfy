/**
 * The sender-quota core over the `email_accounts` table (app.py:133-148):
 * every sending account of a user has a daily counter that is reset on a new
 * day, incremented after each delivered message and capped at
 * `EMAIL_LIMIT_PER_ACCOUNT` for the purpose of rotation.
 */
module Accounts {
  import opened Options

  /** `EMAIL_LIMIT_PER_ACCOUNT` (app.py:42). */
  const Limit: nat := 15

  /** One row of `email_accounts`; dates and timestamps are integers. */
  datatype Account = Account(
    id: int,
    userId: int,
    email: string,
    password: string,
    isActive: bool,
    sentCount: nat,
    lastReset: int,
    defaultCc: Option<string>,
    defaultBcc: Option<string>,
    createdAt: int)

  /** The table's `UNIQUE(user_id, email)` constraint. */
  predicate UniqueKeys(rows: seq<Account>) {
    forall i, j :: 0 <= i < j < |rows| ==>
      rows[i].userId != rows[j].userId || rows[i].email != rows[j].email
  }

  /** Two tables hold the same accounts in the same order; only counters and reset dates may differ. */
  predicate SameAccounts(a: seq<Account>, b: seq<Account>) {
    |a| == |b| &&
    forall i :: 0 <= i < |a| ==>
      a[i].id == b[i].id && a[i].userId == b[i].userId && a[i].email == b[i].email &&
      a[i].password == b[i].password && a[i].isActive == b[i].isActive &&
      a[i].defaultCc == b[i].defaultCc && a[i].defaultBcc == b[i].defaultBcc &&
      a[i].createdAt == b[i].createdAt
  }

  /** Keys are a property of the accounts alone. */
  lemma SameAccountsKeepKeys(a: seq<Account>, b: seq<Account>)
    requires SameAccounts(a, b) && UniqueKeys(a)
    ensures UniqueKeys(b)
  {
    forall i, j | 0 <= i < j < |b| ensures b[i].userId != b[j].userId || b[i].email != b[j].email {
      assert a[i].userId != a[j].userId || a[i].email != a[j].email;
    }
  }

  // ---------------------------------------------------------------------
  // Daily reset (app.py:396-410)
  // ---------------------------------------------------------------------

  /** The `UPDATE … WHERE user_id = %s AND last_reset < today` applied to one row. */
  function ResetRow(a: Account, userId: int, today: int): Account {
    if a.userId == userId && a.lastReset < today then a.(sentCount := 0, lastReset := today) else a
  }

  /** The daily reset applied to the whole table. */
  function ResetRows(rows: seq<Account>, userId: int, today: int): (r: seq<Account>)
    ensures |r| == |rows|
  {
    seq(|rows|, i requires 0 <= i < |rows| => ResetRow(rows[i], userId, today))
  }

  /**
   * A stale account of the user restarts its day with no message sent; every
   * other account, of this user or another, is left as it was.
   */
  lemma ResetEffect(rows: seq<Account>, userId: int, today: int)
    ensures SameAccounts(rows, ResetRows(rows, userId, today))
    ensures forall i :: 0 <= i < |rows| && rows[i].userId == userId && rows[i].lastReset < today ==>
      ResetRows(rows, userId, today)[i].sentCount == 0 && ResetRows(rows, userId, today)[i].lastReset == today
    ensures forall i :: 0 <= i < |rows| && (rows[i].userId != userId || rows[i].lastReset >= today) ==>
      ResetRows(rows, userId, today)[i] == rows[i]
  {
  }

  /** After the reset every account of the user is up to date. */
  lemma ResetBringsUpToDate(rows: seq<Account>, userId: int, today: int)
    ensures forall i :: 0 <= i < |rows| && rows[i].userId == userId ==>
      ResetRows(rows, userId, today)[i].lastReset >= today
  {
  }

  /** A second reset on the same day changes nothing. */
  lemma ResetIdempotent(rows: seq<Account>, userId: int, today: int)
    ensures ResetRows(ResetRows(rows, userId, today), userId, today) == ResetRows(rows, userId, today)
  {
    var once := ResetRows(rows, userId, today);
    ResetBringsUpToDate(rows, userId, today);
    assert forall i :: 0 <= i < |once| ==> ResetRow(once[i], userId, today) == once[i];
  }

  // ---------------------------------------------------------------------
  // Sender selection (app.py:412-442)
  // ---------------------------------------------------------------------

  /** What `get_available_sender` hands out: address, password and the raw default CC/BCC columns. */
  datatype Sender = Sender(email: string, password: string, defaultCc: Option<string>, defaultBcc: Option<string>)

  function SenderOf(a: Account): Sender {
    Sender(a.email, a.password, a.defaultCc, a.defaultBcc)
  }

  /** An active account of the user. */
  predicate ActiveFor(a: Account, userId: int) {
    a.userId == userId && a.isActive
  }

  /** An active account of the user that is still under the daily limit. */
  predicate Eligible(a: Account, userId: int) {
    ActiveFor(a, userId) && a.sentCount < Limit
  }

  /** `ORDER BY sent_count ASC, created_at ASC`: `a` sorts no later than `b`. */
  predicate NoLater(a: Account, b: Account) {
    a.sentCount < b.sentCount || (a.sentCount == b.sentCount && a.createdAt <= b.createdAt)
  }

  predicate NoActive(rows: seq<Account>, userId: int) {
    forall j :: 0 <= j < |rows| ==> !ActiveFor(rows[j], userId)
  }

  ghost predicate AnyEligible(rows: seq<Account>, userId: int) {
    exists j :: 0 <= j < |rows| && Eligible(rows[j], userId)
  }

  /** The first stage: an eligible account that sorts first by count, then by creation. */
  predicate LeastUsedAt(rows: seq<Account>, userId: int, i: int) {
    0 <= i < |rows| && Eligible(rows[i], userId) &&
    forall j :: 0 <= j < |rows| && Eligible(rows[j], userId) ==> NoLater(rows[i], rows[j])
  }

  /** The fallback stage: the earliest-created active account. */
  predicate EarliestActiveAt(rows: seq<Account>, userId: int, i: int) {
    0 <= i < |rows| && ActiveFor(rows[i], userId) &&
    forall j :: 0 <= j < |rows| && ActiveFor(rows[j], userId) ==> rows[i].createdAt <= rows[j].createdAt
  }

  /** The account the two-stage query may return. */
  ghost predicate SelectedAt(rows: seq<Account>, userId: int, i: int) {
    if AnyEligible(rows, userId) then LeastUsedAt(rows, userId, i) else EarliestActiveAt(rows, userId, i)
  }

  /**
   * An admissible answer of the two-stage query: nothing exactly when the user
   * has no active account, otherwise the sender of a selected account.
   */
  ghost predicate ValidChoice(rows: seq<Account>, userId: int, r: Option<Sender>) {
    (r.None? <==> NoActive(rows, userId)) &&
    (r.Some? ==> exists i :: SelectedAt(rows, userId, i) && r.value == SenderOf(rows[i]))
  }

  /** The two queries of `get_available_sender`, as two scans of the table. */
  method SelectSender(rows: seq<Account>, userId: int) returns (r: Option<Sender>)
    ensures ValidChoice(rows, userId, r)
  {
    var best := -1;
    var i := 0;
    while i < |rows|
      invariant 0 <= i <= |rows|
      invariant -1 <= best < i
      invariant best == -1 ==> forall j :: 0 <= j < i ==> !Eligible(rows[j], userId)
      invariant best >= 0 ==> Eligible(rows[best], userId)
      invariant best >= 0 ==> forall j :: 0 <= j < i && Eligible(rows[j], userId) ==> NoLater(rows[best], rows[j])
    {
      if Eligible(rows[i], userId) && (best == -1 || !NoLater(rows[best], rows[i])) {
        best := i;
      }
      i := i + 1;
    }
    if best >= 0 {
      assert LeastUsedAt(rows, userId, best);
      assert SelectedAt(rows, userId, best);
      return Some(SenderOf(rows[best]));
    }
    var first := -1;
    i := 0;
    while i < |rows|
      invariant 0 <= i <= |rows|
      invariant -1 <= first < i
      invariant first == -1 ==> forall j :: 0 <= j < i ==> !ActiveFor(rows[j], userId)
      invariant first >= 0 ==> ActiveFor(rows[first], userId)
      invariant first >= 0 ==> forall j :: 0 <= j < i && ActiveFor(rows[j], userId) ==> rows[first].createdAt <= rows[j].createdAt
    {
      if ActiveFor(rows[i], userId) && (first == -1 || rows[i].createdAt < rows[first].createdAt) {
        first := i;
      }
      i := i + 1;
    }
    if first >= 0 {
      assert EarliestActiveAt(rows, userId, first);
      assert SelectedAt(rows, userId, first);
      return Some(SenderOf(rows[first]));
    }
    return None;
  }

  /** Selection never stalls: while some active account exists one is returned, even over the limit. */
  lemma SelectionNeverStalls(rows: seq<Account>, userId: int, r: Option<Sender>, i: int)
    requires ValidChoice(rows, userId, r)
    requires 0 <= i < |rows| && ActiveFor(rows[i], userId)
    ensures r.Some?
    ensures exists k :: 0 <= k < |rows| && ActiveFor(rows[k], userId) && r.value == SenderOf(rows[k])
  {
    var k :| SelectedAt(rows, userId, k) && r.value == SenderOf(rows[k]);
  }

  /** An account under the limit is always preferred to one at or over it. */
  lemma SelectionPrefersQuota(rows: seq<Account>, userId: int, r: Option<Sender>, i: int)
    requires ValidChoice(rows, userId, r)
    requires 0 <= i < |rows| && Eligible(rows[i], userId)
    ensures r.Some?
    ensures exists k :: 0 <= k < |rows| && Eligible(rows[k], userId) &&
                        rows[k].sentCount <= rows[i].sentCount && r.value == SenderOf(rows[k])
  {
    var k :| SelectedAt(rows, userId, k) && r.value == SenderOf(rows[k]);
  }

  /**
   * On a new day every active account of the user is eligible again after the
   * reset, so the first stage is taken.
   */
  lemma NewDayRestoresQuota(rows: seq<Account>, userId: int, today: int)
    requires forall i :: 0 <= i < |rows| && rows[i].userId == userId ==> rows[i].lastReset < today
    ensures forall i :: 0 <= i < |rows| && ActiveFor(rows[i], userId) ==>
      Eligible(ResetRows(rows, userId, today)[i], userId)
  {
  }

  // ---------------------------------------------------------------------
  // Account statistics (app.py:444-475)
  // ---------------------------------------------------------------------

  /** One entry of `get_account_stats`; `percentage_used` is not modelled. */
  datatype AccountStat = AccountStat(
    id: int,
    email: string,
    sentToday: nat,
    remaining: int,
    limit: nat,
    isActive: bool,
    defaultCc: string,
    defaultBcc: string,
    createdAt: int)

  /** `value or ''` for a nullable text column. */
  function OrEmpty(o: Option<string>): string {
    match o
    case None => ""
    case Some(v) => v
  }

  /** The entry built for one account. */
  function StatOf(a: Account): AccountStat {
    AccountStat(a.id, a.email, a.sentCount, if a.isActive then Limit - a.sentCount else 0,
                Limit, a.isActive, OrEmpty(a.defaultCc), OrEmpty(a.defaultBcc), a.createdAt)
  }

  /** `WHERE user_id = %s`: the accounts of the user, active or not, in table order. */
  function UserRows(rows: seq<Account>, userId: int): (r: seq<Account>)
    ensures |r| <= |rows|
    ensures forall k :: 0 <= k < |r| ==> r[k].userId == userId
    decreases |rows|
  {
    if rows == [] then []
    else (if rows[0].userId == userId then [rows[0]] else []) + UserRows(rows[1..], userId)
  }

  /** Every account of the user is among its rows. */
  lemma {:induction false} UserRowsComplete(rows: seq<Account>, userId: int, i: int)
    requires 0 <= i < |rows| && rows[i].userId == userId
    ensures rows[i] in UserRows(rows, userId)
    decreases |rows|
  {
    if i > 0 {
      UserRowsComplete(rows[1..], userId, i - 1);
      assert rows[1..][i - 1] == rows[i];
    }
  }

  /** The user's rows come from the table. */
  lemma {:induction false} UserRowsSound(rows: seq<Account>, userId: int, a: Account)
    requires a in UserRows(rows, userId)
    ensures a in rows
    decreases |rows|
  {
    if rows != [] && a != rows[0] {
      UserRowsSound(rows[1..], userId, a);
    }
  }

  predicate SortedByCreated(s: seq<Account>) {
    forall i, j :: 0 <= i < j < |s| ==> s[i].createdAt <= s[j].createdAt
  }

  /** Insertion of one account into a list sorted by creation, before later-created ones. */
  function InsertByCreated(a: Account, s: seq<Account>): (r: seq<Account>)
    requires SortedByCreated(s)
    ensures |r| == |s| + 1
    ensures r[0] == a || (s != [] && r[0] == s[0])
    ensures SortedByCreated(r)
    ensures multiset(r) == multiset(s) + multiset{a}
    decreases |s|
  {
    if s == [] || a.createdAt <= s[0].createdAt then [a] + s
    else
      var rest := InsertByCreated(a, s[1..]);
      assert s == [s[0]] + s[1..];
      [s[0]] + rest
  }

  /** `ORDER BY created_at`, as a stable insertion sort. */
  function SortByCreated(s: seq<Account>): (r: seq<Account>)
    ensures SortedByCreated(r)
    ensures multiset(r) == multiset(s)
    decreases |s|
  {
    if s == [] then []
    else
      assert s == [s[0]] + s[1..];
      InsertByCreated(s[0], SortByCreated(s[1..]))
  }

  /** The accounts `get_account_stats` reports on, in report order. */
  function AccountsByCreated(rows: seq<Account>, userId: int): seq<Account> {
    SortByCreated(UserRows(rows, userId))
  }

  /** A report that has one entry per account of the user, in creation order. */
  predicate StatsReport(rows: seq<Account>, userId: int, stats: seq<AccountStat>) {
    var accounts := AccountsByCreated(rows, userId);
    |stats| == |accounts| && forall m :: 0 <= m < |stats| ==> stats[m] == StatOf(accounts[m])
  }

  /** The loop of `get_account_stats` over the sorted rows of the user. */
  method StatsFor(rows: seq<Account>, userId: int) returns (stats: seq<AccountStat>)
    ensures StatsReport(rows, userId, stats)
  {
    var accounts := AccountsByCreated(rows, userId);
    stats := [];
    var k := 0;
    while k < |accounts|
      invariant 0 <= k <= |accounts|
      invariant |stats| == k
      invariant forall m :: 0 <= m < k ==> stats[m] == StatOf(accounts[m])
    {
      stats := stats + [StatOf(accounts[k])];
      k := k + 1;
    }
  }

  /**
   * The report has as many entries as the user has accounts, in creation
   * order; each shows the fixed limit, and its remaining quota is the limit
   * less the day's count for an active account and 0 for an inactive one.
   */
  lemma StatsShape(rows: seq<Account>, userId: int, stats: seq<AccountStat>)
    requires StatsReport(rows, userId, stats)
    ensures |stats| == |UserRows(rows, userId)|
    ensures forall m, n :: 0 <= m < n < |stats| ==> stats[m].createdAt <= stats[n].createdAt
    ensures forall m :: 0 <= m < |stats| ==>
      stats[m].limit == Limit &&
      stats[m].remaining == (if stats[m].isActive then Limit - stats[m].sentToday else 0)
  {
    var accounts := AccountsByCreated(rows, userId);
    assert |multiset(accounts)| == |multiset(UserRows(rows, userId))|;
    forall m, n | 0 <= m < n < |stats| ensures stats[m].createdAt <= stats[n].createdAt {
      assert stats[m].createdAt == accounts[m].createdAt && stats[n].createdAt == accounts[n].createdAt;
    }
  }

  /** Every account of the user, active or inactive, has an entry in the report. */
  lemma StatsCoverUser(rows: seq<Account>, userId: int, stats: seq<AccountStat>, i: int)
    requires StatsReport(rows, userId, stats)
    requires 0 <= i < |rows| && rows[i].userId == userId
    ensures StatOf(rows[i]) in stats
  {
    UserRowsComplete(rows, userId, i);
    var accounts := AccountsByCreated(rows, userId);
    assert rows[i] in multiset(accounts);
    var m :| 0 <= m < |accounts| && accounts[m] == rows[i];
    assert stats[m] == StatOf(rows[i]);
  }

  /** Every entry of the report describes an account of the user. */
  lemma StatsOnlyUser(rows: seq<Account>, userId: int, stats: seq<AccountStat>, m: int)
    requires StatsReport(rows, userId, stats)
    requires 0 <= m < |stats|
    ensures exists i :: 0 <= i < |rows| && rows[i].userId == userId && stats[m] == StatOf(rows[i])
  {
    var accounts := AccountsByCreated(rows, userId);
    var a := accounts[m];
    assert a in multiset(UserRows(rows, userId));
    UserRowsSound(rows, userId, a);
    var i :| 0 <= i < |rows| && rows[i] == a;
    var u := UserRows(rows, userId);
    var k :| 0 <= k < |u| && u[k] == a;
  }

  // ---------------------------------------------------------------------
  // Default CC/BCC lookup (app.py:382-394)
  // ---------------------------------------------------------------------

  /** The row filter `user_id = %s AND email = %s`, optionally `AND is_active = TRUE`. */
  predicate Matches(a: Account, userId: int, email: string, activeOnly: bool) {
    a.userId == userId && a.email == email && (a.isActive || !activeOnly)
  }

  /** `fetchone()`: the first matching row, if any. */
  function FindAccount(rows: seq<Account>, userId: int, email: string, activeOnly: bool): (r: Option<nat>)
    ensures r.Some? ==> r.value < |rows| && Matches(rows[r.value], userId, email, activeOnly)
    ensures r.Some? ==> forall j :: 0 <= j < r.value ==> !Matches(rows[j], userId, email, activeOnly)
    ensures r.None? <==> forall j :: 0 <= j < |rows| ==> !Matches(rows[j], userId, email, activeOnly)
    decreases |rows|
  {
    if rows == [] then None
    else if Matches(rows[0], userId, email, activeOnly) then Some(0)
    else match FindAccount(rows[1..], userId, email, activeOnly)
      case None => None
      case Some(k) => Some(k + 1)
  }

  /** With unique keys the first match is the only one. */
  lemma FindUnique(rows: seq<Account>, userId: int, email: string, activeOnly: bool, i: int)
    requires UniqueKeys(rows)
    requires 0 <= i < |rows| && Matches(rows[i], userId, email, activeOnly)
    ensures FindAccount(rows, userId, email, activeOnly) == Some(i)
  {
  }

  datatype CcBccDefaults = CcBccDefaults(cc: string, bcc: string)

  /** `get_account_default_cc_bcc`: the active account's defaults, `NULL` read as empty; empty when there is no such account. */
  function DefaultCcBcc(rows: seq<Account>, userId: int, email: string): CcBccDefaults {
    match FindAccount(rows, userId, email, true)
    case None => CcBccDefaults("", "")
    case Some(i) => CcBccDefaults(OrEmpty(rows[i].defaultCc), OrEmpty(rows[i].defaultBcc))
  }

  /** The defaults of an active account are the ones it stores. */
  lemma DefaultCcBccOfAccount(rows: seq<Account>, i: int)
    requires UniqueKeys(rows) && 0 <= i < |rows| && rows[i].isActive
    ensures DefaultCcBcc(rows, rows[i].userId, rows[i].email) ==
      CcBccDefaults(OrEmpty(rows[i].defaultCc), OrEmpty(rows[i].defaultBcc))
  {
    FindUnique(rows, rows[i].userId, rows[i].email, true, i);
  }

  /** An unknown or inactive account contributes no defaults. */
  lemma DefaultCcBccMissing(rows: seq<Account>, userId: int, email: string)
    requires forall j :: 0 <= j < |rows| ==> !Matches(rows[j], userId, email, true)
    ensures DefaultCcBcc(rows, userId, email) == CcBccDefaults("", "")
  {
  }

  // ---------------------------------------------------------------------
  // Sent-count update after a delivered message (app.py:731-746)
  // ---------------------------------------------------------------------

  /** `UPDATE … SET sent_count = sent_count + 1 WHERE email = %s AND user_id = %s`. */
  function IncrementRows(rows: seq<Account>, userId: int, email: string): (r: seq<Account>)
    ensures |r| == |rows|
  {
    seq(|rows|, i requires 0 <= i < |rows| =>
      if Matches(rows[i], userId, email, false) then rows[i].(sentCount := rows[i].sentCount + 1) else rows[i])
  }

  /** The sum of all daily counters. */
  function TotalSent(rows: seq<Account>): nat
    decreases |rows|
  {
    if rows == [] then 0 else rows[0].sentCount + TotalSent(rows[1..])
  }

  /** The update touches exactly the sender's row, adding one; every other row stays as it was. */
  lemma IncrementExactlyOne(rows: seq<Account>, i: int)
    requires UniqueKeys(rows) && 0 <= i < |rows|
    ensures IncrementRows(rows, rows[i].userId, rows[i].email)[i] == rows[i].(sentCount := rows[i].sentCount + 1)
    ensures forall j :: 0 <= j < |rows| && j != i ==> IncrementRows(rows, rows[i].userId, rows[i].email)[j] == rows[j]
    ensures SameAccounts(rows, IncrementRows(rows, rows[i].userId, rows[i].email))
  {
  }

  /** Summed over the table, a delivered message counts exactly once. */
  lemma {:induction false} IncrementAddsOne(rows: seq<Account>, i: int)
    requires UniqueKeys(rows) && 0 <= i < |rows|
    ensures TotalSent(IncrementRows(rows, rows[i].userId, rows[i].email)) == TotalSent(rows) + 1
    decreases |rows|
  {
    var u, e := rows[i].userId, rows[i].email;
    var r := IncrementRows(rows, u, e);
    assert r[1..] == IncrementRows(rows[1..], u, e);
    if i == 0 {
      assert forall j :: 0 <= j < |rows[1..]| ==> !Matches(rows[1..][j], u, e, false) by {
        forall j | 0 <= j < |rows[1..]| ensures !Matches(rows[1..][j], u, e, false) {
          assert rows[1..][j] == rows[j + 1];
        }
      }
      IncrementNowhere(rows[1..], u, e);
    } else {
      assert !Matches(rows[0], u, e, false);
      assert rows[1..][i - 1] == rows[i];
      IncrementAddsOne(rows[1..], i - 1);
    }
  }

  /** A message from an address the user does not own changes no counter. */
  lemma IncrementNowhere(rows: seq<Account>, userId: int, email: string)
    requires forall j :: 0 <= j < |rows| ==> !Matches(rows[j], userId, email, false)
    ensures IncrementRows(rows, userId, email) == rows
  {
  }

  /** What the transport reported: delivery, or the text of the exception raised. */
  datatype Outcome = Delivered | Failed(error: string)

  /** The pair `send_email_smtp` returns. */
  datatype SendReport = SendReport(ok: bool, message: string)

  // ---------------------------------------------------------------------
  // Manual-mode pre-check in `send_emails` (app.py:1102-1135)
  // ---------------------------------------------------------------------

  datatype SenderMode = Auto | Manual

  /** The verdicts of the pre-check; each rejection is one of the flashed messages. */
  datatype Preflight =
    | Proceed
    | NoSenderSelected
    | SenderNotConfigured(email: string)
    | NoAccounts
    | DailyLimitReached(email: string)

  /** An empty selection counts as no selection. */
  function Selection(selected: Option<string>): (r: Option<string>)
    ensures r.Some? ==> r.value != "" && selected == r
    ensures r.None? ==> selected == None || selected == Some("")
  {
    if selected == Some("") then None else selected
  }

  /**
   * The checks in order: a manual send needs a selected, active account; the
   * user needs some active account; a manual sender is then refused only once
   * its counter, after the daily reset, has reached the limit.
   */
  function PreflightCheck(rows: seq<Account>, userId: int, mode: SenderMode, selected: Option<string>, today: int): Preflight {
    var sel := Selection(selected);
    if mode == Manual && sel.None? then NoSenderSelected
    else if mode == Manual && FindAccount(rows, userId, sel.value, true).None? then SenderNotConfigured(sel.value)
    else if NoActive(rows, userId) then NoAccounts
    else if mode == Manual then
      var after := ResetRows(rows, userId, today);
      var found := FindAccount(after, userId, sel.value, false);
      if found.Some? && after[found.value].sentCount >= Limit then DailyLimitReached(sel.value) else Proceed
    else Proceed
  }

  /**
   * In manual mode with an active selected account, the send goes ahead
   * exactly when that account's counter after the reset is under the limit;
   * the size of the batch plays no part.
   */
  lemma ManualProceedsIff(rows: seq<Account>, userId: int, i: int, today: int)
    requires UniqueKeys(rows) && 0 <= i < |rows|
    requires rows[i].userId == userId && rows[i].isActive && rows[i].email != ""
    ensures PreflightCheck(rows, userId, Manual, Some(rows[i].email), today) == Proceed <==>
      ResetRow(rows[i], userId, today).sentCount < Limit
    ensures PreflightCheck(rows, userId, Manual, Some(rows[i].email), today) == DailyLimitReached(rows[i].email) <==>
      ResetRow(rows[i], userId, today).sentCount >= Limit
  {
    var e := rows[i].email;
    FindUnique(rows, userId, e, true, i);
    var after := ResetRows(rows, userId, today);
    ResetEffect(rows, userId, today);
    SameAccountsKeepKeys(rows, after);
    FindUnique(after, userId, e, false, i);
    assert !NoActive(rows, userId) by {
      assert ActiveFor(rows[i], userId);
    }
  }

  /** A manual selection of an address that is not an active account of the user is refused. */
  lemma ManualUnknownRefused(rows: seq<Account>, userId: int, email: string, today: int)
    requires email != ""
    requires forall j :: 0 <= j < |rows| ==> !Matches(rows[j], userId, email, true)
    ensures PreflightCheck(rows, userId, Manual, Some(email), today) == SenderNotConfigured(email)
  {
  }

  /** On a new day a manual send from any active account goes ahead. */
  lemma ManualNewDayProceeds(rows: seq<Account>, userId: int, i: int, today: int)
    requires UniqueKeys(rows) && 0 <= i < |rows|
    requires rows[i].userId == userId && rows[i].isActive && rows[i].email != ""
    requires rows[i].lastReset < today
    ensures PreflightCheck(rows, userId, Manual, Some(rows[i].email), today) == Proceed
  {
    ManualProceedsIff(rows, userId, i, today);
  }

  /** An automatic send goes ahead exactly when the user has an active account. */
  lemma AutoProceedsIff(rows: seq<Account>, userId: int, selected: Option<string>, today: int)
    ensures PreflightCheck(rows, userId, Auto, selected, today) == Proceed <==> !NoActive(rows, userId)
    ensures PreflightCheck(rows, userId, Auto, selected, today) != Proceed ==>
      PreflightCheck(rows, userId, Auto, selected, today) == NoAccounts
  {
  }

  /** An automatic send that passes the pre-check always finds a sender after the reset. */
  lemma AutoProceedFindsSender(rows: seq<Account>, userId: int, selected: Option<string>, today: int, r: Option<Sender>)
    requires PreflightCheck(rows, userId, Auto, selected, today) == Proceed
    requires ValidChoice(ResetRows(rows, userId, today), userId, r)
    ensures r.Some?
  {
    var i :| 0 <= i < |rows| && ActiveFor(rows[i], userId);
    assert ActiveFor(ResetRows(rows, userId, today)[i], userId);
  }

  /** How a run of the pre-check ends: an exception, or a verdict. */
  datatype CheckRun = Raised | Completed(verdict: Preflight)

  /**
   * The pre-check as written. Its existence query compares the BOOLEAN
   * `is_active` with the integer `1`, which PostgreSQL refuses, so a manual
   * send with a selected sender raises there before reaching any verdict;
   * every other request runs the checks as intended.
   */
  function PreflightCheckAsWritten(rows: seq<Account>, userId: int, mode: SenderMode, selected: Option<string>, today: int): CheckRun {
    if mode == Manual && Selection(selected).Some? then Raised
    else Completed(PreflightCheck(rows, userId, mode, selected, today))
  }

  /**
   * A manual send that the intended check lets through (an active account of
   * the user, under its quota) fails as written with an exception.
   */
  lemma ManualSendAsWrittenRaises(rows: seq<Account>, userId: int, i: int, today: int)
    requires UniqueKeys(rows) && 0 <= i < |rows|
    requires rows[i].userId == userId && rows[i].isActive && rows[i].email != ""
    requires ResetRow(rows[i], userId, today).sentCount < Limit
    ensures PreflightCheck(rows, userId, Manual, Some(rows[i].email), today) == Proceed
    ensures PreflightCheckAsWritten(rows, userId, Manual, Some(rows[i].email), today) == Raised
  {
    ManualProceedsIff(rows, userId, i, today);
  }

  /** Outside manual sends with a selection, the written check and the intended one agree. */
  lemma AsWrittenAgreesOtherwise(rows: seq<Account>, userId: int, mode: SenderMode, selected: Option<string>, today: int)
    requires mode == Auto || Selection(selected).None?
    ensures PreflightCheckAsWritten(rows, userId, mode, selected, today) ==
      Completed(PreflightCheck(rows, userId, mode, selected, today))
  {
  }

  // ---------------------------------------------------------------------
  // The table itself
  // ---------------------------------------------------------------------

  /** The `email_accounts` table, updated in place by the operations above. */
  class AccountTable {
    var rows: seq<Account>

    ghost predicate Valid()
      reads this
    {
      UniqueKeys(rows)
    }

    constructor (initial: seq<Account>)
      requires UniqueKeys(initial)
      ensures Valid() && rows == initial
    {
      rows := initial;
    }

    /** `reset_daily_counts(user_id)` on the day `today`. */
    method ResetDailyCounts(userId: int, today: int)
      requires Valid()
      modifies this
      ensures Valid()
      ensures rows == ResetRows(old(rows), userId, today)
    {
      ResetEffect(rows, userId, today);
      SameAccountsKeepKeys(rows, ResetRows(rows, userId, today));
      rows := ResetRows(rows, userId, today);
    }

    /** `get_available_sender(user_id)`: the reset, then the two-stage query. */
    method GetAvailableSender(userId: int, today: int) returns (r: Option<Sender>)
      requires Valid()
      modifies this
      ensures Valid()
      ensures rows == ResetRows(old(rows), userId, today)
      ensures ValidChoice(rows, userId, r)
    {
      ResetDailyCounts(userId, today);
      r := SelectSender(rows, userId);
    }

    /** `get_account_stats(user_id)`: the reset, then one entry per account of the user. */
    method GetAccountStats(userId: int, today: int) returns (stats: seq<AccountStat>)
      requires Valid()
      modifies this
      ensures Valid()
      ensures rows == ResetRows(old(rows), userId, today)
      ensures StatsReport(rows, userId, stats)
    {
      ResetDailyCounts(userId, today);
      stats := StatsFor(rows, userId);
    }

    /** The default CC/BCC lookup over the current rows. */
    function DefaultsFor(userId: int, email: string): (r: CcBccDefaults)
      requires Valid()
      reads this
      ensures forall i :: 0 <= i < |rows| && Matches(rows[i], userId, email, true) ==>
        r == CcBccDefaults(OrEmpty(rows[i].defaultCc), OrEmpty(rows[i].defaultBcc))
      ensures (forall j :: 0 <= j < |rows| ==> !Matches(rows[j], userId, email, true)) ==> r == CcBccDefaults("", "")
    {
      DefaultCcBcc(rows, userId, email)
    }

    /** The tail of `send_email_smtp`: a delivered message is counted, a failed one is not. */
    method CompleteSend(userId: int, senderEmail: string, outcome: Outcome) returns (report: SendReport)
      requires Valid()
      modifies this
      ensures Valid()
      ensures outcome == Delivered ==>
        rows == IncrementRows(old(rows), userId, senderEmail) && report == SendReport(true, "Email sent successfully")
      ensures outcome == Delivered ==>
        forall i :: 0 <= i < |old(rows)| && Matches(old(rows)[i], userId, senderEmail, false) ==>
          TotalSent(rows) == TotalSent(old(rows)) + 1 &&
          forall j :: 0 <= j < |rows| && j != i ==> rows[j] == old(rows)[j]
      ensures outcome.Failed? ==> rows == old(rows) && report == SendReport(false, outcome.error)
    {
      if outcome == Delivered {
        var next := IncrementRows(rows, userId, senderEmail);
        forall i | 0 <= i < |rows| && Matches(rows[i], userId, senderEmail, false)
          ensures TotalSent(next) == TotalSent(rows) + 1
          ensures forall j :: 0 <= j < |next| && j != i ==> next[j] == rows[j]
        {
          IncrementExactlyOne(rows, i);
          IncrementAddsOne(rows, i);
        }
        assert SameAccounts(rows, next);
        SameAccountsKeepKeys(rows, next);
        rows := next;
        report := SendReport(true, "Email sent successfully");
      } else {
        report := SendReport(false, outcome.error);
      }
    }

    /** The pre-check of `send_emails`; the reset runs only when a manual send reaches the quota test. */
    method ValidateSendRequest(userId: int, mode: SenderMode, selected: Option<string>, today: int)
      returns (verdict: Preflight)
      requires Valid()
      modifies this
      ensures Valid()
      ensures verdict == PreflightCheck(old(rows), userId, mode, selected, today)
      ensures rows == (if mode == Manual && (verdict == Proceed || verdict.DailyLimitReached?)
                       then ResetRows(old(rows), userId, today) else old(rows))
    {
      var sel := Selection(selected);
      if mode == Manual {
        if sel.None? {
          return NoSenderSelected;
        }
        if FindAccount(rows, userId, sel.value, true).None? {
          return SenderNotConfigured(sel.value);
        }
      }
      var none := NoActiveScan(rows, userId);
      if none {
        return NoAccounts;
      }
      if mode == Manual {
        ResetDailyCounts(userId, today);
        var found := FindAccount(rows, userId, sel.value, false);
        if found.Some? && rows[found.value].sentCount >= Limit {
          return DailyLimitReached(sel.value);
        }
      }
      return Proceed;
    }
  }

  /** `get_email_accounts(user_id)` is empty: a scan for an active account of the user. */
  method NoActiveScan(rows: seq<Account>, userId: int) returns (none: bool)
    ensures none <==> NoActive(rows, userId)
  {
    var i := 0;
    while i < |rows|
      invariant 0 <= i <= |rows|
      invariant forall j :: 0 <= j < i ==> !ActiveFor(rows[j], userId)
    {
      if ActiveFor(rows[i], userId) {
        return false;
      }
      i := i + 1;
    }
    return true;
  }
}
