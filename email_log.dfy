/**
 * The rows `save_email_log` writes for one finished batch (app.py:477-528):
 * a header row, one `success` row per delivered recipient and one `failed`
 * row per failure entry of the form `recipient: error`.
 */
module EmailLog {
  import opened Options
  import opened Text
  import opened Addresses

  /** The keys of `log_data` that are read; a missing key is `None`. */
  datatype LogData = LogData(
    senderEmail: Option<string>,
    senderMode: Option<string>,
    totalEmails: Option<int>,
    sentCount: Option<int>,
    failedCount: Option<int>,
    subject: Option<string>,
    ccEmails: Option<seq<string>>,
    bccEmails: Option<seq<string>>,
    attachmentName: Option<string>,
    successEmails: Option<seq<string>>,
    failedEmails: Option<seq<string>>)

  /** `dict.get(key, default)`. */
  function GetOr<T>(o: Option<T>, default: T): T {
    if o.Some? then o.value else default
  }

  /** The `email_logs` row, without the floating-point duration and the JSON copy of `log_data`. */
  datatype LogHeader = LogHeader(
    userId: int,
    logFilename: string,
    senderEmail: Option<string>,
    senderMode: string,
    totalEmails: int,
    sentCount: int,
    failedCount: int,
    subject: string,
    ccEmails: string,
    bccEmails: string,
    attachmentName: string)

  /** The values inserted into `email_logs`; CC and BCC lists are stored joined by `", "`. */
  function Header(userId: int, logFilename: string, d: LogData): LogHeader {
    LogHeader(userId, logFilename, d.senderEmail, GetOr(d.senderMode, "auto"),
              GetOr(d.totalEmails, 0), GetOr(d.sentCount, 0), GetOr(d.failedCount, 0),
              GetOr(d.subject, ""), Join(GetOr(d.ccEmails, []), ", "), Join(GetOr(d.bccEmails, []), ", "),
              GetOr(d.attachmentName, ""))
  }

  /**
   * The stored CC and BCC text reads back, through `parse_email_list`, as the
   * lists the batch used, whenever those were parsed lists themselves.
   */
  lemma HeaderListsRoundTrip(userId: int, logFilename: string, d: LogData)
    requires forall e :: e in GetOr(d.ccEmails, []) ==> Clean(e)
    requires forall e :: e in GetOr(d.bccEmails, []) ==> Clean(e)
    ensures ParseEmailList(Header(userId, logFilename, d).ccEmails) == GetOr(d.ccEmails, [])
    ensures ParseEmailList(Header(userId, logFilename, d).bccEmails) == GetOr(d.bccEmails, [])
  {
    ParseJoinRoundTrip(GetOr(d.ccEmails, []));
    ParseJoinRoundTrip(GetOr(d.bccEmails, []));
  }

  /** One `email_status` row. */
  datatype StatusRow = StatusRow(logId: int, recipient: string, sender: Option<string>, status: string, error: Option<string>)

  /** `s.split(':', 1)` when `':' in s`: the text before the first colon and the rest. */
  function SplitAtColon(s: string): (r: Option<(string, string)>)
    ensures r.None? <==> ':' !in s
    ensures r.Some? ==> ':' !in r.value.0 && s == r.value.0 + ":" + r.value.1
    decreases |s|
  {
    if s == [] then None
    else if s[0] == ':' then Some(("", s[1..]))
    else match SplitAtColon(s[1..])
      case None => None
      case Some(p) => Some(([s[0]] + p.0, p.1))
  }

  /** The row a failure entry gives, if it has a colon: both halves trimmed. */
  function FailedRow(logId: int, sender: Option<string>, entry: string): Option<StatusRow> {
    match SplitAtColon(entry)
    case None => None
    case Some(p) => Some(StatusRow(logId, Strip(p.0), sender, "failed", Some(Strip(p.1))))
  }

  /** An entry gives a row exactly when it has a colon; the row's recipient is trimmed and colon-free. */
  lemma FailedRowShape(logId: int, sender: Option<string>, entry: string)
    ensures FailedRow(logId, sender, entry).None? <==> ':' !in entry
    ensures var r := FailedRow(logId, sender, entry);
      r.Some? ==>
        r.value.status == "failed" && r.value.logId == logId && r.value.sender == sender &&
        r.value.error.Some? && ':' !in r.value.recipient &&
        Strip(r.value.recipient) == r.value.recipient && Strip(r.value.error.value) == r.value.error.value
  {
    var split := SplitAtColon(entry);
    if split.Some? {
      StripKeepsAbsent(split.value.0, ':');
      StripIdempotent(split.value.0);
      StripIdempotent(split.value.1);
    }
  }

  /** The rows a single entry contributes: one when it has a colon, none otherwise. */
  function EntryRows(logId: int, sender: Option<string>, entry: string): seq<StatusRow> {
    var row := FailedRow(logId, sender, entry);
    if row.Some? then [row.value] else []
  }

  /** The pieces `f` gives for each element, one after another. */
  function FlatMap<T, U>(f: T -> seq<U>, xs: seq<T>): seq<U>
    decreases |xs|
  {
    if xs == [] then [] else f(xs[0]) + FlatMap(f, xs[1..])
  }

  /** The pieces of a concatenation are the pieces of its parts. */
  lemma {:induction false} FlatMapAppend<T, U>(f: T -> seq<U>, a: seq<T>, b: seq<T>)
    ensures FlatMap(f, a + b) == FlatMap(f, a) + FlatMap(f, b)
    decreases |a|
  {
    if a == [] {
      assert a + b == b;
    } else {
      assert (a + b)[0] == a[0] && (a + b)[1..] == a[1..] + b;
      FlatMapAppend(f, a[1..], b);
    }
  }

  /** A single element gives exactly its own piece. */
  lemma FlatMapOne<T, U>(f: T -> seq<U>, x: T)
    ensures FlatMap(f, [x]) == f(x)
  {
    assert [x][1..] == [];
  }

  /** The failed rows for a list of entries, in order, skipping entries without a colon. */
  function FailedRows(logId: int, sender: Option<string>, entries: seq<string>): seq<StatusRow> {
    FlatMap(e => EntryRows(logId, sender, e), entries)
  }

  /** The rows of a list of entries are the rows of its parts, in order. */
  lemma FailedRowsAppend(logId: int, sender: Option<string>, a: seq<string>, b: seq<string>)
    ensures FailedRows(logId, sender, a + b) == FailedRows(logId, sender, a) + FailedRows(logId, sender, b)
  {
    FlatMapAppend(e => EntryRows(logId, sender, e), a, b);
  }

  /** A single entry gives exactly its own rows. */
  lemma FailedRowsOne(logId: int, sender: Option<string>, entry: string)
    ensures FailedRows(logId, sender, [entry]) == EntryRows(logId, sender, entry)
  {
    FlatMapOne(e => EntryRows(logId, sender, e), entry);
  }

  /** Entries without a colon are dropped silently. */
  lemma {:induction false} FailedRowsSkipNoColon(logId: int, sender: Option<string>, entries: seq<string>)
    requires forall k :: 0 <= k < |entries| ==> ':' !in entries[k]
    ensures FailedRows(logId, sender, entries) == []
    decreases |entries|
  {
    if entries != [] {
      FailedRowsSkipNoColon(logId, sender, entries[1..]);
    }
  }

  /** Every failed row has a trimmed, colon-free recipient and a trimmed error. */
  lemma {:induction false} FailedRowsShape(logId: int, sender: Option<string>, entries: seq<string>)
    ensures forall r :: r in FailedRows(logId, sender, entries) ==>
      r.status == "failed" && r.logId == logId && r.sender == sender && r.error.Some? &&
      ':' !in r.recipient && Strip(r.recipient) == r.recipient && Strip(r.error.value) == r.error.value
    ensures |FailedRows(logId, sender, entries)| <= |entries|
    decreases |entries|
  {
    if entries != [] {
      FailedRowShape(logId, sender, entries[0]);
      FailedRowsShape(logId, sender, entries[1..]);
    }
  }

  /** The first colon of `a + ":" + b`, when `a` has none, is the one after `a`. */
  lemma {:induction false} SplitAtColonAfter(a: string, b: string)
    requires ':' !in a
    ensures SplitAtColon(a + ":" + b) == Some((a, b))
    decreases |a|
  {
    var s := a + ":" + b;
    if a == [] {
      assert s == [':'] + b;
    } else {
      assert s[1..] == a[1..] + ":" + b;
      SplitAtColonAfter(a[1..], b);
      assert [a[0]] + a[1..] == a;
    }
  }

  /**
   * An entry shaped `recipient + ": " + error` is taken apart again: the
   * recipient up to the first colon, the error after it, both as given.
   */
  lemma FailureEntryRoundTrip(logId: int, sender: Option<string>, recipient: string, error: string)
    requires ':' !in recipient && Strip(recipient) == recipient && Strip(error) == error
    ensures FailedRow(logId, sender, recipient + ": " + error) ==
      Some(StatusRow(logId, recipient, sender, "failed", Some(error)))
  {
    assert recipient + ": " + error == recipient + ":" + (" " + error);
    SplitAtColonAfter(recipient, " " + error);
    if error == [] {
      assert " " + error == " ";
      assert Strip(" ") == "";
    } else {
      StripAfterSpaces(" ", error);
    }
  }

  /** The `success` row for one delivered recipient. */
  function SuccessRow(logId: int, sender: Option<string>, recipient: string): StatusRow {
    StatusRow(logId, recipient, sender, "success", None)
  }

  /** The two loops of `save_email_log` that insert `email_status` rows. */
  method StatusRows(logId: int, d: LogData) returns (rows: seq<StatusRow>)
    ensures var successes := GetOr(d.successEmails, []);
      |rows| >= |successes| &&
      (forall k :: 0 <= k < |successes| ==> rows[k] == SuccessRow(logId, d.senderEmail, successes[k])) &&
      rows[|successes|..] == FailedRows(logId, d.senderEmail, GetOr(d.failedEmails, []))
  {
    var successes := GetOr(d.successEmails, []);
    var failures := GetOr(d.failedEmails, []);
    rows := [];
    var k := 0;
    while k < |successes|
      invariant 0 <= k <= |successes| && |rows| == k
      invariant forall m :: 0 <= m < k ==> rows[m] == SuccessRow(logId, d.senderEmail, successes[m])
    {
      rows := rows + [SuccessRow(logId, d.senderEmail, successes[k])];
      k := k + 1;
    }
    ghost var head := rows;
    k := 0;
    while k < |failures|
      invariant 0 <= k <= |failures|
      invariant rows == head + FailedRows(logId, d.senderEmail, failures[..k])
    {
      var entry := failures[k];
      FailedRowsAppend(logId, d.senderEmail, failures[..k], [entry]);
      FailedRowsOne(logId, d.senderEmail, entry);
      assert failures[..k + 1] == failures[..k] + [entry];
      var split := SplitAtColon(entry);
      if split.Some? {
        var row := StatusRow(logId, Strip(split.value.0), d.senderEmail, "failed", Some(Strip(split.value.1)));
        rows := rows + [row];
      }
      k := k + 1;
    }
    assert failures[..k] == failures;
  }
}
