/**
 * The one-time codes of the password-reset flow (app.py:185-194, 753-794):
 * saving a code replaces every earlier code for the address and makes it
 * valid for ten minutes; verifying takes the newest unused matching code,
 * refuses it once expired and otherwise spends it.
 */
module PasswordReset {
  import opened Options

  /** Ten minutes, in seconds. */
  const Lifetime: int := 600

  /** One row of `password_reset_otp`; timestamps are integers. */
  datatype OtpRow = OtpRow(id: int, email: string, code: string, createdAt: int, expiresAt: int, used: bool)

  /** The pair `verify_otp` returns. */
  datatype Verdict = Verdict(ok: bool, message: string)

  const Invalid: Verdict := Verdict(false, "Invalid OTP")
  const Expired: Verdict := Verdict(false, "OTP has expired")
  const Verified: Verdict := Verdict(true, "OTP verified successfully")

  /** `DELETE FROM password_reset_otp WHERE email = %s`: the rows of other addresses, in order. */
  function Others(rows: seq<OtpRow>, email: string): (r: seq<OtpRow>)
    ensures |r| <= |rows|
    ensures forall k :: 0 <= k < |r| ==> r[k].email != email
    decreases |rows|
  {
    if rows == [] then []
    else
      var last := rows[|rows| - 1];
      Others(rows[..|rows| - 1], email) + (if last.email != email then [last] else [])
  }

  /** Deleting by address keeps every row of another address. */
  lemma {:induction false} OthersKeeps(rows: seq<OtpRow>, email: string, i: int)
    requires 0 <= i < |rows| && rows[i].email != email
    ensures rows[i] in Others(rows, email)
    decreases |rows|
  {
    if i < |rows| - 1 {
      OthersKeeps(rows[..|rows| - 1], email, i);
    }
  }

  /** Deleting by address keeps nothing it did not have. */
  lemma {:induction false} OthersFrom(rows: seq<OtpRow>, email: string, x: OtpRow)
    requires x in Others(rows, email)
    ensures x in rows
    decreases |rows|
  {
    if rows != [] && x != rows[|rows| - 1] {
      OthersFrom(rows[..|rows| - 1], email, x);
      assert x in rows[..|rows| - 1];
    }
  }

  /** The table after `save_otp(email, code)` at time `now`, the new row getting id `id`. */
  function SaveRows(rows: seq<OtpRow>, id: int, email: string, code: string, now: int): seq<OtpRow> {
    Others(rows, email) + [OtpRow(id, email, code, now, now + Lifetime, false)]
  }

  /** After saving, the address has exactly one code: the new, unused one, expiring ten minutes on. */
  lemma SaveLeavesOne(rows: seq<OtpRow>, id: int, email: string, code: string, now: int)
    ensures var r := SaveRows(rows, id, email, code, now);
      |r| >= 1 && r[|r| - 1] == OtpRow(id, email, code, now, now + Lifetime, false) &&
      forall k :: 0 <= k < |r| ==> (r[k].email == email <==> k == |r| - 1)
  {
  }

  /** Saving for one address leaves the codes of every other address alone. */
  lemma SaveKeepsOthers(rows: seq<OtpRow>, id: int, email: string, code: string, now: int, x: OtpRow)
    requires x.email != email
    ensures x in SaveRows(rows, id, email, code, now) <==> x in rows
  {
    var r := SaveRows(rows, id, email, code, now);
    if x in rows {
      var i :| 0 <= i < |rows| && rows[i] == x;
      OthersKeeps(rows, email, i);
    }
    if x in r {
      assert x in Others(rows, email);
      OthersFrom(rows, email, x);
    }
  }

  /** The row `WHERE email = %s AND otp = %s AND used = FALSE` selects. */
  predicate Candidate(row: OtpRow, email: string, code: string) {
    row.email == email && row.code == code && !row.used
  }

  /** `ORDER BY created_at DESC LIMIT 1`: a newest candidate, the later row among equals. */
  function Newest(rows: seq<OtpRow>, email: string, code: string): (r: Option<nat>)
    ensures r.None? <==> forall j :: 0 <= j < |rows| ==> !Candidate(rows[j], email, code)
    ensures r.Some? ==> r.value < |rows| && Candidate(rows[r.value], email, code)
    ensures r.Some? ==> forall j :: 0 <= j < |rows| && Candidate(rows[j], email, code) ==>
      rows[j].createdAt <= rows[r.value].createdAt
    decreases |rows|
  {
    if rows == [] then None
    else
      var n := |rows| - 1;
      var before := Newest(rows[..n], email, code);
      if Candidate(rows[n], email, code) && (before.None? || rows[before.value].createdAt <= rows[n].createdAt)
      then Some(n)
      else before
  }

  /** The verdict and the table after `verify_otp(email, code)` at time `now`. */
  function VerifyRows(rows: seq<OtpRow>, email: string, code: string, now: int): (seq<OtpRow>, Verdict) {
    match Newest(rows, email, code)
    case None => (rows, Invalid)
    case Some(i) =>
      if now > rows[i].expiresAt then (rows, Expired)
      else (rows[i := rows[i].(used := true)], Verified)
  }

  /**
   * The three outcomes: no unused match is invalid; the newest unused match,
   * once past its expiry, is expired; otherwise that newest match is spent and
   * nothing else changes.
   */
  lemma VerifyOutcomes(rows: seq<OtpRow>, email: string, code: string, now: int)
    ensures var n := Newest(rows, email, code);
      var (after, v) := VerifyRows(rows, email, code, now);
      (v == Invalid <==> forall j :: 0 <= j < |rows| ==> !Candidate(rows[j], email, code)) &&
      (v == Expired <==> n.Some? && now > rows[n.value].expiresAt) &&
      (v != Verified ==> after == rows) &&
      (v == Verified ==>
         n.Some? && Candidate(rows[n.value], email, code) && now <= rows[n.value].expiresAt &&
         after == rows[n.value := rows[n.value].(used := true)] &&
         forall j :: 0 <= j < |rows| && Candidate(rows[j], email, code) ==> rows[j].createdAt <= rows[n.value].createdAt)
  {
  }

  /** A code saved at `now` is accepted up to ten minutes later, and then once only. */
  lemma SaveThenVerify(rows: seq<OtpRow>, id: int, email: string, code: string, now: int, t: int)
    requires now <= t <= now + Lifetime
    ensures var (after, v) := VerifyRows(SaveRows(rows, id, email, code, now), email, code, t);
      v == Verified && VerifyRows(after, email, code, t).1 == Invalid
  {
    var saved := SaveRows(rows, id, email, code, now);
    SaveLeavesOne(rows, id, email, code, now);
    var n := |saved| - 1;
    assert Newest(saved, email, code) == Some(n);
    var after := saved[n := saved[n].(used := true)];
    assert forall j :: 0 <= j < |after| ==> !Candidate(after[j], email, code);
  }

  /** A code saved at `now` is refused as expired once more than ten minutes have passed. */
  lemma SaveThenExpire(rows: seq<OtpRow>, id: int, email: string, code: string, now: int, t: int)
    requires t > now + Lifetime
    ensures VerifyRows(SaveRows(rows, id, email, code, now), email, code, t) ==
      (SaveRows(rows, id, email, code, now), Expired)
  {
    var saved := SaveRows(rows, id, email, code, now);
    SaveLeavesOne(rows, id, email, code, now);
    assert Newest(saved, email, code) == Some(|saved| - 1);
  }

  /** Saving a new code voids every earlier code for the address. */
  lemma SaveVoidsOtherCodes(rows: seq<OtpRow>, id: int, email: string, code: string, now: int, other: string, t: int)
    requires other != code
    ensures VerifyRows(SaveRows(rows, id, email, code, now), email, other, t).1 == Invalid
  {
    SaveLeavesOne(rows, id, email, code, now);
  }

  /** The `SERIAL` primary key: no two rows share an id. */
  predicate DistinctIds(rows: seq<OtpRow>) {
    forall k, l :: 0 <= k < l < |rows| ==> rows[k].id != rows[l].id
  }

  /** `UPDATE password_reset_otp SET used = TRUE WHERE id = %s`. */
  function MarkUsedById(rows: seq<OtpRow>, id: int): (r: seq<OtpRow>)
    ensures |r| == |rows|
  {
    seq(|rows|, j requires 0 <= j < |rows| => if rows[j].id == id then rows[j].(used := true) else rows[j])
  }

  /** With distinct ids, the update by id spends exactly the selected row. */
  lemma MarkUsedSpendsOne(rows: seq<OtpRow>, i: int)
    requires DistinctIds(rows) && 0 <= i < |rows|
    ensures MarkUsedById(rows, rows[i].id) == rows[i := rows[i].(used := true)]
  {
    var r := MarkUsedById(rows, rows[i].id);
    forall j | 0 <= j < |rows|
      ensures r[j] == rows[i := rows[i].(used := true)][j]
    {
      if j < i {
        assert rows[j].id != rows[i].id;
      } else if j > i {
        assert rows[i].id != rows[j].id;
      }
    }
  }

  /** The `password_reset_otp` table; `nextId` is the `SERIAL` counter. */
  class OtpTable {
    var rows: seq<OtpRow>
    var nextId: int

    ghost predicate Valid()
      reads this
    {
      DistinctIds(rows) && forall k :: 0 <= k < |rows| ==> rows[k].id < nextId
    }

    constructor ()
      ensures Valid() && rows == [] && nextId == 1
    {
      rows := [];
      nextId := 1;
    }

    /** `save_otp(email, code)` at time `now`. */
    method SaveOtp(email: string, code: string, now: int)
      requires Valid()
      modifies this
      ensures Valid()
      ensures rows == SaveRows(old(rows), old(nextId), email, code, now)
      ensures nextId == old(nextId) + 1
    {
      var kept: seq<OtpRow> := [];
      var i := 0;
      while i < |rows|
        invariant 0 <= i <= |rows|
        invariant kept == Others(rows[..i], email)
        invariant forall k :: 0 <= k < |kept| ==> kept[k].id < nextId
        invariant DistinctIds(kept)
      {
        assert rows[..i + 1][..i] == rows[..i];
        if rows[i].email != email {
          forall a | 0 <= a < |kept|
            ensures kept[a].id != rows[i].id
          {
            OthersFrom(rows[..i], email, kept[a]);
            var j :| 0 <= j < i && rows[j] == kept[a];
          }
          kept := kept + [rows[i]];
        }
        i := i + 1;
      }
      assert rows[..i] == rows;
      rows := kept + [OtpRow(nextId, email, code, now, now + Lifetime, false)];
      nextId := nextId + 1;
    }

    /** `verify_otp(email, code)` at time `now`. */
    method VerifyOtp(email: string, code: string, now: int) returns (v: Verdict)
      requires Valid()
      modifies this
      ensures Valid()
      ensures (rows, v) == VerifyRows(old(rows), email, code, now)
      ensures nextId == old(nextId)
    {
      var best: Option<nat> := None;
      var i := 0;
      while i < |rows|
        invariant 0 <= i <= |rows|
        invariant best == Newest(rows[..i], email, code)
      {
        assert rows[..i + 1][..i] == rows[..i];
        if Candidate(rows[i], email, code) && (best.None? || rows[best.value].createdAt <= rows[i].createdAt) {
          best := Some(i);
        }
        i := i + 1;
      }
      assert rows[..i] == rows;
      if best.None? {
        return Invalid;
      }
      var k := best.value;
      if now > rows[k].expiresAt {
        return Expired;
      }
      MarkUsedSpendsOne(rows, k);
      rows := MarkUsedById(rows, rows[k].id);
      return Verified;
    }
  }
}
