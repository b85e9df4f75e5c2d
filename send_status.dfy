/**
 * The per-user progress record of a bulk send (app.py:216-237): a global
 * dictionary from user id to status, filled on first access with a fixed
 * initial record.
 */
module SendStatus {
  import opened Options

  /** One user's progress record; `start_time` is an integer timestamp. */
  datatype Status = Status(
    isSending: bool,
    totalEmails: int,
    sentCount: int,
    failedCount: int,
    currentEmail: string,
    currentSender: string,
    senderRotation: map<string, int>,
    startTime: Option<int>,
    failedEmails: seq<string>,
    successEmails: seq<string>,
    attachmentName: Option<string>,
    ccEmails: seq<string>,
    bccEmails: seq<string>)

  /** The record created for a user seen for the first time: idle, nothing counted, nothing listed. */
  const Initial: Status := Status(false, 0, 0, 0, "", "", map[], None, [], [], None, [], [])

  /** The dictionary after `get_user_email_status(userId)`. */
  function WithUser(entries: map<int, Status>, userId: int): (r: map<int, Status>)
    ensures userId in r
    ensures r.Keys == entries.Keys + {userId}
    ensures forall u :: u in entries ==> u in r && r[u] == entries[u]
    ensures userId !in entries ==> r[userId] == Initial
  {
    if userId in entries then entries else entries[userId := Initial]
  }

  /** Asking twice is asking once: the second call neither changes the map nor the answer. */
  lemma WithUserIdempotent(entries: map<int, Status>, userId: int)
    ensures WithUser(WithUser(entries, userId), userId) == WithUser(entries, userId)
  {
  }

  /** Asking for one user never touches another user's record. */
  lemma WithUserKeepsOthers(entries: map<int, Status>, userId: int, other: int)
    requires other != userId
    ensures other in WithUser(entries, userId) <==> other in entries
    ensures other in entries ==> WithUser(entries, userId)[other] == entries[other]
  {
  }

  /** The global `email_status` dictionary. */
  class StatusBoard {
    var entries: map<int, Status>

    constructor ()
      ensures entries == map[]
    {
      entries := map[];
    }

    /** `get_user_email_status(user_id)`: the user's record, created on first access. */
    method GetUserEmailStatus(userId: int) returns (s: Status)
      modifies this
      ensures entries == WithUser(old(entries), userId)
      ensures s == entries[userId]
      ensures userId in old(entries) ==> s == old(entries)[userId]
      ensures userId !in old(entries) ==> s == Initial
    {
      if userId !in entries {
        entries := entries[userId := Initial];
      }
      s := entries[userId];
    }
  }
}
