/**
 * The request handlers of emails/views.py as methods of one object holding
 * the tables they read and change. Each handler is proved to compute the
 * corresponding function of mailbox.dfy (registration and the read update:
 * of serializers.dfy), and to keep the store consistent.
 */
module Views {
  import opened Wrappers
  import opened Tables
  import opened Serializers
  import opened Mailbox

  class Server {
    var users: seq<Account>
    var emails: seq<Email>
    var inbox: seq<Row>
    var sent: seq<Row>
    var starred: seq<Row>
    var trash: seq<Row>
    var attachments: seq<Attachment>

    /** The tables as one value. */
    function State(): Store
      reads this
    {
      Store(users, emails, inbox, sent, starred, trash, attachments)
    }

    ghost predicate Valid()
      reads this
    {
      Consistent(State())
    }

    /** An empty database. */
    constructor ()
      ensures State() == Store([], [], [], [], [], [], [])
      ensures Valid()
    {
      users, emails := [], [];
      inbox, sent, starred, trash := [], [], [], [];
      attachments := [];
    }

    // -------------------------------------------------------------------------
    // UserRegistration.post
    // -------------------------------------------------------------------------

    /** Registers a user when the payload validates; otherwise reports the serializer's errors and adds nobody. */
    method Register(p: RegistrationPayload, hash: string -> string) returns (r: Result<Account, RegistrationError>)
      requires Valid()
      modifies this
      ensures Valid()
      ensures r.Ok? <==> ValidateRegistration(old(users), p).Ok?
      ensures r.Err? ==> r.error == ValidateRegistration(old(users), p).error && State() == old(State())
      ensures r.Ok? ==>
        && State() == old(State()).(users := old(users) + [r.value])
        && r.value == Account(Trim(p.username.value), Trim(p.firstName.value), Trim(p.lastName.value),
                              Some(hash(Trim(p.password.value))))
    {
      var v := ValidateRegistration(users, p);
      if v.Err? {
        return Err(v.error);
      }
      RegisterEffect(State(), p, hash);
      var a := CreateAccount(v.value, hash).value;
      AddUser(a);
      r := Ok(a);
    }

    /** `instance.save()` of a new user. */
    method AddUser(a: Account)
      requires Valid() && Consistent(State().(users := users + [a]))
      modifies this
      ensures Valid()
      ensures State() == old(State()).(users := old(users) + [a])
    {
      users := users + [a];
    }

    // -------------------------------------------------------------------------
    // UserInbox.post: send
    // -------------------------------------------------------------------------

    /**
     * User `u` sends the email in `p` with `files` attached, the payload's
     * sender replaced by `u`'s username. When the payload validates, the email
     * is stored with the next id, each file gets an attachment row keyed by its
     * entry in `uuids` and is uploaded under that key, and one Inbox row for the
     * receiver and one Sent row for `u` are added. Otherwise nothing changes and
     * the serializer's errors are returned.
     */
    method Send(u: UserId, p: EmailPayload, files: seq<File>, uuids: seq<string>, now: int)
      returns (r: Result<Email, EmailErrors>, uploads: seq<Upload>)
      requires Valid() && u < |users| && |uuids| == |files|
      modifies this
      ensures Valid()
      ensures r == Composed(old(State()), u, p, now)
      ensures r.Err? ==> State() == old(State()) && uploads == []
      ensures r.Ok? ==>
        && State() == Deliver(old(State()), u, r.value, files, uuids)
        && uploads == Uploads(files, uuids)
    {
      r := Composed(State(), u, p, now);
      if r.Err? {
        return r, [];
      }
      uploads := Save(u, r.value, files, uuids);
    }

    /**
     * The successful branch of a send: the email is stored with the next id, then
     * its attachments, then the receiver's Inbox row and `u`'s Sent row.
     */
    method Save(u: UserId, e: Email, files: seq<File>, uuids: seq<string>) returns (uploads: seq<Upload>)
      requires Valid() && u < |users| && e.sender < |users| && e.receiver < |users| && |uuids| == |files|
      modifies this
      ensures Valid()
      ensures State() == Deliver(old(State()), u, e, files, uuids)
      ensures uploads == Uploads(files, uuids)
    {
      DeliverPreservesConsistent(State(), u, e, files, uuids);
      var id := |emails| + 1;
      emails := emails + [e];
      uploads := AttachFiles(files, uuids, id);
      inbox := inbox + [Row(e.receiver, id)];
      sent := sent + [Row(u, id)];
    }

    /** The loop over the uploaded files: one attachment row and one upload per file, in file order. */
    method AttachFiles(files: seq<File>, uuids: seq<string>, id: int) returns (uploads: seq<Upload>)
      requires |uuids| == |files|
      modifies this
      ensures attachments == old(attachments) + AttachmentRows(files, uuids, id)
      ensures uploads == Uploads(files, uuids)
      ensures users == old(users) && emails == old(emails)
      ensures inbox == old(inbox) && sent == old(sent) && starred == old(starred) && trash == old(trash)
    {
      uploads := [];
      var i := 0;
      while i < |files|
        invariant 0 <= i <= |files|
        invariant attachments == old(attachments) + AttachmentRows(files[..i], uuids[..i], id)
        invariant uploads == Uploads(files[..i], uuids[..i])
        invariant users == old(users) && emails == old(emails)
        invariant inbox == old(inbox) && sent == old(sent) && starred == old(starred) && trash == old(trash)
      {
        var key := ObjectKey(uuids[i], files[i].name);
        attachments := attachments + [Attachment(files[i].name, key, id)];
        uploads := uploads + [Upload(Bucket, key, files[i].content)];
        assert files[..i + 1][..i] == files[..i] && uuids[..i + 1][..i] == uuids[..i];
        i := i + 1;
      }
      assert files[..i] == files && uuids[..i] == uuids;
    }

    // -------------------------------------------------------------------------
    // UserInbox.put: mark read
    // -------------------------------------------------------------------------

    /**
     * Updates email `id` from a full payload. A missing email raises; a payload
     * that does not validate saves nothing, yet the request still succeeds.
     */
    method MarkRead(id: int, p: EmailPayload) returns (r: Result<(), HandlerError>)
      requires Valid()
      modifies this
      ensures Valid()
      ensures r.Ok? <==> HasEmail(old(State()), id)
      ensures r.Err? ==> r.error == EmailDoesNotExist(id)
      ensures var v := ValidateEmail(old(users), p);
        if r.Ok? && v.Ok? then
          State() == old(State()).(emails := old(emails)[id - 1 := UpdateRead(old(emails)[id - 1], v.value)])
        else
          State() == old(State())
    {
      if !(1 <= id <= |emails|) {
        return Err(EmailDoesNotExist(id));
      }
      var v := ValidateEmail(users, p);
      if v.Ok? {
        SaveEmail(id, UpdateRead(emails[id - 1], v.value));
      }
      r := Ok(());
    }

    /** `instance.save()` of an existing email whose sender and receiver stay the same. */
    method SaveEmail(id: int, e: Email)
      requires Valid() && HasEmail(State(), id)
      requires e.sender == emails[id - 1].sender && e.receiver == emails[id - 1].receiver
      modifies this
      ensures Valid()
      ensures State() == old(State()).(emails := old(emails)[id - 1 := e])
    {
      UpdateEmailPreservesConsistent(State(), id, e);
      emails := emails[id - 1 := e];
    }

    // -------------------------------------------------------------------------
    // UserInbox.get, UserSent.get, UserStarred.get, UserTrash.get
    // -------------------------------------------------------------------------

    /**
     * The emails of `u`'s rows in folder `f` with their ids, in table order. The Inbox and Sent
     * listings skip a row whose email is gone; Starred and Trash follow the
     * row's reference directly.
     */
    method ListFolder(f: Folder, u: UserId) returns (listing: seq<Entry>)
      requires Valid()
      ensures listing == Listing(Table(State(), f), emails, u)
    {
      var rows := Table(State(), f);
      assert RowsRefer(State(), rows);
      listing := [];
      var i := 0;
      while i < |rows|
        invariant 0 <= i <= |rows|
        invariant listing == Listing(rows[..i], emails, u)
      {
        var row := rows[i];
        assert rows[..i + 1][..i] == rows[..i];
        if row.user == u {
          if f == Inbox || f == Sent {
            if 1 <= row.email <= |emails| {
              listing := listing + [Entry(row.email, emails[row.email - 1])];
            }
          } else {
            assert row in rows;
            listing := listing + [Entry(row.email, emails[row.email - 1])];
          }
        }
        i := i + 1;
      }
      assert rows[..i] == rows;
    }

    // -------------------------------------------------------------------------
    // The batch handlers: one id after another, the first exception ends the request
    // -------------------------------------------------------------------------

    /** UserStarred.post: toggles the star on each id. */
    method ToggleStars(u: UserId, ids: seq<int>) returns (o: Outcome)
      requires Valid() && u < |users|
      modifies this
      ensures Valid()
      ensures (State(), o) == Run(ToggleStar, old(State()), u, ids)
    {
      RunPreservesConsistent(ToggleStar, State(), u, ids);
      var i := 0;
      while i < |ids|
        invariant 0 <= i <= |ids|
        invariant Run(ToggleStar, old(State()), u, ids[..i]) == (State(), Completed)
      {
        RunNext(ToggleStar, old(State()), u, ids, i);
        var id := ids[i];
        if !(1 <= id <= |emails|) {
          RunAfterStop(ToggleStar, old(State()), u, ids, i);
          return Stopped(i, EmailDoesNotExist(id));
        }
        var row := Row(u, id);
        if row in starred {
          starred := RemoveAll(starred, row);
        } else {
          starred := starred + [row];
        }
        i := i + 1;
      }
      assert ids[..i] == ids;
      o := Completed;
    }

    /** UserInbox.delete: moves each id from Inbox to Trash. */
    method MoveToTrash(u: UserId, ids: seq<int>) returns (o: Outcome)
      requires Valid() && u < |users|
      modifies this
      ensures Valid()
      ensures (State(), o) == Run(Action.MoveToTrash, old(State()), u, ids)
    {
      RunPreservesConsistent(Action.MoveToTrash, State(), u, ids);
      var i := 0;
      while i < |ids|
        invariant 0 <= i <= |ids|
        invariant Run(Action.MoveToTrash, old(State()), u, ids[..i]) == (State(), Completed)
      {
        RunNext(Action.MoveToTrash, old(State()), u, ids, i);
        var id := ids[i];
        if !(1 <= id <= |emails|) {
          RunAfterStop(Action.MoveToTrash, old(State()), u, ids, i);
          return Stopped(i, EmailDoesNotExist(id));
        }
        var row := Row(u, id);
        var c := Count(inbox, row);
        if c != 1 {
          RunAfterStop(Action.MoveToTrash, old(State()), u, ids, i);
          return Stopped(i, if c == 0 then RowDoesNotExist(Inbox) else MultipleRows(Inbox));
        }
        inbox := RemoveOne(inbox, row);
        trash := trash + [row];
        i := i + 1;
      }
      assert ids[..i] == ids;
      o := Completed;
    }

    /** UserTrash.patch: restores each id from Trash to Inbox. */
    method Restore(u: UserId, ids: seq<int>) returns (o: Outcome)
      requires Valid() && u < |users|
      modifies this
      ensures Valid()
      ensures (State(), o) == Run(RestoreFromTrash, old(State()), u, ids)
    {
      RunPreservesConsistent(RestoreFromTrash, State(), u, ids);
      var i := 0;
      while i < |ids|
        invariant 0 <= i <= |ids|
        invariant Run(RestoreFromTrash, old(State()), u, ids[..i]) == (State(), Completed)
      {
        RunNext(RestoreFromTrash, old(State()), u, ids, i);
        var id := ids[i];
        if !(1 <= id <= |emails|) {
          RunAfterStop(RestoreFromTrash, old(State()), u, ids, i);
          return Stopped(i, EmailDoesNotExist(id));
        }
        var row := Row(u, id);
        if row in trash {
          trash := RemoveAll(trash, row);
          inbox := inbox + [row];
        }
        i := i + 1;
      }
      assert ids[..i] == ids;
      o := Completed;
    }

    /** UserTrash.delete: deletes each id's Trash row for good. */
    method PurgeFromTrash(u: UserId, ids: seq<int>) returns (o: Outcome)
      requires Valid() && u < |users|
      modifies this
      ensures Valid()
      ensures (State(), o) == Run(PurgeTrash, old(State()), u, ids)
    {
      RunPreservesConsistent(PurgeTrash, State(), u, ids);
      var i := 0;
      while i < |ids|
        invariant 0 <= i <= |ids|
        invariant Run(PurgeTrash, old(State()), u, ids[..i]) == (State(), Completed)
      {
        RunNext(PurgeTrash, old(State()), u, ids, i);
        var id := ids[i];
        if !(1 <= id <= |emails|) {
          RunAfterStop(PurgeTrash, old(State()), u, ids, i);
          return Stopped(i, EmailDoesNotExist(id));
        }
        var row := Row(u, id);
        var c := Count(trash, row);
        if c != 1 {
          RunAfterStop(PurgeTrash, old(State()), u, ids, i);
          return Stopped(i, if c == 0 then RowDoesNotExist(Trash) else MultipleRows(Trash));
        }
        trash := RemoveOne(trash, row);
        i := i + 1;
      }
      assert ids[..i] == ids;
      o := Completed;
    }

    /** UserSent.delete: deletes each id's Sent row for good. */
    method PurgeFromSent(u: UserId, ids: seq<int>) returns (o: Outcome)
      requires Valid() && u < |users|
      modifies this
      ensures Valid()
      ensures (State(), o) == Run(PurgeSent, old(State()), u, ids)
    {
      RunPreservesConsistent(PurgeSent, State(), u, ids);
      var i := 0;
      while i < |ids|
        invariant 0 <= i <= |ids|
        invariant Run(PurgeSent, old(State()), u, ids[..i]) == (State(), Completed)
      {
        RunNext(PurgeSent, old(State()), u, ids, i);
        var id := ids[i];
        if !(1 <= id <= |emails|) {
          RunAfterStop(PurgeSent, old(State()), u, ids, i);
          return Stopped(i, EmailDoesNotExist(id));
        }
        var row := Row(u, id);
        var c := Count(sent, row);
        if c != 1 {
          RunAfterStop(PurgeSent, old(State()), u, ids, i);
          return Stopped(i, if c == 0 then RowDoesNotExist(Sent) else MultipleRows(Sent));
        }
        sent := RemoveOne(sent, row);
        i := i + 1;
      }
      assert ids[..i] == ids;
      o := Completed;
    }

    // -------------------------------------------------------------------------
    // EmailAttachment.get
    // -------------------------------------------------------------------------

    /** The retrieval links of email `id`'s attachments; a missing email raises. */
    method AttachmentLinks(id: int, presign: (string, nat) -> string) returns (r: Result<seq<Link>, HandlerError>)
      ensures r.Ok? <==> HasEmail(State(), id)
      ensures r.Err? ==> r.error == EmailDoesNotExist(id)
      ensures r.Ok? ==> r.value == Links(attachments, id, presign)
    {
      if !(1 <= id <= |emails|) {
        return Err(EmailDoesNotExist(id));
      }
      var links := [];
      var i := 0;
      while i < |attachments|
        invariant 0 <= i <= |attachments|
        invariant links == Links(attachments[..i], id, presign)
      {
        var a := attachments[i];
        assert attachments[..i + 1][..i] == attachments[..i];
        if a.email == id {
          links := links + [Link(a.name, presign(a.objectName, LinkExpiry))];
        }
        i := i + 1;
      }
      assert attachments[..i] == attachments;
      r := Ok(links);
    }
  }
}
