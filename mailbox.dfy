/**
 * The mailbox state of emails/views.py as a value: the user and email tables,
 * the four per-user folder tables (Inbox, Sent, Starred, Trash) of
 * (user, email) rows, and the attachment table. The handlers' per-id steps,
 * the batch loop that runs them over a list of ids, folder listings and
 * attachment links are functions of this value; the handler methods in
 * views.dfy are proved to compute exactly these functions.
 */
module Mailbox {
  import opened Wrappers
  import opened Tables
  import opened Serializers

  datatype Folder = Inbox | Sent | Starred | Trash

  /** A row of the attachment table: display name, object-store key, owning email. */
  datatype Attachment = Attachment(name: string, objectName: string, email: int)

  /** An uploaded file: its name and its bytes. */
  datatype File = File(name: string, content: seq<bv8>)

  /** One `upload_file` call: the object-store bucket, the object key and the bytes put there. */
  datatype Upload = Upload(bucket: string, key: string, content: seq<bv8>)

  /** A retrieval link as the attachment handler returns it: `{file name: presigned url}`. */
  datatype Link = Link(name: string, url: string)

  const Bucket := "reply-django-server"

  /** Lifetime in seconds of every presigned retrieval link. */
  const LinkExpiry: nat := 300

  /**
   * Every table of the database the handlers touch. Email ids are assigned
   * 1, 2, 3, ... so email `id` is `emails[id - 1]`; no handler deletes an email.
   */
  datatype Store = Store(
    users: seq<Account>, emails: seq<Email>,
    inbox: seq<Row>, sent: seq<Row>, starred: seq<Row>, trash: seq<Row>,
    attachments: seq<Attachment>)

  function Table(s: Store, f: Folder): seq<Row> {
    match f
    case Inbox => s.inbox
    case Sent => s.sent
    case Starred => s.starred
    case Trash => s.trash
  }

  /** `Email.objects.get(id=id)` finds a row. */
  predicate HasEmail(s: Store, id: int) {
    1 <= id <= |s.emails|
  }

  // ---------------------------------------------------------------------------
  // The store invariant
  // ---------------------------------------------------------------------------

  ghost predicate RowsRefer(s: Store, rows: seq<Row>) {
    forall r :: r in rows ==> RowFits(s, r)
  }

  /**
   * Every reference in the store points at an existing user or email, and
   * usernames are unique, stored trimmed and free of null characters, as
   * registration leaves them.
   */
  ghost predicate WellFormed(s: Store) {
    && (forall i, j :: 0 <= i < j < |s.users| ==> s.users[i].username != s.users[j].username)
    && (forall i :: 0 <= i < |s.users| ==> Unpadded(s.users[i].username) && Nul !in s.users[i].username)
    && (forall e :: e in s.emails ==> e.sender < |s.users| && e.receiver < |s.users|)
    && RowsRefer(s, s.inbox) && RowsRefer(s, s.sent) && RowsRefer(s, s.starred) && RowsRefer(s, s.trash)
    && (forall a :: a in s.attachments ==> HasEmail(s, a.email))
  }

  /**
   * At most one row per (user, folder, email), and never an Inbox row and a
   * Trash row for the same (user, email) at once. The code enforces no
   * uniqueness; the handlers keep this by the way they create rows.
   */
  ghost predicate NoDuplicateRows(s: Store) {
    && (forall r :: Count(s.inbox, r) + Count(s.trash, r) <= 1)
    && (forall r :: Count(s.sent, r) <= 1)
    && (forall r :: Count(s.starred, r) <= 1)
  }

  ghost predicate Consistent(s: Store) {
    WellFormed(s) && NoDuplicateRows(s)
  }

  // ---------------------------------------------------------------------------
  // One id of a batch handler
  // ---------------------------------------------------------------------------

  /** The exceptions a handler raises: no such email, or a `get` that found no row or several. */
  datatype HandlerError = EmailDoesNotExist(id: int) | RowDoesNotExist(folder: Folder) | MultipleRows(folder: Folder)

  /** `Folder.objects.get(user=u, email=e).delete()`: exactly one matching row must exist, and it goes. */
  function DeleteSingle(rows: seq<Row>, r: Row, f: Folder): (res: Result<seq<Row>, HandlerError>)
    ensures res.Ok? <==> Count(rows, r) == 1
    ensures res.Ok? ==> multiset(res.value) == multiset(rows) - multiset{r} && Count(res.value, r) == 0
    ensures res == Err(RowDoesNotExist(f)) <==> Count(rows, r) == 0
    ensures res == Err(MultipleRows(f)) <==> Count(rows, r) > 1
  {
    var c := Count(rows, r);
    if c == 0 then Err(RowDoesNotExist(f))
    else if c > 1 then Err(MultipleRows(f))
    else Ok(RemoveOne(rows, r))
  }

  /** The batch handlers: star toggle, move to trash, restore, purge from Trash, purge from Sent. */
  datatype Action = ToggleStar | MoveToTrash | RestoreFromTrash | PurgeTrash | PurgeSent

  /** The folder tables an action may change. */
  function Touches(a: Action): set<Folder> {
    match a
    case ToggleStar => {Starred}
    case MoveToTrash => {Inbox, Trash}
    case RestoreFromTrash => {Inbox, Trash}
    case PurgeTrash => {Trash}
    case PurgeSent => {Sent}
  }

  /**
   * `UserStarred.post` for one row: every Starred copy goes if there is any,
   * else one is created. Only the Starred table changes, and in it only `r`.
   */
  function ToggleStarRow(s: Store, r: Row): (t: Store)
    ensures t == s.(starred := t.starred)
    ensures forall x :: x != r ==> Count(t.starred, x) == Count(s.starred, x)
  {
    if r in s.starred then s.(starred := RemoveAll(s.starred, r)) else s.(starred := s.starred + [r])
  }

  /**
   * `UserInbox.delete` for one row: the single Inbox row goes and a Trash row
   * is created. Only Inbox and Trash change, and in them only `r`.
   */
  function TrashRow(s: Store, r: Row): (res: Result<Store, HandlerError>)
    ensures res.Ok? ==> res.value == s.(inbox := res.value.inbox, trash := res.value.trash)
    ensures res.Ok? ==> forall x :: x != r ==>
      Count(res.value.inbox, x) == Count(s.inbox, x) && Count(res.value.trash, x) == Count(s.trash, x)
  {
    match DeleteSingle(s.inbox, r, Inbox)
    case Err(e) => Err(e)
    case Ok(rest) => Ok(s.(inbox := rest, trash := s.trash + [r]))
  }

  /**
   * `UserTrash.patch` for one row: if there are Trash copies they all go and
   * an Inbox row is created. Only Inbox and Trash change, and in them only `r`.
   */
  function RestoreRow(s: Store, r: Row): (t: Store)
    ensures t == s.(inbox := t.inbox, trash := t.trash)
    ensures forall x :: x != r ==> Count(t.inbox, x) == Count(s.inbox, x) && Count(t.trash, x) == Count(s.trash, x)
  {
    if r in s.trash then s.(trash := RemoveAll(s.trash, r), inbox := s.inbox + [r]) else s
  }

  /** `UserTrash.delete` for one row: only the Trash table changes, and in it only `r`. */
  function PurgeTrashRow(s: Store, r: Row): (res: Result<Store, HandlerError>)
    ensures res.Ok? ==> res.value == s.(trash := res.value.trash)
    ensures res.Ok? ==> forall x :: x != r ==> Count(res.value.trash, x) == Count(s.trash, x)
  {
    match DeleteSingle(s.trash, r, Trash)
    case Err(e) => Err(e)
    case Ok(rest) => Ok(s.(trash := rest))
  }

  /** `UserSent.delete` for one row: only the Sent table changes, and in it only `r`. */
  function PurgeSentRow(s: Store, r: Row): (res: Result<Store, HandlerError>)
    ensures res.Ok? ==> res.value == s.(sent := res.value.sent)
    ensures res.Ok? ==> forall x :: x != r ==> Count(res.value.sent, x) == Count(s.sent, x)
  {
    match DeleteSingle(s.sent, r, Sent)
    case Err(e) => Err(e)
    case Ok(rest) => Ok(s.(sent := rest))
  }

  /**
   * What one handler does for one id, acting as user `u`: the email must
   * exist, then the action's row operation. No step changes users, emails or
   * attachments.
   */
  function Step(a: Action, s: Store, u: UserId, id: int): (res: Result<Store, HandlerError>)
    ensures res == Err(EmailDoesNotExist(id)) <==> !HasEmail(s, id)
    ensures res.Ok? ==> res.value.users == s.users && res.value.emails == s.emails && res.value.attachments == s.attachments
  {
    if !HasEmail(s, id) then Err(EmailDoesNotExist(id))
    else
      var r := Row(u, id);
      match a
      case ToggleStar => Ok(ToggleStarRow(s, r))
      case MoveToTrash => TrashRow(s, r)
      case RestoreFromTrash => Ok(RestoreRow(s, r))
      case PurgeTrash => PurgeTrashRow(s, r)
      case PurgeSent => PurgeSentRow(s, r)
  }

  /** Star toggle: all rows go if any exists, else exactly one is created; afterwards there are 0 or 1. */
  lemma ToggleStarEffect(s: Store, u: UserId, id: int)
    requires HasEmail(s, id)
    ensures Step(ToggleStar, s, u, id).Ok?
    ensures var t := Step(ToggleStar, s, u, id).value; var r := Row(u, id);
      && (Count(s.starred, r) > 0 ==> Count(t.starred, r) == 0)
      && (Count(s.starred, r) == 0 ==> t.starred == s.starred + [r] && Count(t.starred, r) == 1)
  {
  }

  /** Two star toggles from an unstarred state give back the very same Starred table. */
  lemma ToggleStarTwice(s: Store, u: UserId, id: int)
    requires HasEmail(s, id) && Count(s.starred, Row(u, id)) == 0
    ensures Step(ToggleStar, s, u, id).Ok?
    ensures Step(ToggleStar, Step(ToggleStar, s, u, id).value, u, id) == Ok(s)
  {
    var r := Row(u, id);
    RemoveAllUndoesAppend(s.starred, r);
    assert r in s.starred + [r];
  }

  /** Move to trash: needs exactly one Inbox row, which goes, and adds one Trash row; otherwise it raises. */
  lemma MoveToTrashEffect(s: Store, u: UserId, id: int)
    ensures var res := Step(MoveToTrash, s, u, id); var r := Row(u, id);
      && (res.Ok? <==> HasEmail(s, id) && Count(s.inbox, r) == 1)
      && (!HasEmail(s, id) ==> res == Err(EmailDoesNotExist(id)))
      && (HasEmail(s, id) && Count(s.inbox, r) == 0 ==> res == Err(RowDoesNotExist(Inbox)))
      && (HasEmail(s, id) && Count(s.inbox, r) > 1 ==> res == Err(MultipleRows(Inbox)))
      && (res.Ok? ==>
            && multiset(res.value.inbox) == multiset(s.inbox) - multiset{r}
            && res.value.trash == s.trash + [r])
  {
  }

  /** Restore: if any Trash row exists they all go and one Inbox row is added; with none it changes nothing. */
  lemma RestoreEffect(s: Store, u: UserId, id: int)
    requires HasEmail(s, id)
    ensures Step(RestoreFromTrash, s, u, id).Ok?
    ensures var t := Step(RestoreFromTrash, s, u, id).value; var r := Row(u, id);
      && (Count(s.trash, r) > 0 ==> Count(t.trash, r) == 0 && t.inbox == s.inbox + [r])
      && (Count(s.trash, r) == 0 ==> t == s)
  {
  }

  /** The table a purge action deletes from. */
  function PurgedFolder(a: Action): Folder
    requires a == PurgeTrash || a == PurgeSent
  {
    if a == PurgeTrash then Trash else Sent
  }

  /**
   * Purge: deletes the single matching row and raises when there is none (or
   * several); it changes no other table, so it never creates a row.
   */
  lemma PurgeEffect(a: Action, s: Store, u: UserId, id: int)
    requires a == PurgeTrash || a == PurgeSent
    ensures var res := Step(a, s, u, id); var r := Row(u, id); var f := PurgedFolder(a);
      && (res.Ok? <==> HasEmail(s, id) && Count(Table(s, f), r) == 1)
      && (HasEmail(s, id) && Count(Table(s, f), r) == 0 ==> res == Err(RowDoesNotExist(f)))
      && (res.Ok? ==>
            && multiset(Table(res.value, f)) == multiset(Table(s, f)) - multiset{r}
            && Touches(a) == {f} && Confined(s, res.value, a, u))
  {
    if Step(a, s, u, id).Ok? {
      StepConfined(a, s, u, id);
    }
  }

  /** Trash then restore: the Inbox and Trash tables hold the same rows as before (the Inbox row moves to the end). */
  lemma {:induction false} TrashThenRestore(s: Store, u: UserId, id: int)
    requires Consistent(s) && Step(MoveToTrash, s, u, id).Ok?
    ensures Step(RestoreFromTrash, Step(MoveToTrash, s, u, id).value, u, id).Ok?
    ensures var w := Step(RestoreFromTrash, Step(MoveToTrash, s, u, id).value, u, id).value; var r := Row(u, id);
      && Count(w.inbox, r) == 1 && Count(w.trash, r) == 0
      && multiset(w.inbox) == multiset(s.inbox) && multiset(w.trash) == multiset(s.trash)
  {
    var r := Row(u, id);
    MoveToTrashEffect(s, u, id);
    var t := Step(MoveToTrash, s, u, id).value;
    assert Count(s.inbox, r) + Count(s.trash, r) <= 1;
    assert Count(s.trash, r) == 0;
    assert r in t.trash;
    var w := Step(RestoreFromTrash, t, u, id).value;
    assert w.trash == RemoveAll(s.trash + [r], r);
    RemoveAllUndoesAppend(s.trash, r);
  }

  /** The two tables hold the same number of copies of every row of a user other than `u`. */
  ghost predicate SameForOthers(before: seq<Row>, after: seq<Row>, u: UserId) {
    forall r: Row :: r.user != u ==> Count(after, r) == Count(before, r)
  }

  /**
   * What a successful step leaves alone: users, emails, attachments, the
   * folder tables its action does not touch, and every other user's rows.
   */
  ghost predicate Confined(s: Store, t: Store, a: Action, u: UserId) {
    && t.users == s.users && t.emails == s.emails && t.attachments == s.attachments
    && (Inbox !in Touches(a) ==> t.inbox == s.inbox)
    && (Sent !in Touches(a) ==> t.sent == s.sent)
    && (Starred !in Touches(a) ==> t.starred == s.starred)
    && (Trash !in Touches(a) ==> t.trash == s.trash)
    && SameForOthers(s.inbox, t.inbox, u) && SameForOthers(s.sent, t.sent, u)
    && SameForOthers(s.starred, t.starred, u) && SameForOthers(s.trash, t.trash, u)
  }

  lemma RemoveAllSameForOthers(rows: seq<Row>, r: Row, u: UserId)
    requires r.user == u
    ensures SameForOthers(rows, RemoveAll(rows, r), u)
  {
  }

  lemma AppendSameForOthers(rows: seq<Row>, r: Row, u: UserId)
    requires r.user == u
    ensures SameForOthers(rows, rows + [r], u)
  {
    forall x: Row | x.user != u ensures Count(rows + [x], x) == Count(rows, x) + 1 {
    }
  }

  lemma DeleteSingleSameForOthers(rows: seq<Row>, r: Row, f: Folder, u: UserId)
    requires r.user == u && DeleteSingle(rows, r, f).Ok?
    ensures SameForOthers(rows, DeleteSingle(rows, r, f).value, u)
  {
  }

  lemma StepConfined(a: Action, s: Store, u: UserId, id: int)
    requires Step(a, s, u, id).Ok?
    ensures Confined(s, Step(a, s, u, id).value, a, u)
  {
    var r := Row(u, id);
    match a {
      case ToggleStar =>
        RemoveAllSameForOthers(s.starred, r, u);
        AppendSameForOthers(s.starred, r, u);
      case MoveToTrash =>
        DeleteSingleSameForOthers(s.inbox, r, Inbox, u);
        AppendSameForOthers(s.trash, r, u);
      case RestoreFromTrash =>
        RemoveAllSameForOthers(s.trash, r, u);
        AppendSameForOthers(s.inbox, r, u);
      case PurgeTrash =>
        DeleteSingleSameForOthers(s.trash, r, Trash, u);
      case PurgeSent =>
        DeleteSingleSameForOthers(s.sent, r, Sent, u);
    }
  }

  /** A row refers to an existing user and an existing email. */
  ghost predicate RowFits(s: Store, r: Row) {
    r.user < |s.users| && HasEmail(s, r.email)
  }

  lemma ToggleStarKeepsConsistent(s: Store, r: Row)
    requires Consistent(s) && RowFits(s, r)
    ensures Consistent(ToggleStarRow(s, r))
  {
    var t := ToggleStarRow(s, r);
    forall x | x in t.starred ensures RowFits(t, x) {
      assert x in s.starred || x == r;
    }
    forall x ensures Count(t.starred, x) <= 1 {
      assert Count(s.starred, x) <= 1;
    }
  }

  lemma TrashKeepsConsistent(s: Store, r: Row)
    requires Consistent(s) && RowFits(s, r) && TrashRow(s, r).Ok?
    ensures Consistent(TrashRow(s, r).value)
  {
    var t := TrashRow(s, r).value;
    forall x | x in t.inbox ensures RowFits(t, x) {
      assert x in s.inbox;
    }
    forall x | x in t.trash ensures RowFits(t, x) {
      assert x in s.trash || x == r;
    }
    forall x ensures Count(t.inbox, x) + Count(t.trash, x) <= 1 {
      assert Count(s.inbox, x) + Count(s.trash, x) <= 1;
    }
  }

  lemma RestoreKeepsConsistent(s: Store, r: Row)
    requires Consistent(s) && RowFits(s, r)
    ensures Consistent(RestoreRow(s, r))
  {
    if r in s.trash {
      var t := RestoreRow(s, r);
      forall x | x in t.inbox ensures RowFits(t, x) {
        assert x in s.inbox || x == r;
      }
      forall x | x in t.trash ensures RowFits(t, x) {
        assert x in s.trash;
      }
      forall x ensures Count(t.inbox, x) + Count(t.trash, x) <= 1 {
        assert Count(s.inbox, x) + Count(s.trash, x) <= 1;
      }
    }
  }

  lemma PurgeTrashKeepsConsistent(s: Store, r: Row)
    requires Consistent(s) && PurgeTrashRow(s, r).Ok?
    ensures Consistent(PurgeTrashRow(s, r).value)
  {
    var t := PurgeTrashRow(s, r).value;
    forall x | x in t.trash ensures RowFits(t, x) {
      assert x in s.trash;
    }
    forall x ensures Count(t.inbox, x) + Count(t.trash, x) <= 1 {
      assert Count(s.inbox, x) + Count(s.trash, x) <= 1;
    }
  }

  lemma PurgeSentKeepsConsistent(s: Store, r: Row)
    requires Consistent(s) && PurgeSentRow(s, r).Ok?
    ensures Consistent(PurgeSentRow(s, r).value)
  {
    var t := PurgeSentRow(s, r).value;
    forall x | x in t.sent ensures RowFits(t, x) {
      assert x in s.sent;
    }
    forall x ensures Count(t.sent, x) <= 1 {
      assert Count(s.sent, x) <= 1;
    }
  }

  /** A store that is consistent stays consistent through every step taken by an existing user. */
  lemma {:induction false} StepPreservesConsistent(a: Action, s: Store, u: UserId, id: int)
    requires Consistent(s) && u < |s.users| && Step(a, s, u, id).Ok?
    ensures Consistent(Step(a, s, u, id).value)
  {
    var r := Row(u, id);
    match a {
      case ToggleStar => ToggleStarKeepsConsistent(s, r);
      case MoveToTrash => TrashKeepsConsistent(s, r);
      case RestoreFromTrash => RestoreKeepsConsistent(s, r);
      case PurgeTrash => PurgeTrashKeepsConsistent(s, r);
      case PurgeSent => PurgeSentKeepsConsistent(s, r);
    }
  }

  /** On a consistent store no `get` ever finds several rows. */
  lemma NoMultipleRowsWhenConsistent(a: Action, s: Store, u: UserId, id: int)
    requires Consistent(s)
    ensures !Step(a, s, u, id).Err? || !Step(a, s, u, id).error.MultipleRows?
  {
    var r := Row(u, id);
    assert Count(s.inbox, r) + Count(s.trash, r) <= 1;
    assert Count(s.sent, r) <= 1;
  }

  // ---------------------------------------------------------------------------
  // A batch: ids processed in list order, stopping at the first exception
  // ---------------------------------------------------------------------------

  datatype Outcome = Completed | Stopped(at: nat, why: HandlerError)

  /**
   * The handler's loop over the comma-separated ids: each id in turn, the
   * first exception ends the request and the earlier ids' changes stay. A
   * stop names an id of the batch, and no batch changes users, emails or
   * attachments.
   */
  function Run(a: Action, s: Store, u: UserId, ids: seq<int>): (res: (Store, Outcome))
    ensures res.1.Stopped? ==> res.1.at < |ids|
    ensures res.0.users == s.users && res.0.emails == s.emails && res.0.attachments == s.attachments
    decreases |ids|
  {
    if ids == [] then (s, Completed)
    else
      var (p, o) := Run(a, s, u, ids[..|ids| - 1]);
      if o.Stopped? then (p, o)
      else
        match Step(a, p, u, ids[|ids| - 1])
        case Ok(t) => (t, Completed)
        case Err(e) => (p, Stopped(|ids| - 1, e))
  }

  /**
   * A stopped batch stopped at the first failing id: the ids before it all
   * succeeded and their changes are the final state, and that id's step failed.
   */
  lemma {:induction false} RunStopsAtFirstFailure(a: Action, s: Store, u: UserId, ids: seq<int>)
    ensures var (t, o) := Run(a, s, u, ids);
      o.Stopped? ==>
        && o.at < |ids|
        && Run(a, s, u, ids[..o.at]) == (t, Completed)
        && Step(a, t, u, ids[o.at]) == Err(o.why)
    decreases |ids|
  {
    if ids != [] {
      var prefix := ids[..|ids| - 1];
      RunStopsAtFirstFailure(a, s, u, prefix);
      var (p, o) := Run(a, s, u, prefix);
      if o.Stopped? {
        assert Run(a, s, u, ids) == (p, o);
        assert prefix[..o.at] == ids[..o.at];
        assert prefix[o.at] == ids[o.at];
      } else {
        var n := |ids| - 1;
        assert ids[..n] == prefix;
        match Step(a, p, u, ids[n]) {
          case Ok(t) =>
            assert Run(a, s, u, ids) == (t, Completed);
          case Err(e) =>
            assert Run(a, s, u, ids) == (p, Stopped(n, e));
        }
      }
    }
  }

  /** The batch over one more id: the step of that id decides how the prefix's run continues. */
  lemma RunNext(a: Action, s: Store, u: UserId, ids: seq<int>, i: nat)
    requires i < |ids| && Run(a, s, u, ids[..i]).1.Completed?
    ensures var p := Run(a, s, u, ids[..i]).0;
      Run(a, s, u, ids[..i + 1]) ==
        match Step(a, p, u, ids[i])
        case Ok(t) => (t, Completed)
        case Err(e) => (p, Stopped(i, e))
  {
    assert ids[..i + 1][..i] == ids[..i];
  }

  /** Once a prefix of the ids has stopped, the ids after it change nothing. */
  lemma {:induction false} RunAfterStop(a: Action, s: Store, u: UserId, ids: seq<int>, k: nat)
    requires k < |ids| && Run(a, s, u, ids[..k + 1]).1.Stopped?
    ensures Run(a, s, u, ids) == Run(a, s, u, ids[..k + 1])
    decreases |ids| - k
  {
    if k + 1 < |ids| {
      var prefix := ids[..|ids| - 1];
      assert prefix[..k + 1] == ids[..k + 1];
      RunAfterStop(a, s, u, prefix, k);
    } else {
      assert ids[..k + 1] == ids;
    }
  }

  /** A batch changes only the acting user's rows, only in the tables its action touches, and never users, emails or attachments. */
  lemma {:induction false} RunConfined(a: Action, s: Store, u: UserId, ids: seq<int>)
    ensures Confined(s, Run(a, s, u, ids).0, a, u)
    decreases |ids|
  {
    if ids != [] {
      RunConfined(a, s, u, ids[..|ids| - 1]);
      var (p, o) := Run(a, s, u, ids[..|ids| - 1]);
      if o.Completed? && Step(a, p, u, ids[|ids| - 1]).Ok? {
        StepConfined(a, p, u, ids[|ids| - 1]);
      }
    }
  }

  /** A batch run by an existing user keeps the store consistent. */
  lemma {:induction false} RunPreservesConsistent(a: Action, s: Store, u: UserId, ids: seq<int>)
    requires Consistent(s) && u < |s.users|
    ensures Consistent(Run(a, s, u, ids).0)
    decreases |ids|
  {
    if ids != [] {
      RunPreservesConsistent(a, s, u, ids[..|ids| - 1]);
      RunConfined(a, s, u, ids[..|ids| - 1]);
      var (p, o) := Run(a, s, u, ids[..|ids| - 1]);
      if o.Completed? && Step(a, p, u, ids[|ids| - 1]).Ok? {
        StepPreservesConsistent(a, p, u, ids[|ids| - 1]);
      }
    }
  }

  // ---------------------------------------------------------------------------
  // Folder listings
  // ---------------------------------------------------------------------------

  /** One entry of a folder listing: the email's id and the email, as the email serializer renders them. */
  datatype Entry = Entry(id: int, email: Email)

  /**
   * A folder listing: for each of `u`'s rows in table order, the email it
   * names with its id, skipping rows whose email is gone. Every entry is an
   * existing email under its own id.
   */
  function Listing(rows: seq<Row>, emails: seq<Email>, u: UserId): (l: seq<Entry>)
    ensures |l| <= |rows|
    ensures forall k :: 0 <= k < |l| ==> 1 <= l[k].id <= |emails| && l[k].email == emails[l[k].id - 1]
    decreases |rows|
  {
    if rows == [] then []
    else
      var r := rows[|rows| - 1];
      Listing(rows[..|rows| - 1], emails, u) + (if r.user == u && 1 <= r.email <= |emails| then [Entry(r.email, emails[r.email - 1])] else [])
  }

  /** Row `j` of a folder table belongs to `u` and names an existing email. */
  predicate ListedRow(rows: seq<Row>, emails: seq<Email>, u: UserId, j: int) {
    0 <= j < |rows| && rows[j].user == u && 1 <= rows[j].email <= |emails|
  }

  /** The positions of `u`'s rows that name an existing email, in table order. */
  function ListedIndices(rows: seq<Row>, emails: seq<Email>, u: UserId): (idx: seq<int>)
    ensures forall k :: 0 <= k < |idx| ==> ListedRow(rows, emails, u, idx[k])
    decreases |rows|
  {
    if rows == [] then []
    else
      var n := |rows| - 1;
      var prefix := ListedIndices(rows[..n], emails, u);
      assert forall k :: 0 <= k < |prefix| ==> rows[..n][prefix[k]] == rows[prefix[k]];
      prefix + (if ListedRow(rows, emails, u, n) then [n] else [])
  }

  /** The listed positions are increasing, and every listed row is among them. */
  lemma {:induction false} ListedIndicesComplete(rows: seq<Row>, emails: seq<Email>, u: UserId)
    ensures var idx := ListedIndices(rows, emails, u);
      && (forall a, b :: 0 <= a < b < |idx| ==> idx[a] < idx[b])
      && (forall j :: ListedRow(rows, emails, u, j) ==> j in idx)
    decreases |rows|
  {
    if rows != [] {
      var n := |rows| - 1;
      ListedIndicesComplete(rows[..n], emails, u);
      var ip := ListedIndices(rows[..n], emails, u);
      var idx := ListedIndices(rows, emails, u);
      assert idx == ip + (if ListedRow(rows, emails, u, n) then [n] else []);
      assert forall k :: 0 <= k < |ip| ==> ip[k] < n;
      forall j | ListedRow(rows, emails, u, j) ensures j in idx {
        if j < n {
          assert rows[..n][j] == rows[j];
          assert ListedRow(rows[..n], emails, u, j);
        }
      }
    }
  }

  /** The listing entry of row `j`: its email id and that email. */
  function RowEntry(rows: seq<Row>, emails: seq<Email>, j: int): Entry
    requires 0 <= j < |rows| && 1 <= rows[j].email <= |emails|
  {
    Entry(rows[j].email, emails[rows[j].email - 1])
  }

  /** A listing has as many entries as there are listed rows. */
  lemma {:induction false} ListingLength(rows: seq<Row>, emails: seq<Email>, u: UserId)
    ensures |Listing(rows, emails, u)| == |ListedIndices(rows, emails, u)|
    decreases |rows|
  {
    if rows != [] {
      var n := |rows| - 1;
      ListingLength(rows[..n], emails, u);
      var r := rows[n];
      var listed := r.user == u && 1 <= r.email <= |emails|;
      assert |Listing(rows, emails, u)| == |Listing(rows[..n], emails, u)| + (if listed then 1 else 0);
      assert |ListedIndices(rows, emails, u)| == |ListedIndices(rows[..n], emails, u)| + (if listed then 1 else 0);
    }
  }

  /**
   * A listing has one entry per listed row, in table order: entry `k` is the
   * email of the `k`-th listed row, under that row's email id.
   */
  lemma {:induction false} ListingIsOwnRows(rows: seq<Row>, emails: seq<Email>, u: UserId)
    ensures var l := Listing(rows, emails, u); var idx := ListedIndices(rows, emails, u);
      && |l| == |idx|
      && forall k :: 0 <= k < |l| ==> l[k] == RowEntry(rows, emails, idx[k])
    decreases |rows|
  {
    ListingLength(rows, emails, u);
    if rows != [] {
      var n := |rows| - 1;
      var prefix := rows[..n];
      ListingIsOwnRows(prefix, emails, u);
      var l := Listing(rows, emails, u);
      var idx := ListedIndices(rows, emails, u);
      var lp := Listing(prefix, emails, u);
      var ip := ListedIndices(prefix, emails, u);
      var r := rows[n];
      var listed := r.user == u && 1 <= r.email <= |emails|;
      assert l == lp + (if listed then [Entry(r.email, emails[r.email - 1])] else []);
      assert idx == ip + (if listed then [n] else []);
      forall k | 0 <= k < |l|
        ensures l[k] == RowEntry(rows, emails, idx[k])
      {
        if k < |lp| {
          assert l[k] == lp[k] && idx[k] == ip[k];
          assert prefix[ip[k]] == rows[ip[k]];
        }
      }
    }
  }

  /** Two positions holding the same row make at least two copies of it. */
  lemma TwoCopies(rows: seq<Row>, i: int, j: int)
    requires 0 <= i < j < |rows| && rows[i] == rows[j]
    ensures Count(rows, rows[i]) >= 2
  {
    assert rows == rows[..j] + [rows[j]] + rows[j + 1..];
    assert rows[i] in rows[..j];
    assert multiset(rows) == multiset(rows[..j]) + multiset{rows[j]} + multiset(rows[j + 1..]);
  }

  /** A table without duplicate rows lists each email id at most once. */
  lemma ListingIdsDistinct(rows: seq<Row>, emails: seq<Email>, u: UserId)
    requires forall r :: Count(rows, r) <= 1
    ensures var l := Listing(rows, emails, u);
      forall a, b :: 0 <= a < b < |l| ==> l[a].id != l[b].id
  {
    var l := Listing(rows, emails, u);
    var idx := ListedIndices(rows, emails, u);
    ListingIsOwnRows(rows, emails, u);
    ListedIndicesComplete(rows, emails, u);
    forall a, b | 0 <= a < b < |l| ensures l[a].id != l[b].id {
      if l[a].id == l[b].id {
        assert ListedRow(rows, emails, u, idx[a]) && ListedRow(rows, emails, u, idx[b]);
        assert rows[idx[a]] == rows[idx[b]];
        TwoCopies(rows, idx[a], idx[b]);
      }
    }
  }

  /** In a consistent store every folder lists each of a user's emails at most once. */
  lemma ConsistentListingIdsDistinct(s: Store, f: Folder, u: UserId)
    requires Consistent(s)
    ensures var l := Listing(Table(s, f), s.emails, u);
      forall a, b :: 0 <= a < b < |l| ==> l[a].id != l[b].id
  {
    assert forall r :: Count(s.inbox, r) + Count(s.trash, r) <= 1;
    ListingIdsDistinct(Table(s, f), s.emails, u);
  }

  /** Adding an email to the table changes no listing of rows that refer to older emails. */
  lemma {:induction false} ListingIgnoresNewEmail(rows: seq<Row>, emails: seq<Email>, e: Email, u: UserId)
    requires forall r :: r in rows ==> r.email <= |emails|
    ensures Listing(rows, emails + [e], u) == Listing(rows, emails, u)
    decreases |rows|
  {
    if rows != [] {
      var prefix := rows[..|rows| - 1];
      assert forall r :: r in prefix ==> r in rows;
      ListingIgnoresNewEmail(prefix, emails, e, u);
      var r := rows[|rows| - 1];
      assert r in rows;
      if r.user == u && 1 <= r.email <= |emails| {
        assert (emails + [e])[r.email - 1] == emails[r.email - 1];
      }
    }
  }

  /** Appending a row adds its email at the end of its user's listing. */
  lemma ListingAppend(rows: seq<Row>, emails: seq<Email>, r: Row, u: UserId)
    ensures Listing(rows + [r], emails, u) ==
      Listing(rows, emails, u) + (if r.user == u && 1 <= r.email <= |emails| then [Entry(r.email, emails[r.email - 1])] else [])
  {
    assert (rows + [r])[..|rows|] == rows;
  }

  // ---------------------------------------------------------------------------
  // Send
  // ---------------------------------------------------------------------------

  /** The object-store key of an upload: a fresh id, "_", then the file name. */
  function ObjectKey(uuid: string, name: string): string {
    uuid + "_" + name
  }

  /** The attachment rows a send creates: one per file, in file order. */
  function AttachmentRows(files: seq<File>, uuids: seq<string>, id: int): (rows: seq<Attachment>)
    requires |uuids| == |files|
    ensures |rows| == |files|
    ensures forall k :: 0 <= k < |files| ==> rows[k] == Attachment(files[k].name, ObjectKey(uuids[k], files[k].name), id)
    decreases |files|
  {
    if files == [] then []
    else
      var n := |files| - 1;
      AttachmentRows(files[..n], uuids[..n], id) + [Attachment(files[n].name, ObjectKey(uuids[n], files[n].name), id)]
  }

  /** The uploads a send requests: one per file, into the bucket, under the file's attachment key. */
  function Uploads(files: seq<File>, uuids: seq<string>): (ups: seq<Upload>)
    requires |uuids| == |files|
    ensures |ups| == |files|
    ensures forall k :: 0 <= k < |files| ==> ups[k] == Upload(Bucket, ObjectKey(uuids[k], files[k].name), files[k].content)
    decreases |files|
  {
    if files == [] then []
    else
      var n := |files| - 1;
      Uploads(files[..n], uuids[..n]) + [Upload(Bucket, ObjectKey(uuids[n], files[n].name), files[n].content)]
  }

  /**
   * The store after a successful send by `u` of email `e`: the email is added
   * with the next id, with its attachment rows, one Inbox row for its receiver
   * and one Sent row for `u`. Every existing email keeps its id, and users,
   * Starred and Trash are left alone.
   */
  function Deliver(s: Store, u: UserId, e: Email, files: seq<File>, uuids: seq<string>): (t: Store)
    requires |uuids| == |files|
    ensures HasEmail(t, |s.emails| + 1) && t.emails[|s.emails|] == e
    ensures forall id :: HasEmail(s, id) ==> HasEmail(t, id) && t.emails[id - 1] == s.emails[id - 1]
    ensures t.users == s.users && t.starred == s.starred && t.trash == s.trash
  {
    var id := |s.emails| + 1;
    s.(emails := s.emails + [e],
       inbox := s.inbox + [Row(e.receiver, id)],
       sent := s.sent + [Row(u, id)],
       attachments := s.attachments + AttachmentRows(files, uuids, id))
  }

  /** A send by an existing user of an email between existing users keeps the store consistent. */
  lemma {:induction false} DeliverPreservesConsistent(s: Store, u: UserId, e: Email, files: seq<File>, uuids: seq<string>)
    requires Consistent(s) && u < |s.users| && e.sender < |s.users| && e.receiver < |s.users|
    requires |uuids| == |files|
    ensures Consistent(Deliver(s, u, e, files, uuids))
  {
    var t := Deliver(s, u, e, files, uuids);
    var id := |s.emails| + 1;
    var atts := AttachmentRows(files, uuids, id);
    forall a | a in t.attachments ensures HasEmail(t, a.email) {
      if a !in s.attachments {
        var k :| 0 <= k < |t.attachments| && t.attachments[k] == a;
        assert a == atts[k - |s.attachments|];
      }
    }
    forall x ensures Count(t.inbox, x) + Count(t.trash, x) <= 1 {
      assert Count(s.inbox, x) + Count(s.trash, x) <= 1;
      if x == Row(e.receiver, id) {
        assert x !in s.inbox && x !in s.trash;
      }
    }
    forall x ensures Count(t.sent, x) <= 1 {
      assert Count(s.sent, x) <= 1;
      if x == Row(u, id) {
        assert x !in s.sent;
      }
    }
    assert forall x :: Count(t.starred, x) <= 1;
  }

  /**
   * After a send, the receiver's Inbox listing and the sender's Sent listing
   * end with the new email; every other listing is as before.
   */
  lemma {:induction false} DeliverListings(s: Store, u: UserId, e: Email, files: seq<File>, uuids: seq<string>, v: UserId)
    requires Consistent(s) && |uuids| == |files|
    ensures var t := Deliver(s, u, e, files, uuids);
      && Listing(t.inbox, t.emails, v) == Listing(s.inbox, s.emails, v) + (if v == e.receiver then [Entry(|s.emails| + 1, e)] else [])
      && Listing(t.sent, t.emails, v) == Listing(s.sent, s.emails, v) + (if v == u then [Entry(|s.emails| + 1, e)] else [])
      && Listing(t.starred, t.emails, v) == Listing(s.starred, s.emails, v)
      && Listing(t.trash, t.emails, v) == Listing(s.trash, s.emails, v)
  {
    var id := |s.emails| + 1;
    var emails := s.emails + [e];
    ListingAppend(s.inbox, emails, Row(e.receiver, id), v);
    ListingAppend(s.sent, emails, Row(u, id), v);
    ListingIgnoresNewEmail(s.inbox, s.emails, e, v);
    ListingIgnoresNewEmail(s.sent, s.emails, e, v);
    ListingIgnoresNewEmail(s.starred, s.emails, e, v);
    ListingIgnoresNewEmail(s.trash, s.emails, e, v);
  }

  /** The payload the send handler validates: the client's, with the sender replaced by the acting user's name. */
  function AsSentBy(s: Store, u: UserId, p: EmailPayload): EmailPayload
    requires u < |s.users|
  {
    p.(sender := Some(s.users[u].username))
  }

  /** The email a send by `u` stores when its payload validates, else the serializer's errors. */
  function Composed(s: Store, u: UserId, p: EmailPayload, now: int): (r: Result<Email, EmailErrors>)
    requires u < |s.users|
    ensures r.Ok? ==>
      && r.value.sender < |s.users| && s.users[r.value.sender].username == Trim(s.users[u].username)
      && p.receiver.Some? && r.value.receiver < |s.users| && s.users[r.value.receiver].username == Trim(p.receiver.value)
  {
    match ValidateEmail(s.users, AsSentBy(s, u, p))
    case Err(errors) => Err(errors)
    case Ok(v) => Ok(CreateEmail(s.users, v, now))
  }

  /**
   * Since the handler overwrites the payload's sender, a send validates exactly
   * when subject, message and receiver do; the stored email's sender is the
   * acting user, its receiver the user the trimmed receiver name names, and its
   * text fields are stored trimmed.
   */
  lemma {:induction false} ComposedEmail(s: Store, u: UserId, p: EmailPayload, now: int)
    requires WellFormed(s) && u < |s.users|
    ensures Composed(s, u, p, now).Ok? <==>
      Filled(p.subject, 0) && |Trim(p.subject.value)| <= SubjectMaxLength &&
      Filled(p.message, 0) && NamesUser(s.users, p.receiver)
    ensures Composed(s, u, p, now).Ok? ==>
      var e := Composed(s, u, p, now).value;
      && e.sender == u
      && e.receiver < |s.users| && s.users[e.receiver].username == Trim(p.receiver.value)
      && e.subject == Trim(p.subject.value) && e.message == Trim(p.message.value)
      && e.read == p.read.GetOr(false) && e.createdAt == p.createdAt.GetOr(now)
  {
    var name := s.users[u].username;
    var q := AsSentBy(s, u, p);
    assert Unpadded(name);
    UnpaddedTrim(name);
    assert NamesUser(s.users, q.sender);
    var v := ValidateEmail(s.users, q);
    if v.Ok? {
      var e := CreateEmail(s.users, v.value, now);
      assert s.users[e.sender].username == name;
    }
  }

  /**
   * The lookup as written at emails/views.py:99 agrees with the corrected one
   * exactly when the receiver name needs no trimming: then it finds the user
   * the stored email names; a name with surrounding whitespace finds nobody.
   */
  lemma {:induction false} AsWrittenLookupAgreesWhenTrimmed(s: Store, u: UserId, p: EmailPayload, now: int)
    requires WellFormed(s) && u < |s.users| && Composed(s, u, p, now).Ok?
    ensures p.receiver.Some?
    ensures Trim(p.receiver.value) == p.receiver.value ==>
      InboxRecipientAsWritten(s.users, AsSentBy(s, u, p)) == Some(Composed(s, u, p, now).value.receiver)
    ensures Trim(p.receiver.value) != p.receiver.value ==>
      InboxRecipientAsWritten(s.users, AsSentBy(s, u, p)) == None
  {
    ComposedEmail(s, u, p, now);
    var raw := p.receiver.value;
    var e := Composed(s, u, p, now).value;
    var found := InboxRecipientAsWritten(s.users, AsSentBy(s, u, p));
    if Trim(raw) == raw {
      assert s.users[e.receiver].username == raw;
      assert found.Some?;
      assert s.users[found.value].username == s.users[e.receiver].username;
    } else if found.Some? {
      assert s.users[found.value].username == raw;
      UnpaddedTrim(raw);
    }
  }

  /**
   * The store after the send handler as written at emails/views.py:84-100:
   * the email and its attachment rows are saved first; the Inbox and Sent rows
   * follow only when the lookup of the receiver's raw name finds a user (a
   * failed lookup raises, and nothing saved before it is undone).
   */
  function DeliverAsWritten(s: Store, u: UserId, e: Email, receiver: Option<UserId>, files: seq<File>, uuids: seq<string>): (t: Store)
    requires |uuids| == |files|
    ensures receiver == Some(e.receiver) ==> t == Deliver(s, u, e, files, uuids)
    ensures receiver.None? ==>
      var d := Deliver(s, u, e, files, uuids);
      t == d.(inbox := s.inbox, sent := s.sent)
  {
    var id := |s.emails| + 1;
    var saved := s.(emails := s.emails + [e], attachments := s.attachments + AttachmentRows(files, uuids, id));
    match receiver
    case None => saved
    case Some(k) => saved.(inbox := s.inbox + [Row(k, id)], sent := s.sent + [Row(u, id)])
  }

  /**
   * The send handler as written behaves like `Deliver` exactly when the
   * receiver name needs no trimming. With a padded name the email and its
   * attachments are stored, but no folder row refers to the new email, so it
   * shows up in no user's listing of any folder.
   */
  lemma {:induction false} SendAsWritten(s: Store, u: UserId, p: EmailPayload, now: int, files: seq<File>, uuids: seq<string>, f: Folder, v: UserId)
    requires Consistent(s) && u < |s.users| && Composed(s, u, p, now).Ok? && |uuids| == |files|
    ensures p.receiver.Some?
    ensures var e := Composed(s, u, p, now).value;
      var t := DeliverAsWritten(s, u, e, InboxRecipientAsWritten(s.users, AsSentBy(s, u, p)), files, uuids);
      && (Trim(p.receiver.value) == p.receiver.value ==> t == Deliver(s, u, e, files, uuids))
      && (Trim(p.receiver.value) != p.receiver.value ==>
            && t.emails == s.emails + [e]
            && (forall r :: r in Table(t, f) ==> r.email != |s.emails| + 1)
            && Listing(Table(t, f), t.emails, v) == Listing(Table(s, f), s.emails, v))
  {
    AsWrittenLookupAgreesWhenTrimmed(s, u, p, now);
    var e := Composed(s, u, p, now).value;
    if Trim(p.receiver.value) != p.receiver.value {
      var t := DeliverAsWritten(s, u, e, None, files, uuids);
      assert Table(t, f) == Table(s, f);
      assert forall r :: r in Table(s, f) ==> r.email <= |s.emails| by {
        forall r | r in Table(s, f) ensures r.email <= |s.emails| {
          assert RowsRefer(s, Table(s, f));
        }
      }
      ListingIgnoresNewEmail(Table(s, f), s.emails, e, v);
    }
  }

  /** Registering an account under a fresh, trimmed username without null characters keeps the store consistent. */
  lemma AddAccountPreservesConsistent(s: Store, a: Account)
    requires Consistent(s) && !UsernameTaken(s.users, a.username) && Unpadded(a.username) && Nul !in a.username
    ensures Consistent(s.(users := s.users + [a]))
  {
    var t := s.(users := s.users + [a]);
    forall i, j | 0 <= i < j < |t.users| ensures t.users[i].username != t.users[j].username {
      if j == |s.users| {
        assert t.users[i] == s.users[i];
      }
    }
  }

  /** A successful registration stores the trimmed fields and the password's hash, and keeps the store consistent. */
  lemma RegisterEffect(s: Store, p: RegistrationPayload, hash: string -> string)
    requires Consistent(s) && ValidateRegistration(s.users, p).Ok?
    ensures CreateAccount(ValidateRegistration(s.users, p).value, hash).Some?
    ensures var a := CreateAccount(ValidateRegistration(s.users, p).value, hash).value;
      && a == Account(Trim(p.username.value), Trim(p.firstName.value), Trim(p.lastName.value),
                      Some(hash(Trim(p.password.value))))
      && Consistent(s.(users := s.users + [a]))
  {
    var a := CreateAccount(ValidateRegistration(s.users, p).value, hash).value;
    AddAccountPreservesConsistent(s, a);
  }

  /** Replacing an email by one with the same sender and receiver keeps the store consistent. */
  lemma UpdateEmailPreservesConsistent(s: Store, id: int, e: Email)
    requires Consistent(s) && HasEmail(s, id)
    requires e.sender == s.emails[id - 1].sender && e.receiver == s.emails[id - 1].receiver
    ensures Consistent(s.(emails := s.emails[id - 1 := e]))
  {
    var t := s.(emails := s.emails[id - 1 := e]);
    forall x | x in t.emails ensures x.sender < |t.users| && x.receiver < |t.users| {
      var k :| 0 <= k < |t.emails| && t.emails[k] == x;
      if k != id - 1 {
        assert x == s.emails[k];
      }
    }
  }

  // ---------------------------------------------------------------------------
  // Attachment links
  // ---------------------------------------------------------------------------

  /**
   * The links for email `id`: one `{name: url}` per attachment row of that
   * email, in table order.
   */
  /**
   * The links the attachment view returns for email `id`: one per attachment
   * row of that email, in table order, each presigned for the row's object key
   * with the fixed expiry (the presigning client is a parameter).
   */
  function Links(atts: seq<Attachment>, id: int, presign: (string, nat) -> string): (links: seq<Link>)
    ensures |links| <= |atts|
    decreases |atts|
  {
    if atts == [] then []
    else
      var a := atts[|atts| - 1];
      Links(atts[..|atts| - 1], id, presign) + (if a.email == id then [Link(a.name, presign(a.objectName, LinkExpiry))] else [])
  }

  lemma {:induction false} LinksConcat(xs: seq<Attachment>, ys: seq<Attachment>, id: int, presign: (string, nat) -> string)
    ensures Links(xs + ys, id, presign) == Links(xs, id, presign) + Links(ys, id, presign)
    decreases |ys|
  {
    if ys == [] {
      assert xs + ys == xs;
    } else {
      var n := |ys| - 1;
      assert (xs + ys)[..|xs + ys| - 1] == xs + ys[..n];
      LinksConcat(xs, ys[..n], id, presign);
    }
  }

  lemma {:induction false} LinksOfNone(atts: seq<Attachment>, id: int, presign: (string, nat) -> string)
    requires forall a :: a in atts ==> a.email != id
    ensures Links(atts, id, presign) == []
    decreases |atts|
  {
    if atts != [] {
      assert forall a :: a in atts[..|atts| - 1] ==> a in atts;
      LinksOfNone(atts[..|atts| - 1], id, presign);
      assert atts[|atts| - 1] in atts;
    }
  }

  lemma {:induction false} LinksOfAll(files: seq<File>, uuids: seq<string>, id: int, presign: (string, nat) -> string)
    requires |uuids| == |files|
    ensures var links := Links(AttachmentRows(files, uuids, id), id, presign);
      && |links| == |files|
      && forall k :: 0 <= k < |files| ==> links[k] == Link(files[k].name, presign(ObjectKey(uuids[k], files[k].name), LinkExpiry))
    decreases |files|
  {
    if files != [] {
      var n := |files| - 1;
      var rows := AttachmentRows(files, uuids, id);
      assert rows[..n] == AttachmentRows(files[..n], uuids[..n], id);
      LinksOfAll(files[..n], uuids[..n], id, presign);
    }
  }

  /**
   * After a send with n files, the new email's links are exactly n entries:
   * the i-th names the i-th file and is presigned for its key with the fixed expiry.
   */
  lemma DeliverLinks(s: Store, u: UserId, e: Email, files: seq<File>, uuids: seq<string>, presign: (string, nat) -> string)
    requires Consistent(s) && |uuids| == |files|
    ensures var links := Links(Deliver(s, u, e, files, uuids).attachments, |s.emails| + 1, presign);
      && |links| == |files|
      && forall k :: 0 <= k < |files| ==> links[k] == Link(files[k].name, presign(ObjectKey(uuids[k], files[k].name), LinkExpiry))
  {
    var id := |s.emails| + 1;
    assert forall a :: a in s.attachments ==> a.email != id by {
      assert WellFormed(s);
    }
    LinksOfNewEmail(s.attachments, files, uuids, id, presign);
    LinksOfAll(files, uuids, id, presign);
  }

  /** Attachment rows of other emails followed by a send's rows give exactly the send's links. */
  lemma LinksOfNewEmail(atts: seq<Attachment>, files: seq<File>, uuids: seq<string>, id: int, presign: (string, nat) -> string)
    requires |uuids| == |files|
    requires forall a :: a in atts ==> a.email != id
    ensures Links(atts + AttachmentRows(files, uuids, id), id, presign) == Links(AttachmentRows(files, uuids, id), id, presign)
  {
    LinksConcat(atts, AttachmentRows(files, uuids, id), id, presign);
    LinksOfNone(atts, id, presign);
  }
}
