/**
 The commands the admin page offers on a single quote request, which depend
 on the record's current status, and what each command does to the store.
 Two surfaces offer commands: the detail dialog and the per-record dropdown
 menu. Neither the dialog nor the menu is a guard at the store: the store
 accepts any status string for any id.
 */
module Actions {
  import opened Seqs
  import opened Quotes

  /** One clickable command on a record. */
  datatype Action = MarkProcessed | CancelRequest | MarkPending | Delete

  /** The status a command writes, or `None` for Delete, which writes nothing. */
  function Writes(a: Action): (r: Option<Status>)
    ensures r.None? <==> a == Delete
  {
    match a
    case MarkProcessed => Some(Processed)
    case CancelRequest => Some(Cancelled)
    case MarkPending => Some(Pending)
    case Delete => None
  }

  /** The status moves the page is meant to offer: a pending request can be
      processed or cancelled, and a processed or cancelled one can be put
      back to pending. */
  const AllowedMoves: set<(Status, Status)> := {
    (Pending, Processed), (Pending, Cancelled),
    (Processed, Pending), (Cancelled, Pending)
  }

  /** Some command in `actions` writes status `to`. */
  ghost predicate OffersMoveTo(actions: seq<Action>, to: Status) {
    exists a :: a in actions && Writes(a) == Some(to)
  }

  /** The buttons at the bottom of the detail dialog for a record whose
      status is `s`. A status outside the three names gets no button. */
  function DialogActions(s: string): (r: seq<Action>)
    ensures Delete !in r
    ensures |r| > 0 <==> ValidStatus(s)
  {
    if s == Pending.Name() then [MarkProcessed, CancelRequest]
    else if s == Processed.Name() then [MarkPending]
    else if s == Cancelled.Name() then [MarkPending]
    else []
  }

  /** The items of a record's dropdown menu for a record whose status is
      `s`: anything that is not "pending" can be marked pending, and Delete
      is always there. */
  function MenuActions(s: string): (r: seq<Action>)
    ensures Delete in r
    ensures forall a :: a in r && a != Delete ==>
      (s == Pending.Name() <==> Writes(a) != Some(Pending))
  {
    (if s == Pending.Name() then [MarkProcessed, CancelRequest] else [MarkPending]) + [Delete]
  }

  /** From a valid status, the menu offers exactly the allowed moves. */
  lemma MenuOffersAllowedMoves(from: Status, to: Status)
    ensures OffersMoveTo(MenuActions(from.Name()), to) <==> (from, to) in AllowedMoves
  {
    var r := MenuActions(from.Name());
    if (from, to) in AllowedMoves {
      if from == Pending {
        assert Writes(if to == Processed then MarkProcessed else CancelRequest) == Some(to);
      } else {
        assert MarkPending in r && Writes(MarkPending) == Some(to);
      }
    }
  }

  /** From a valid status, the dialog offers exactly the allowed moves. */
  lemma DialogOffersAllowedMoves(from: Status, to: Status)
    ensures OffersMoveTo(DialogActions(from.Name()), to) <==> (from, to) in AllowedMoves
  {
    var r := DialogActions(from.Name());
    if (from, to) in AllowedMoves {
      if from == Pending {
        assert Writes(if to == Processed then MarkProcessed else CancelRequest) == Some(to);
      } else {
        assert MarkPending in r && Writes(MarkPending) == Some(to);
      }
    }
  }

  /** For a valid status the dialog offers the menu's status commands,
      without Delete. For any other status the two disagree: the dialog
      offers nothing while the menu still offers "Mark as Pending". */
  lemma DialogIsMenuWithoutDelete(s: string)
    ensures ValidStatus(s) ==>
      forall a :: a in DialogActions(s) <==> a in MenuActions(s) && a != Delete
    ensures !ValidStatus(s) ==> DialogActions(s) == [] && MarkPending in MenuActions(s)
  {
  }

  /** What clicking command `a` on the record with id `id` does to the store. */
  function Apply(qs: seq<Quote>, id: string, a: Action): (r: seq<Quote>)
    ensures a == Delete ==> forall i :: 0 <= i < |r| ==> r[i].id != id
    ensures a == Delete ==> IsSubsequence(r, qs)
    ensures a == Delete ==> forall i :: 0 <= i < |qs| && qs[i].id != id ==> qs[i] in r
    ensures a != Delete ==> |r| == |qs| && forall i :: 0 <= i < |qs| && qs[i].id == id ==>
      ParseStatus(r[i].status) == Writes(a)
    ensures a != Delete ==> |r| == |qs| && forall i :: 0 <= i < |qs| ==>
      (qs[i].id != id ==> r[i] == qs[i]) && SameExceptStatus(qs[i], r[i])
  {
    match Writes(a)
    case None => DeleteQuote(qs, id)
    case Some(st) =>
      ParseName(st);
      UpdateQuoteStatus(qs, id, st.Name())
  }

  /** Every command keeps ids unique and every status one of the three names. */
  lemma ApplyPreservesWellFormed(qs: seq<Quote>, id: string, a: Action)
    requires WellFormed(qs)
    ensures WellFormed(Apply(qs, id, a))
  {
    match Writes(a)
    case None =>
      DeletePreservesWellFormed(qs, id);
    case Some(st) =>
      ParseName(st);
      UpdatePreservesWellFormed(qs, id, st.Name());
  }
}
