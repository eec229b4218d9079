/**
 The quote-request store behind the admin page: the record shape, the
 three status names, and the four computations the page performs on the
 in-memory list of records (status update, delete, search/status filter,
 per-status statistics). Every operation is a pure function from the old
 list to the new one; the page replaces its list with the result.
 */
module Quotes {
  import opened Seqs
  import opened Text

  /** One customer quote request. Every field is free text; `date` is an
      ISO-8601 timestamp that no operation reads or writes. */
  datatype Quote = Quote(
    id: string,
    name: string,
    email: string,
    phone: string,
    product: string,
    quantity: string,
    message: string,
    status: string,
    date: string
  )

  function IdOf(q: Quote): string { q.id }
  function StatusOf(q: Quote): string { q.status }

  /** The ids of the list, in list order. */
  function Ids(qs: seq<Quote>): seq<string> { Project(qs, IdOf) }

  /** The statuses of the list, in list order. */
  function Statuses(qs: seq<Quote>): seq<string> { Project(qs, StatusOf) }

  /** No two records share an id. */
  ghost predicate UniqueIds(qs: seq<Quote>) {
    DistinctBy(qs, IdOf)
  }

  /** The three lifecycle stages a quote request can be in. */
  datatype Status = Pending | Processed | Cancelled {
    /** The string the page stores in a record's `status` field. */
    function Name(): string {
      match this
      case Pending => "pending"
      case Processed => "processed"
      case Cancelled => "cancelled"
    }
  }

  datatype Option<T> = None | Some(value: T)

  /** Reads a stored status string back as a `Status`; any other string is `None`. */
  function ParseStatus(s: string): (r: Option<Status>)
    ensures r.Some? ==> r.value.Name() == s
    ensures r.None? ==> forall st: Status :: st.Name() != s
  {
    if s == "pending" then Some(Pending)
    else if s == "processed" then Some(Processed)
    else if s == "cancelled" then Some(Cancelled)
    else None
  }

  /** Every status name parses back to the status it names. */
  lemma ParseName(st: Status)
    ensures ParseStatus(st.Name()) == Some(st)
  {
  }

  /** `s` is one of "pending", "processed", "cancelled". */
  predicate ValidStatus(s: string) {
    ParseStatus(s).Some?
  }

  /** Every record's status is one of the three names. */
  ghost predicate AllStatusesValid(qs: seq<Quote>) {
    forall i :: 0 <= i < |qs| ==> ValidStatus(qs[i].status)
  }

  /** The store's invariant: ids are unique and every status is valid. */
  ghost predicate WellFormed(qs: seq<Quote>) {
    UniqueIds(qs) && AllStatusesValid(qs)
  }

  // ---------------------------------------------------------------------
  // Status update

  /** `b` equals `a` in every field except possibly `status`. */
  predicate SameExceptStatus(a: Quote, b: Quote) {
    && a.id == b.id && a.name == b.name && a.email == b.email
    && a.phone == b.phone && a.product == b.product && a.quantity == b.quantity
    && a.message == b.message && a.date == b.date
  }

  /** `updateQuoteStatus(id, newStatus)`: every record whose id is `id` gets
      `newStatus` as its status; all other records are kept as they are. Any
      string is accepted as the new status. */
  function UpdateQuoteStatus(qs: seq<Quote>, id: string, newStatus: string): (r: seq<Quote>)
    ensures |r| == |qs|
    ensures forall i :: 0 <= i < |qs| && qs[i].id != id ==> r[i] == qs[i]
    ensures forall i :: 0 <= i < |qs| && qs[i].id == id ==>
      r[i].status == newStatus && SameExceptStatus(qs[i], r[i])
    decreases |qs|
  {
    if |qs| == 0 then []
    else
      var last := qs[|qs| - 1];
      UpdateQuoteStatus(qs[..|qs| - 1], id, newStatus)
        + [if last.id == id then last.(status := newStatus) else last]
  }

  /** Updating an id that no record has leaves the list as it was. */
  lemma UpdateAbsentIsNoop(qs: seq<Quote>, id: string, newStatus: string)
    requires id !in Ids(qs)
    ensures UpdateQuoteStatus(qs, id, newStatus) == qs
  {
    var r := UpdateQuoteStatus(qs, id, newStatus);
    assert forall i :: 0 <= i < |qs| ==> Ids(qs)[i] == qs[i].id;
  }

  /** A status update never changes the ids or their order. */
  lemma UpdateKeepsIds(qs: seq<Quote>, id: string, newStatus: string)
    ensures Ids(UpdateQuoteStatus(qs, id, newStatus)) == Ids(qs)
  {
  }

  /** A status update to a valid status keeps the store well formed. */
  lemma UpdatePreservesWellFormed(qs: seq<Quote>, id: string, newStatus: string)
    requires WellFormed(qs)
    requires ValidStatus(newStatus)
    ensures WellFormed(UpdateQuoteStatus(qs, id, newStatus))
  {
    var r := UpdateQuoteStatus(qs, id, newStatus);
    assert forall i :: 0 <= i < |r| ==> IdOf(r[i]) == IdOf(qs[i]);
  }

  // ---------------------------------------------------------------------
  // Delete

  /** The predicate "the record's id is `id`". */
  function HasId(id: string): Quote -> bool { KeyIs(IdOf, id) }

  /** `deleteQuote(id)`: keep exactly the records whose id is not `id`, in
      their original order. */
  function DeleteQuote(qs: seq<Quote>, id: string): (r: seq<Quote>)
    ensures forall i :: 0 <= i < |r| ==> r[i].id != id && r[i] in qs
    ensures forall i :: 0 <= i < |qs| && qs[i].id != id ==> qs[i] in r
    ensures IsSubsequence(r, qs)
    ensures |r| == |qs| - multiset(Ids(qs))[id]
  {
    FilterIsSubsequence(qs, Not(HasId(id)));
    FilterPartition(qs, HasId(id));
    FilterKeyIsMultiplicity(qs, IdOf, id);
    Filter(qs, Not(HasId(id)))
  }

  /** Deleting an id that no record has leaves the list as it was. */
  lemma DeleteAbsentIsNoop(qs: seq<Quote>, id: string)
    requires id !in Ids(qs)
    ensures DeleteQuote(qs, id) == qs
  {
    assert forall i :: 0 <= i < |qs| ==> Ids(qs)[i] == qs[i].id;
    FilterAllPass(qs, Not(HasId(id)));
  }

  /** With unique ids, deleting a present id removes exactly one record. */
  lemma DeleteUniqueRemovesOne(qs: seq<Quote>, id: string)
    requires UniqueIds(qs)
    requires id in Ids(qs)
    ensures |DeleteQuote(qs, id)| == |qs| - 1
  {
    AtMostOneWithKey(qs, IdOf, id);
    FilterKeyIsMultiplicity(qs, IdOf, id);
  }

  /** Deleting from a list with unique ids leaves a list with unique ids. */
  lemma DeleteKeepsUniqueIds(qs: seq<Quote>, id: string)
    requires UniqueIds(qs)
    ensures UniqueIds(DeleteQuote(qs, id))
  {
    FilterKeepsDistinct(qs, Not(HasId(id)), IdOf);
  }

  /** Deleting keeps the store well formed. */
  lemma DeletePreservesWellFormed(qs: seq<Quote>, id: string)
    requires WellFormed(qs)
    ensures WellFormed(DeleteQuote(qs, id))
  {
    DeleteKeepsUniqueIds(qs, id);
    var r := DeleteQuote(qs, id);
    forall i | 0 <= i < |r|
      ensures ValidStatus(r[i].status)
    {
      var j :| 0 <= j < |qs| && qs[j] == r[i];
    }
  }

  // ---------------------------------------------------------------------
  // Search and status filter

  /** The status-filter value that lets every status through. */
  const ALL: string := "all"

  /** Case-insensitive match of the search term against name, email, product
      or id, each compared in lower case. */
  predicate MatchesSearch(q: Quote, term: string) {
    var t := Lower(term);
    || Includes(Lower(q.name), t)
    || Includes(Lower(q.email), t)
    || Includes(Lower(q.product), t)
    || Includes(Lower(q.id), t)
  }

  /** The record passes the status filter. */
  predicate MatchesStatus(q: Quote, statusFilter: string) {
    statusFilter == ALL || q.status == statusFilter
  }

  /** The predicate the page filters its list with. */
  function Shown(term: string, statusFilter: string): Quote -> bool {
    q => MatchesSearch(q, term) && MatchesStatus(q, statusFilter)
  }

  /** The reference meaning of a search hit: the lower-cased term occurs in
      the lower-cased name, email, product or id. */
  ghost predicate SearchHit(q: Quote, term: string) {
    var t := Lower(term);
    || IsSubstring(t, Lower(q.name))
    || IsSubstring(t, Lower(q.email))
    || IsSubstring(t, Lower(q.product))
    || IsSubstring(t, Lower(q.id))
  }

  /** The reference meaning of "shown": the status filter passes and the
      search hits. */
  ghost predicate Wanted(q: Quote, term: string, statusFilter: string) {
    (statusFilter == ALL || q.status == statusFilter) && SearchHit(q, term)
  }

  lemma ShownIsWanted(q: Quote, term: string, statusFilter: string)
    ensures Shown(term, statusFilter)(q) <==> Wanted(q, term, statusFilter)
  {
    var t := Lower(term);
    IncludesIsSubstring(Lower(q.name), t);
    IncludesIsSubstring(Lower(q.email), t);
    IncludesIsSubstring(Lower(q.product), t);
    IncludesIsSubstring(Lower(q.id), t);
  }

  /** `filteredQuotes`: the records the page lists for a search term and a
      status filter. A record is listed exactly when it is wanted, and the
      list keeps the store's order. */
  function FilteredQuotes(qs: seq<Quote>, term: string, statusFilter: string): (r: seq<Quote>)
    ensures forall q :: q in r <==> q in qs && Wanted(q, term, statusFilter)
    ensures IsSubsequence(r, qs)
    ensures |r| <= |qs|
  {
    forall q ensures Shown(term, statusFilter)(q) <==> Wanted(q, term, statusFilter) {
      ShownIsWanted(q, term, statusFilter);
    }
    FilterIsSubsequence(qs, Shown(term, statusFilter));
    Filter(qs, Shown(term, statusFilter))
  }

  /** Filtering the filtered list again with the same term and filter changes nothing. */
  lemma FilterAgainIsNoop(qs: seq<Quote>, term: string, statusFilter: string)
    ensures FilteredQuotes(FilteredQuotes(qs, term, statusFilter), term, statusFilter)
      == FilteredQuotes(qs, term, statusFilter)
  {
    FilterIdempotent(qs, Shown(term, statusFilter));
  }

  /** With an empty search and the "all" filter the page lists every record. */
  lemma EmptySearchShowsAll(qs: seq<Quote>)
    ensures FilteredQuotes(qs, "", ALL) == qs
  {
    forall i | 0 <= i < |qs|
      ensures Shown("", ALL)(qs[i])
    {
      EmptyIncludedEverywhere(Lower(qs[i].name));
    }
    FilterAllPass(qs, Shown("", ALL));
  }

  /** With an empty search, a status filter other than "all" lists exactly
      the records in that status, in store order. */
  lemma EmptySearchSelectsStatus(qs: seq<Quote>, s: string)
    requires s != ALL
    ensures FilteredQuotes(qs, "", s) == Filter(qs, HasStatus(s))
  {
    forall i | 0 <= i < |qs|
      ensures Shown("", s)(qs[i]) == HasStatus(s)(qs[i])
    {
      EmptyIncludedEverywhere(Lower(qs[i].name));
      assert MatchesSearch(qs[i], "");
      assert HasStatus(s) == KeyIs(StatusOf, s);
      assert KeyIs(StatusOf, s)(qs[i]) == (StatusOf(qs[i]) == s);
    }
    FilterAgreeing(qs, Shown("", s), HasStatus(s));
  }

  /** The search ignores the case of the term: any term and its lower-case
      form list the same records. */
  lemma SearchIgnoresTermCase(qs: seq<Quote>, term: string, statusFilter: string)
    ensures FilteredQuotes(qs, Lower(term), statusFilter) == FilteredQuotes(qs, term, statusFilter)
  {
    LowerIdempotent(term);
    FilterAgreeing(qs, Shown(Lower(term), statusFilter), Shown(term, statusFilter));
  }

  // ---------------------------------------------------------------------
  // Statistics

  /** The four numbers on the statistics cards. */
  datatype Stats = Stats(total: nat, pending: nat, processed: nat, cancelled: nat)

  /** The predicate "the record's status is `s`". */
  function HasStatus(s: string): Quote -> bool { KeyIs(StatusOf, s) }

  /** `stats`: the size of the whole list and the number of records in each
      status. The list given is the store's, never the filtered one. */
  function QuoteStats(qs: seq<Quote>): (r: Stats)
    ensures r.total == |qs|
    ensures r.pending == multiset(Statuses(qs))[Pending.Name()]
    ensures r.processed == multiset(Statuses(qs))[Processed.Name()]
    ensures r.cancelled == multiset(Statuses(qs))[Cancelled.Name()]
  {
    FilterKeyIsMultiplicity(qs, StatusOf, Pending.Name());
    FilterKeyIsMultiplicity(qs, StatusOf, Processed.Name());
    FilterKeyIsMultiplicity(qs, StatusOf, Cancelled.Name());
    Stats(
      |qs|,
      |Filter(qs, HasStatus(Pending.Name()))|,
      |Filter(qs, HasStatus(Processed.Name()))|,
      |Filter(qs, HasStatus(Cancelled.Name()))|)
  }

  /** The count on a status card equals the number of records the page lists
      for an empty search under that status filter. */
  lemma StatusCardMatchesListing(qs: seq<Quote>, st: Status)
    ensures |FilteredQuotes(qs, "", st.Name())| == multiset(Statuses(qs))[st.Name()]
  {
    EmptySearchSelectsStatus(qs, st.Name());
    FilterKeyIsMultiplicity(qs, StatusOf, st.Name());
  }

  /** In a list of valid status names, the three names' multiplicities add
      up to the length of the list. */
  lemma {:induction false} ValidNamesPartition(ss: seq<string>)
    requires forall i :: 0 <= i < |ss| ==> ValidStatus(ss[i])
    ensures multiset(ss)[Pending.Name()] + multiset(ss)[Processed.Name()]
      + multiset(ss)[Cancelled.Name()] == |ss|
    decreases |ss|
  {
    if |ss| > 0 {
      var ss' := ss[..|ss| - 1];
      ValidNamesPartition(ss');
      assert ss == ss' + [ss[|ss| - 1]];
    }
  }

  /** When every status is valid, the three status counts add up to the total. */
  lemma StatusCountsSumToTotal(qs: seq<Quote>)
    requires AllStatusesValid(qs)
    ensures var st := QuoteStats(qs); st.pending + st.processed + st.cancelled == st.total
  {
    ValidNamesPartition(Statuses(qs));
  }
}
