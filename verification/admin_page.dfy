/**
 The admin page as a state machine: the store's list of quote requests
 together with the search term and status filter the user has chosen.
 The listed records and the statistics cards are derived from that state on
 every render, never stored.
 */
module AdminPage {
  import opened Seqs
  import opened Text
  import opened Quotes
  import opened Actions

  /** The sample records the page starts with. */
  const SeedQuotes: seq<Quote> := [
    Quote("Q001", "Juan Dela Cruz", "juan@example.com", "+63 912 345 6789",
      "NPK 20-20-20", "100 bags",
      "Need this for my 5-hectare corn farm. Delivery to Nueva Ecija.",
      "pending", "2024-12-08T10:30:00"),
    Quote("Q002", "Maria Santos", "maria.santos@farm.com", "+63 917 654 3210",
      "Urea (46-0-0)", "200 bags",
      "Bulk order for cooperative. Need best price for 200 bags.",
      "processed", "2024-12-07T14:20:00"),
    Quote("Q003", "Pedro Reyes", "pedro.reyes@gmail.com", "+63 905 123 4567",
      "Organic Compost Blend", "50 bags",
      "Interested in organic fertilizer for vegetable garden.",
      "pending", "2024-12-08T09:15:00"),
    Quote("Q004", "Ana Garcia", "ana.garcia@agri.ph", "+63 918 765 4321",
      "DAP (18-46-0)", "150 bags",
      "For rice planting season. Need delivery schedule.",
      "cancelled", "2024-12-06T16:45:00"),
    Quote("Q005", "Roberto Cruz", "roberto@farmcoop.ph", "+63 922 333 4444",
      "Liquid NPK 10-5-5", "500 gallons",
      "Large scale operation. Looking for volume discount.",
      "processed", "2024-12-05T11:00:00")
  ]

  /** The page's domain state. */
  datatype Page = Page(quotes: seq<Quote>, searchTerm: string, statusFilter: string)

  /** The page as first rendered: the sample records, no search, filter "all". */
  const InitialPage: Page := Page(SeedQuotes, "", ALL)

  /** A user action on the page. */
  datatype Event =
    | TypeSearch(term: string)
    | PickFilter(filter: string)
    | Click(id: string, action: Action)

  /** The values the status-filter dropdown can set. */
  predicate IsFilterChoice(f: string) {
    f == ALL || ValidStatus(f)
  }

  /** The records the page lists. */
  function Listed(p: Page): seq<Quote> {
    FilteredQuotes(p.quotes, p.searchTerm, p.statusFilter)
  }

  /** The statistics cards, computed from the whole list whatever the search
      and filter are. */
  function Cards(p: Page): Stats {
    QuoteStats(p.quotes)
  }

  /** The total card counts the whole list, so it never falls below the
      number of listed records, whatever the search and filter. */
  lemma TotalBoundsListed(p: Page)
    ensures Cards(p).total == |p.quotes| >= |Listed(p)|
  {
    FilterIsSelection(p.quotes, Shown(p.searchTerm, p.statusFilter));
  }

  /** The user can trigger `e` on page `p`: a filter comes from the dropdown,
      and a click is on a listed record, choosing a command its dialog or
      its menu offers. */
  ghost predicate Possible(p: Page, e: Event) {
    match e
    case TypeSearch(_) => true
    case PickFilter(f) => IsFilterChoice(f)
    case Click(id, a) =>
      exists q :: q in Listed(p) && q.id == id
        && (a in DialogActions(q.status) || a in MenuActions(q.status))
  }

  /** The page after handling one event. */
  function Step(p: Page, e: Event): (p': Page)
    ensures e.TypeSearch? ==>
      p'.searchTerm == e.term && p'.statusFilter == p.statusFilter && p'.quotes == p.quotes
    ensures e.PickFilter? ==>
      p'.statusFilter == e.filter && p'.searchTerm == p.searchTerm && p'.quotes == p.quotes
    ensures e.TypeSearch? || e.PickFilter? ==> Cards(p') == Cards(p)
    ensures e.Click? ==> p'.searchTerm == p.searchTerm && p'.statusFilter == p.statusFilter
  {
    match e
    case TypeSearch(t) => p.(searchTerm := t)
    case PickFilter(f) => p.(statusFilter := f)
    case Click(id, a) => p.(quotes := Apply(p.quotes, id, a))
  }

  /** The page after handling a sequence of events in order. */
  function Run(p: Page, es: seq<Event>): Page
    decreases |es|
  {
    if |es| == 0 then p else Run(Step(p, es[0]), es[1..])
  }

  /** The sample records satisfy the store's invariant. */
  lemma SeedWellFormed()
    ensures WellFormed(SeedQuotes)
  {
  }

  /** Every event keeps the store well formed. */
  lemma StepPreservesWellFormed(p: Page, e: Event)
    requires WellFormed(p.quotes)
    ensures WellFormed(Step(p, e).quotes)
  {
    if e.Click? {
      ApplyPreservesWellFormed(p.quotes, e.id, e.action);
    }
  }

  /** Every sequence of events keeps the store well formed. */
  lemma {:induction false} RunPreservesWellFormed(p: Page, es: seq<Event>)
    requires WellFormed(p.quotes)
    ensures WellFormed(Run(p, es).quotes)
    decreases |es|
  {
    if |es| > 0 {
      StepPreservesWellFormed(p, es[0]);
      RunPreservesWellFormed(Step(p, es[0]), es[1..]);
    }
  }

  /** Every page reachable from the first render has unique ids and only the
      three status names, whatever the user does. */
  lemma ReachableWellFormed(es: seq<Event>)
    ensures WellFormed(Run(InitialPage, es).quotes)
  {
    SeedWellFormed();
    RunPreservesWellFormed(InitialPage, es);
  }

  /** A possible status click moves the clicked record along an allowed move
      and leaves every other record as it was. */
  lemma ClickFollowsAllowedMove(p: Page, id: string, a: Action, i: int)
    requires WellFormed(p.quotes)
    requires Possible(p, Click(id, a))
    requires a != Delete
    requires 0 <= i < |p.quotes| && p.quotes[i].id == id
    ensures var p' := Step(p, Click(id, a));
      && ParseStatus(p.quotes[i].status).Some?
      && ParseStatus(p'.quotes[i].status).Some?
      && (ParseStatus(p.quotes[i].status).value,
          ParseStatus(p'.quotes[i].status).value) in AllowedMoves
    ensures var p' := Step(p, Click(id, a));
      forall j :: 0 <= j < |p.quotes| && j != i ==> p'.quotes[j] == p.quotes[j]
  {
    var q :| q in Listed(p) && q.id == id
      && (a in DialogActions(q.status) || a in MenuActions(q.status));
    var k :| 0 <= k < |p.quotes| && p.quotes[k] == q;
    assert IdOf(p.quotes[k]) == IdOf(p.quotes[i]);
    var from := ParseStatus(q.status).value;
    var to := Writes(a).value;
    assert OffersMoveTo(DialogActions(from.Name()), to) || OffersMoveTo(MenuActions(from.Name()), to);
    DialogOffersAllowedMoves(from, to);
    MenuOffersAllowedMoves(from, to);
    forall j | 0 <= j < |p.quotes| && j != i
      ensures p.quotes[j].id != id
    {
      if j < i {
        assert IdOf(p.quotes[j]) != IdOf(p.quotes[i]);
      } else {
        assert IdOf(p.quotes[i]) != IdOf(p.quotes[j]);
      }
    }
  }

  /** A possible Delete click on a well-formed store removes exactly one record. */
  lemma ClickDeleteRemovesOne(p: Page, id: string)
    requires WellFormed(p.quotes)
    requires Possible(p, Click(id, Delete))
    ensures |Step(p, Click(id, Delete)).quotes| == |p.quotes| - 1
  {
    var q :| q in Listed(p) && q.id == id
      && (Delete in DialogActions(q.status) || Delete in MenuActions(q.status));
    var k :| 0 <= k < |p.quotes| && p.quotes[k] == q;
    assert Ids(p.quotes)[k] == id;
    DeleteUniqueRemovesOne(p.quotes, id);
  }

  /** On first render the cards (computed from the sample list) read:
      5 requests, 2 pending, 2 processed and 1 cancelled. */
  lemma SeedStats()
    ensures QuoteStats(SeedQuotes) == Stats(5, 2, 2, 1)
  {
    var ss := Statuses(SeedQuotes);
    assert ss == ["pending", "processed", "pending", "cancelled", "processed"];
    SampleStatusCounts(ss);
  }

  lemma SampleStatusCounts(ss: seq<string>)
    requires ss == ["pending", "processed", "pending", "cancelled", "processed"]
    ensures multiset(ss)["pending"] == 2
    ensures multiset(ss)["processed"] == 2
    ensures multiset(ss)["cancelled"] == 1
  {
    assert ss == ["pending"] + ["processed"] + ["pending"] + ["cancelled"] + ["processed"];
  }

  /** Sample request Q001 does not match the search "maria": its name,
      product and id have no "m" and its email has no "r". */
  lemma Q001MissesMaria()
    ensures !SearchHit(SeedQuotes[0], "maria")
  {
    Q001Fields();
    Q001FieldsMissMaria();
    LowerFixesLowercase("maria");
  }

  lemma Q001FieldsMissMaria()
    ensures !IsSubstring("maria", Lower("Juan Dela Cruz"))
    ensures !IsSubstring("maria", Lower("juan@example.com"))
    ensures !IsSubstring("maria", Lower("NPK 20-20-20"))
    ensures !IsSubstring("maria", Lower("Q001"))
  {
    MissingLetterNotSubstring("Juan Dela Cruz", "maria", 'm');
    MissingLetterNotSubstring("juan@example.com", "maria", 'r');
    MissingLetterNotSubstring("NPK 20-20-20", "maria", 'm');
    MissingLetterNotSubstring("Q001", "maria", 'm');
  }

  lemma Q001Fields()
    ensures var q := SeedQuotes[0];
      && q.name == "Juan Dela Cruz" && q.email == "juan@example.com"
      && q.product == "NPK 20-20-20" && q.id == "Q001"
  {
  }

  /** Sample request Q003 does not match the search "maria", although its
      email contains "ma" and its product contains every letter of "maria". */
  lemma Q003MissesMaria()
    ensures !SearchHit(SeedQuotes[2], "maria")
  {
    Q003Fields();
    LowerFixesLowercase("maria");
    MissingLetterNotSubstring("Pedro Reyes", "maria", 'm');
    MissingLetterNotSubstring("Q003", "maria", 'm');
    Q003EmailMissesMaria();
    Q003ProductMissesMaria();
  }

  lemma Q003Fields()
    ensures var q := SeedQuotes[2];
      && q.name == "Pedro Reyes" && q.email == "pedro.reyes@gmail.com"
      && q.product == "Organic Compost Blend" && q.id == "Q003"
  {
  }

  /** The email splits at '.', '@' and '.' (none of them in "maria") into
      pieces each lacking a letter of "maria". */
  lemma Q003EmailMissesMaria()
    ensures !IsSubstring("maria", Lower("pedro.reyes@gmail.com"))
  {
    var m := "maria";
    MissingCharNotSubstring("pedro", m, 'm');
    MissingCharNotSubstring("reyes", m, 'm');
    MissingCharNotSubstring("gmail", m, 'r');
    MissingCharNotSubstring("com", m, 'a');
    SeparatorNotSubstring("gmail", '.', "com", m);
    assert "gmail" + ['.'] + "com" == "gmail.com";
    SeparatorNotSubstring("reyes", '@', "gmail.com", m);
    assert "reyes" + ['@'] + "gmail.com" == "reyes@gmail.com";
    SeparatorNotSubstring("pedro", '.', "reyes@gmail.com", m);
    assert "pedro" + ['.'] + "reyes@gmail.com" == "pedro.reyes@gmail.com";
    LowerFixesLowercase("pedro.reyes@gmail.com");
  }

  /** The product splits at its spaces into words each lacking a letter of "maria". */
  lemma Q003ProductMissesMaria()
    ensures !IsSubstring("maria", Lower("Organic Compost Blend"))
  {
    var m := "maria";
    var organic, compost, blend := "Organic", "Compost", "Blend";
    MissingLetterNotSubstring(organic, m, 'm');
    MissingLetterNotSubstring(compost, m, 'a');
    MissingLetterNotSubstring(blend, m, 'm');
    LowerFixesLowercase([' ']);
    LowerAppend(compost, [' ']);
    LowerAppend(compost + [' '], blend);
    SeparatorNotSubstring(Lower(compost), ' ', Lower(blend), m);
    assert compost + [' '] + blend == "Compost Blend";
    LowerAppend(organic, [' ']);
    LowerAppend(organic + [' '], "Compost Blend");
    SeparatorNotSubstring(Lower(organic), ' ', Lower("Compost Blend"), m);
    assert organic + [' '] + "Compost Blend" == "Organic Compost Blend";
  }

  /** No pending sample request matches the search "maria", so that search
      under the "pending" filter lists nothing. */
  lemma SeedSearchMariaPending()
    ensures Listed(Page(SeedQuotes, "maria", Pending.Name())) == []
  {
    var shown := Shown("maria", Pending.Name());
    forall i | 0 <= i < |SeedQuotes|
      ensures !shown(SeedQuotes[i])
    {
      ShownIsWanted(SeedQuotes[i], "maria", Pending.Name());
      if i == 0 {
        Q001MissesMaria();
      } else if i == 2 {
        Q003MissesMaria();
      } else {
        assert SeedQuotes[i].status != Pending.Name();
      }
    }
    FilterNonePass(SeedQuotes, shown);
  }
}
