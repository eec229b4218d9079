# Quote-request administration: a verified model

The admin page of the fertilizer shop's site (`src/pages/AdminQuotes.tsx`)
keeps customer quote requests in an in-memory list. An administrator can:

- search the list by name, email, product or id;
- narrow the list to one status;
- read four statistics cards;
- move a request between the statuses "pending", "processed" and "cancelled";
- delete a request.

This project models that store and proves properties about it. The model is
split into five modules:

| file | module | models |
|---|---|---|
| `seqs.dfy` | `Seqs` | `Array.prototype.filter` as an order-preserving selection. Delete, search and the per-status counts are all built on it. |
| `text.dfy` | `Text` | `toLowerCase` and `includes`, with a reference definition of "is a substring of". |
| `quotes.dfy` | `Quotes` | The record, the three status names, and the four store computations: `updateQuoteStatus`, `deleteQuote`, `filteredQuotes` and `stats`. |
| `actions.dfy` | `Actions` | The commands the detail dialog and the dropdown menu offer for each status, and what each command writes. |
| `admin_page.dfy` | `AdminPage` | The page as a state machine over (list, search term, status filter). It starts from the five sample records, and user events drive it. |

The store does not guard anything itself. `updateQuoteStatus` writes any
string under any id, and `deleteQuote` removes every record with the id. The
model keeps that. Any status discipline comes from the UI, so it is stated
separately:

- `Actions` lists which commands each status offers.
- `AdminPage.Possible` says which clicks a user can actually make.

The invariant the page keeps is `Quotes.WellFormed`: ids are unique and
every status is one of the three names. It holds for the sample list and for
every list reachable from it.

The search test "the term is empty, or it is a substring" is the same as
"it is a substring", because the empty string is a substring of everything.
The code has no separate empty-term branch, and neither does the model.
`Quotes.EmptySearchShowsAll` shows the two readings agree.

The dialog and the menu disagree on one input: a record whose status is not
one of the three names. Such a record gets no status button in the dialog,
but its menu still offers "Mark as Pending". No reachable record has such a
status, so this is not a defect; `Actions.DialogIsMenuWithoutDelete` states it.

## Model

| member | source | states |
|---|---|---|
| Quotes.UpdateQuoteStatus | src/pages/AdminQuotes.tsx:134-138 | The list keeps its length and order. Every record with the id gets the new status and keeps all its other fields. Every other record is unchanged. |
| Quotes.UpdateAbsentIsNoop | src/pages/AdminQuotes.tsx:136-137 | Updating an id that no record has leaves the list unchanged. |
| Quotes.UpdateKeepsIds | src/pages/AdminQuotes.tsx:136-137 | A status update never changes the ids or their order. |
| Quotes.UpdatePreservesWellFormed | src/pages/AdminQuotes.tsx:134-138 | Updating to one of the three status names keeps ids unique and all statuses valid. |
| Quotes.ParseStatus | src/pages/AdminQuotes.tsx:159-161 | A stored status string is read back as a status only when it is that status's name. Any other string names no status. |
| Quotes.DeleteQuote | src/pages/AdminQuotes.tsx:140-142 | Exactly the records whose id differs are kept, in their original order. The list shrinks by the number of records that carry the id. |
| Quotes.DeleteAbsentIsNoop | src/pages/AdminQuotes.tsx:140-142 | Deleting an id that no record has leaves the list unchanged. |
| Quotes.DeleteUniqueRemovesOne | src/pages/AdminQuotes.tsx:140-142 | When ids are unique and the id is present, exactly one record is removed. |
| Quotes.DeleteKeepsUniqueIds | src/pages/AdminQuotes.tsx:140-142 | Deleting keeps the ids duplicate-free. |
| Quotes.DeletePreservesWellFormed | src/pages/AdminQuotes.tsx:140-142 | Deleting keeps ids unique and all statuses valid. |
| Quotes.ShownIsWanted | src/pages/AdminQuotes.tsx:144-155 | The page's filter predicate accepts a record exactly when it passes the status filter, and the lower-cased term occurs in one of its four lower-cased searched fields. |
| Quotes.FilteredQuotes | src/pages/AdminQuotes.tsx:144-155 | A record is listed if and only if it is in the store and wanted. The listing is a subsequence of the store and never longer than it. |
| Quotes.FilterAgainIsNoop | src/pages/AdminQuotes.tsx:144-155 | Applying the same search and filter to the listing again changes nothing. |
| Quotes.EmptySearchShowsAll | src/pages/AdminQuotes.tsx:144-155 | With an empty term and filter "all", the listing is the whole store. |
| Quotes.EmptySearchSelectsStatus | src/pages/AdminQuotes.tsx:144-155 | With an empty term and a status filter, the listing is exactly the records in that status, in store order. |
| Quotes.SearchIgnoresTermCase | src/pages/AdminQuotes.tsx:145-149 | A term and its lower-case form list the same records. |
| Quotes.QuoteStats | src/pages/AdminQuotes.tsx:157-162 | The total is the list's length. Each status card is the multiplicity of that status name among the records' statuses. |
| Quotes.StatusCardMatchesListing | src/pages/AdminQuotes.tsx:144-162 | A status card equals the length of the listing for an empty search under that status filter. |
| Quotes.ValidNamesPartition | src/pages/AdminQuotes.tsx:157-162 | In a list of valid status names, the three names' multiplicities add up to the length. |
| Quotes.StatusCountsSumToTotal | src/pages/AdminQuotes.tsx:157-162 | When every status is valid, pending + processed + cancelled equals the total. |
| Text.LowerChar | src/pages/AdminQuotes.tsx:146-149 | The lower-case form of one character is never a capital. Capitals move to their lower-case letter, and every other character is kept. |
| Text.Lower | src/pages/AdminQuotes.tsx:146-149 | Lower-casing keeps the length, leaves no capital, keeps every non-capital and maps each capital to its lower-case letter. |
| Text.LowerIdempotent | src/pages/AdminQuotes.tsx:146-149 | Lower-casing twice is lower-casing once. |
| Text.LowerAppend | src/pages/AdminQuotes.tsx:146-149 | Lower-casing distributes over concatenation. |
| Text.IncludesIsSubstring | src/pages/AdminQuotes.tsx:146-149 | The left-to-right search answers true if and only if the needle occurs as a contiguous block of the haystack. |
| Text.EmptyIncludedEverywhere | src/pages/AdminQuotes.tsx:146-149 | An empty term is found in every string. |
| Text.MissingCharNotSubstring | src/pages/AdminQuotes.tsx:146-149 | A needle with a character the haystack lacks does not occur in it. |
| Text.SeparatorNotSubstring | src/pages/AdminQuotes.tsx:146-149 | A needle misses `a + [c] + b` when it lacks `c` and misses both `a` and `b`. |
| Text.MissingLetterNotSubstring | src/pages/AdminQuotes.tsx:146-149 | A needle letter that the haystack lacks in both cases rules out a case-insensitive match. |
| Seqs.Filter | src/pages/AdminQuotes.tsx:141 | The result is no longer than the input. Every kept element is in the input and passes. Every passing element is kept. |
| Seqs.Selected | src/pages/AdminQuotes.tsx:144 | The positions are strictly increasing, and they are exactly the positions whose element passes. |
| Seqs.FilterIsSelection | src/pages/AdminQuotes.tsx:141 | The filtered sequence is the input read at the passing positions, in order. |
| Seqs.FilterIsSubsequence | src/pages/AdminQuotes.tsx:141 | The filtered sequence is a subsequence of its input. |
| Seqs.FilterAllPass | src/pages/AdminQuotes.tsx:141 | When every element passes, filtering returns the input. |
| Seqs.FilterAgreeing | src/pages/AdminQuotes.tsx:144 | Predicates that agree on every element select the same sequence. |
| Seqs.FilterIdempotent | src/pages/AdminQuotes.tsx:144 | Filtering twice with one predicate is filtering once. |
| Seqs.FilterPartition | src/pages/AdminQuotes.tsx:141 | A predicate and its complement split the input's length between them. |
| Seqs.FilterKeyIsMultiplicity | src/pages/AdminQuotes.tsx:159-161 | The number of elements kept by "key equals v" is the multiplicity of v among the keys. |
| Seqs.FilterKeepsDistinct | src/pages/AdminQuotes.tsx:141 | Filtering keeps a distinct key distinct. |
| Seqs.AtMostOneWithKey | src/pages/AdminQuotes.tsx:141 | Under a distinct key, at most one element carries a given key value. |
| Actions.Writes | src/pages/AdminQuotes.tsx:446-546 | Delete is the only command that writes no status. |
| Actions.DialogActions | src/pages/AdminQuotes.tsx:446-498 | The dialog never offers Delete. It offers some command if and only if the status is one of the three names. |
| Actions.MenuActions | src/pages/AdminQuotes.tsx:511-546 | The menu always offers Delete. A status command in it writes "pending" if and only if the record is not pending. |
| Actions.MenuOffersAllowedMoves | src/pages/AdminQuotes.tsx:511-537 | From each status, the menu offers a command moving to `to` if and only if the move is one of pending→processed, pending→cancelled, processed→pending or cancelled→pending. |
| Actions.DialogOffersAllowedMoves | src/pages/AdminQuotes.tsx:446-498 | From each status, the dialog offers exactly the same four moves. |
| Actions.DialogIsMenuWithoutDelete | src/pages/AdminQuotes.tsx:446-546 | For a valid status, the dialog offers the menu's commands minus Delete. For any other status, the dialog offers nothing while the menu offers "Mark as Pending". |
| Actions.Apply | src/pages/AdminQuotes.tsx:446-546 | Delete leaves no record with the id and keeps every other record, in order. Any other command keeps the length, gives the matching records the status the command writes and changes nothing else: other records stay as they were, and the clicked record keeps all its other fields. |
| Actions.ApplyPreservesWellFormed | src/pages/AdminQuotes.tsx:446-546 | Every command keeps ids unique and statuses valid. |
| AdminPage.TotalBoundsListed | src/pages/AdminQuotes.tsx:157-158 | The total card counts the whole store, so it is never below the number of listed records. |
| AdminPage.Step | src/pages/AdminQuotes.tsx:236-270 | Typing sets the search term and picking sets the filter; neither touches the list or anything else, so the cards stay as they were. A click never changes the search term or the filter. |
| AdminPage.SeedWellFormed | src/pages/AdminQuotes.tsx:43-99 | The sample records have unique ids and valid statuses. |
| AdminPage.StepPreservesWellFormed | src/pages/AdminQuotes.tsx:134-142 | Every event keeps the store well formed. |
| AdminPage.RunPreservesWellFormed | src/pages/AdminQuotes.tsx:134-142 | Every sequence of events keeps the store well formed. |
| AdminPage.ReachableWellFormed | src/pages/AdminQuotes.tsx:43-104 | Every store reachable from the first render has unique ids and only the three status names. |
| AdminPage.ClickFollowsAllowedMove | src/pages/AdminQuotes.tsx:446-537 | A status click a user can make moves the clicked record along an allowed move and leaves every other record as it was. |
| AdminPage.ClickDeleteRemovesOne | src/pages/AdminQuotes.tsx:540-546 | A Delete a user can make removes exactly one record. |
| AdminPage.SeedStats | src/pages/AdminQuotes.tsx:43-99 | The statistics of the sample list, which are the cards on first render, read total 5, pending 2, processed 2, cancelled 1. |
| AdminPage.Q001MissesMaria | src/pages/AdminQuotes.tsx:44-54 | Sample request Q001 does not match the search "maria". |
| AdminPage.Q003MissesMaria | src/pages/AdminQuotes.tsx:66-76 | Sample request Q003 does not match the search "maria". |
| AdminPage.SeedSearchMariaPending | src/pages/AdminQuotes.tsx:144-155 | On the sample list, the search "maria" under the "pending" filter lists nothing. |

## Left out

- Rendering: the JSX layout, badges, icons and styles (`getStatusColor` and `getStatusIcon`, lines 108-132) have no effect on the store. The status names they switch on are the ones `Status.Name` gives.
- `formatDate` (lines 164-173): date formatting is locale-dependent presentation, and no operation reads `date`.
- The selected-quote and dialog-open state (lines 105-106): it decides only which record the dialog shows. The dialog's commands are modelled by `Actions.DialogActions`.
- Text.LowerChar, Text.Lower: fold only the ASCII letters A-Z. JavaScript's `toLowerCase` folds all of Unicode, and `includes` works on UTF-16 code units, whereas the model's strings are sequences of Unicode scalar values.
- Text.LowerAppend: holds for the ASCII fold only. JavaScript lower-cases a final capital sigma by its context ("ΑΣ" becomes "ας", while "Σ" alone becomes "σ"), so there lower-casing does not distribute over concatenation.
- AdminPage.Run: applies every event it is given, including clicks no user could make. `Possible` restricts clicks only where a lemma needs it. The invariants are proved for all events, which covers the events a user can make.
- React state batching: each event is modelled as an atomic replacement of the list.
- The other pages and components of the site are not part of this model.
