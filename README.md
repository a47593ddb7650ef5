# Order reconciliation of the food-delivery app, in Dafny

This project models the order-handling core of a food-delivery web app: its
Node/Express backend and its React storefront. It also proves properties of
that model. The model covers five things:

- **Duplicate reconciliation.** Before the admin list or a user's list is
  served, the backend takes the orders created in the last two minutes, oldest
  first. It gives each one a *signature*: the user, the amount, the items
  normalised and sorted, and the delivery address with all nine fields
  defaulted. It walks the orders, keeping one representative per cluster of
  equal signatures within the two-minute window. A paid order beats an unpaid
  one; otherwise the earlier order wins. The losers are then deleted. An
  offline script applies the same walk to every stored order.
- **Status guard.** `updateStatus` maps statuses through the priority table
  "Food Processing" < "Out for delivery" < "Delivered". It rejects a move to a
  lower priority. Otherwise it writes the status, and sets `deliveredAt` when
  the new status is "Delivered" or clears it when it is not.
- **Admin visibility.** A delivered order stays in the admin list for 30
  seconds after `deliveredAt`.
- **The customer's order page.** This covers:
  - dedupe by id through a `Map`;
  - a stable sort by a status priority read from the lower-cased status text;
  - four-at-a-time pagination (the `showAll`/`visibleCount` state, as the
    class `MyOrders.Pager`);
  - the tracking timeline;
  - the item summary line.
- **The menu search filter.** It matches on category and on the trimmed,
  lower-cased query as a substring of an item's name, description or category.

Modules:
- `Wrappers`: `Option`, the model of `undefined`/`??`.
- `Text`: the JavaScript string built-ins used here: ASCII `toLowerCase`,
  `trim` over the full ECMAScript white-space set, `includes`, a code-point
  order standing in for `localeCompare`, and joining.
- `Orders`: the stored order document.
- `Canonical`: item and address normalisation, and the signature.
- `Resolver`: the duplicate walk.
  - It is written as the specification functions `Step`/`Run`, with the loop
    as the method `ResolveDuplicates` proved equal to `Run`.
  - `Run` takes the signature function as a parameter; the backend always
    passes `GetSignature`.
- `Reconciliation`: the controller paths and the cleanup script, over a store
  given as the sequence of stored orders in date order.
- `StatusGuard`: the status guard.
- `MyOrders` and `FoodDisplay`: the two frontend files.

Three behaviours of the status guard and the admin list deserve note:

- Re-applying "Delivered" is accepted and stamps `deliveredAt` again; the
  first timestamp is not kept (`StatusGuard.ReapplyingDeliveredRestamps`).
- A requested status outside the priority table is never rejected, and
  neither is any request against a stored status outside the table. The guard
  is therefore monotone only among the three known statuses
  (`StatusGuard.ReplayMonotone`). Going through an unknown status, a delivered
  order can return to "Food Processing"
  (`StatusGuard.UnknownStatusOpensRegression`).
- The retention test is strict (`deliveredAt > now - 30 s`). Delivered orders
  without a timestamp are judged by their creation date. Nothing purges hidden
  orders: an order out of the admin list stays stored.

## Model

| member | source | states |
|---|---|---|
| Canonical.NormalizeItems | backend/controllers/orderController.js:11-19 | one record per input item, each item defaulted field by field (`_id` then `id` then "", name "", quantity 0, price 0); the output is a permutation of those records sorted by the `id+name` key |
| Canonical.SortItems | backend/controllers/orderController.js:19 | the comparator sort returns a permutation of its input that is ordered by the `id+name` key |
| Canonical.InsertSorted | backend/controllers/orderController.js:19 | inserting one record into a key-ordered list keeps it key-ordered |
| Canonical.SortedPermutationsEqual | backend/controllers/orderController.js:19 | two key-ordered permutations of the same records with distinct keys are equal, so the sort result does not depend on the input order |
| Canonical.NormalizeItemsOrderIndependent | backend/controllers/orderController.js:11-19 | permuting the input items does not change the normalised list when the `id+name` keys are pairwise distinct |
| Canonical.NormalizeAddressEquality | backend/controllers/orderController.js:21-31 | two addresses normalise equally iff each of the nine fields agrees once an absent field is read as "" |
| Canonical.NoAddressIsAllEmpty | backend/controllers/orderController.js:21-31 | a missing address normalises to nine empty strings |
| Canonical.SignatureDefaults | backend/scripts/cleanupDuplicateOrders.js:30-35 | the signature defaults userId to "" and amount to 0, and its items are the key-ordered permutation of the normalised items |
| Canonical.SignatureEquality | backend/scripts/cleanupDuplicateOrders.js:30-35 | for distinct item keys, two orders have equal signatures iff user, amount (absent read as 0) and normalised address agree and the normalised items are equal as multisets |
| Canonical.SignatureIgnoresItemOrder | backend/scripts/cleanupDuplicateOrders.js:30-35 | two orders that differ only in the order of their items (distinct keys) get the same signature |
| Resolver.FindMatch | backend/controllers/orderController.js:48-57 | returns the first entry whose signature equals the candidate's and whose time is at most the window earlier, or -1 iff there is none |
| Resolver.ResolveDuplicates | backend/scripts/cleanupDuplicateOrders.js:45-77 | the loop ends in the state the walk `Run` specifies, and `|recent| + |toDelete|` equals the number of orders processed |
| Resolver.RunCount | backend/controllers/orderController.js:40-77 | every processed order adds exactly one entry or exactly one deleted id |
| Resolver.RunConservesIds | backend/controllers/orderController.js:40-77 | the representatives' ids plus the deleted ids are, as a multiset, exactly the processed ids |
| Resolver.RunPartition | backend/scripts/cleanupDuplicateOrders.js:45-77 | with distinct ids, every order ends as a representative or in `toDelete`, never both; representatives are input orders; no id is deleted twice |
| Resolver.RunExtends | backend/scripts/cleanupDuplicateOrders.js:60-76 | on a date-ordered walk, later states extend earlier ones: deletions only grow, a slot keeps its signature, its time never moves back, a paid representative is never replaced, and a replacement is paid |
| Resolver.StepKeepsPaid | backend/controllers/orderController.js:64-74 | one step never removes a paid representative |
| Resolver.RunPaidCovered | backend/scripts/cleanupDuplicateOrders.js:64-76 | every deleted paid order is covered by a paid representative with its signature, so a paid order never loses to an unpaid one |
| Resolver.RunSeparated | backend/scripts/cleanupDuplicateOrders.js:45-77 | on a date-ordered walk, no two representatives share a signature within the window |
| Resolver.SpreadRunDeletesNothing | backend/scripts/cleanupDuplicateOrders.js:45-77 | a walk over orders whose equal-signature pairs are more than the window apart keeps every order and deletes nothing |
| Resolver.RerunDeletesNothing | backend/scripts/cleanupDuplicateOrders.js:45-77 | walking again over any date-ordered selection of the survivors deletes nothing |
| Resolver.PaidWinsEitherOrder | backend/controllers/orderController.js:64-74 | of two matching orders with different payment states, the paid one survives and the unpaid one is deleted, whichever came first |
| Resolver.EarlierWinsTie | backend/controllers/orderController.js:76 | of two matching orders with equal payment states, the earlier survives and the later is deleted |
| Reconciliation.RemoveRecentDuplicates | backend/controllers/orderController.js:33-82 | deletes exactly the orders whose ids the walk over the orders created in the last window marks; the delete is issued iff that list is non-empty |
| Reconciliation.OutsideWindowUntouched | backend/controllers/orderController.js:34-36 | a walk over the orders created since the cutoff never deletes an order created before it, so reconciliation never removes an order older than the window |
| Reconciliation.ReconcileIdempotent | backend/controllers/orderController.js:33-82 | for any signature function, after one reconciliation another at the same or a later time deletes nothing |
| Reconciliation.ListOrders | backend/controllers/orderController.js:159-175 | the admin list reconciles first, then lists exactly the remaining orders that pass the visibility filter, in store order |
| Reconciliation.UserOrders | backend/controllers/orderController.js:178-187 | the user list reconciles first, then lists exactly the remaining orders of that user |
| Reconciliation.UndeliveredAlwaysVisible | backend/controllers/orderController.js:163-169 | an order not delivered and without `deliveredAt` is always in the admin list |
| Reconciliation.CutoffIsStrict | backend/controllers/orderController.js:163-169 | an order delivered exactly 30 s ago is hidden, and one delivered 29.999 s ago is shown |
| Reconciliation.HiddenStaysHidden | backend/controllers/orderController.js:163-169 | once an order is out of the admin list it stays out as time passes |
| Reconciliation.VisibleIffRecentlyDelivered | backend/controllers/orderController.js:163-169 | for an order whose `deliveredAt` is set iff it is delivered, it is listed iff it is undelivered or was delivered less than 30 s ago |
| Reconciliation.CleanupDuplicateOrders | backend/scripts/cleanupDuplicateOrders.js:37-85 | the script deletes exactly the losers of the walk over all stored orders, issues the delete iff there is at least one, and reports how many there were |
| Reconciliation.CleanupIdempotent | backend/scripts/cleanupDuplicateOrders.js:45-81 | for any signature function, running the script a second time deletes nothing |
| StatusGuard.UpdateStatus | backend/controllers/orderController.js:189-223 | a missing order is rejected with no write; a move to a lower known priority is rejected with no write; otherwise the reply is always "updated" and only that order changes, getting the requested status and `deliveredAt = now` iff the request is "Delivered", else null |
| StatusGuard.UnknownStatusNeverRejected | backend/controllers/orderController.js:203-211 | a request or a stored status outside the table is never rejected |
| StatusGuard.KnownStatusNeverRegresses | backend/controllers/orderController.js:192-211 | between known statuses, a request never lowers the priority |
| StatusGuard.DeliveredAtTracksStatus | backend/controllers/orderController.js:213-217 | if `deliveredAt` was set iff the order was delivered, this still holds after any request |
| StatusGuard.ReapplyingDeliveredRestamps | backend/controllers/orderController.js:213-217 | "Delivered" is always accepted, and re-applying it replaces the timestamp |
| StatusGuard.ReplayMonotone | backend/controllers/orderController.js:192-217 | over any series of requests naming known statuses, the final priority is at least the initial one |
| StatusGuard.UnknownStatusOpensRegression | backend/controllers/orderController.js:203-217 | a delivered order goes back to "Food Processing", with `deliveredAt` cleared, through an unknown status |
| MyOrders.IndexOfId | frontend/src/pages/MyOrders/MyOrders.jsx:28-30 | the first position holding an id, or -1 iff the id is absent |
| MyOrders.PutKeys | frontend/src/pages/MyOrders/MyOrders.jsx:28-30 | one `Map.set` keeps the keys distinct and adds exactly the key of the new entry |
| MyOrders.UniqueOrdersKeys | frontend/src/pages/MyOrders/MyOrders.jsx:28-30 | the deduplicated list holds every id of the data exactly once and no other id |
| MyOrders.UniqueOrdersKeepLast | frontend/src/pages/MyOrders/MyOrders.jsx:28-30 | the order kept for an id is the last one received with it |
| MyOrders.UniqueOrdersFirstSeenOrder | frontend/src/pages/MyOrders/MyOrders.jsx:28-30 | ids appear in the order of their first occurrence in the data |
| MyOrders.ClientStatusPriority | frontend/src/pages/MyOrders/MyOrders.jsx:32-38 | the priority is one of 0..3 |
| MyOrders.ClassifiersIgnoreCase | frontend/src/pages/MyOrders/MyOrders.jsx:32-38 | statuses that differ only in letter case get the same priority and the same timeline index |
| MyOrders.FoodProcessingPriority | frontend/src/pages/MyOrders/MyOrders.jsx:34 | "Food Processing" has priority 0 |
| MyOrders.OutForDeliveryPriority | frontend/src/pages/MyOrders/MyOrders.jsx:32-38 | "Out for delivery" has priority 1 |
| MyOrders.DeliveredPriority | frontend/src/pages/MyOrders/MyOrders.jsx:32-38 | "Delivered" has priority 2 |
| MyOrders.MissingStatusPriority | frontend/src/pages/MyOrders/MyOrders.jsx:32-38 | a missing status has priority 3 |
| MyOrders.StatusIndex | frontend/src/pages/MyOrders/MyOrders.jsx:85-92 | the timeline index names one of the four steps |
| MyOrders.OutForDeliveryShowsDelivered | frontend/src/pages/MyOrders/MyOrders.jsx:85-92 | "Out for delivery" maps to the last step, because "deliver" is tested first |
| MyOrders.InsertBySorted | frontend/src/pages/MyOrders/MyOrders.jsx:40-45 | inserting into a key-ordered list keeps it key-ordered |
| MyOrders.SortBy | frontend/src/pages/MyOrders/MyOrders.jsx:40-45 | the sort returns a permutation of its input, ordered by key |
| MyOrders.SortByStable | frontend/src/pages/MyOrders/MyOrders.jsx:40-45 | elements with equal keys keep their relative order |
| MyOrders.OrderedOrders | frontend/src/pages/MyOrders/MyOrders.jsx:40-45 | the ordered orders are a permutation of the unique orders, ordered by priority, and stable within each priority |
| MyOrders.NextVisibleCount | frontend/src/pages/MyOrders/MyOrders.jsx:52 | a load-more step never passes the number of orders, and it grows the count unless the total is reached |
| MyOrders.LoadPagesReachesTotal | frontend/src/pages/MyOrders/MyOrders.jsx:47-59 | n load-more steps show every order once 4·n covers the gap |
| MyOrders.Pager.constructor | frontend/src/pages/MyOrders/MyOrders.jsx:11-12 | the page starts collapsed with four orders visible |
| MyOrders.Pager.LoadMore | frontend/src/pages/MyOrders/MyOrders.jsx:47-59 | while showing all, the count becomes `min(count + 4, total)` and so stays within the total; otherwise nothing changes |
| MyOrders.Pager.SetShowAll | frontend/src/pages/MyOrders/MyOrders.jsx:61-65 | leaving show-all resets the count to four; entering it keeps the count |
| MyOrders.Pager.Displayed | frontend/src/pages/MyOrders/MyOrders.jsx:94-96 | the displayed orders are a prefix of the ordered ones, of length `min(count, n)` when showing all and `min(4, n)` otherwise |
| MyOrders.Timeline | frontend/src/pages/MyOrders/MyOrders.jsx:183-190 | one view per tracking step, in the order of the four step names |
| MyOrders.CurrentIndex | frontend/src/pages/MyOrders/MyOrders.jsx:98-100 | the current step is a valid step; it is 0 when no order is tracked |
| MyOrders.TimelineLabels | frontend/src/pages/MyOrders/MyOrders.jsx:183-190 | a step is "Completed" iff it is before the current one, "In progress" iff it is the current one, and "Pending" iff it is after it; it is done iff not pending; exactly one step is current |
| MyOrders.ItemTextIsJoin | frontend/src/pages/MyOrders/MyOrders.jsx:118-125 | the rendered pieces concatenate to the "name x qty" labels joined by ", ", with no trailing separator |
| FoodDisplay.NormalizeQuery | frontend/src/components/FoodDisplay/FoodDisplay.jsx:9 | the normalised query is empty iff the search text is all white space, and it is already lower-case |
| FoodDisplay.Keep | frontend/src/components/FoodDisplay/FoodDisplay.jsx:11-18 | the filtered list holds exactly the items that pass the category and search tests, and is no longer than the menu |
| FoodDisplay.KeepAppend | frontend/src/components/FoodDisplay/FoodDisplay.jsx:11-18 | the filter preserves order: filtering a concatenation concatenates the filtered parts |
| FoodDisplay.CategoryRule | frontend/src/components/FoodDisplay/FoodDisplay.jsx:12 | "All" accepts every item; any other category accepts exactly the items of that category |
| FoodDisplay.BlankSearchShowsEverything | frontend/src/components/FoodDisplay/FoodDisplay.jsx:9-13 | with "All" selected, an empty or white-space search shows the whole menu in order |
| FoodDisplay.SearchIsSubstring | frontend/src/components/FoodDisplay/FoodDisplay.jsx:13-16 | a non-blank search matches iff the normalised query occurs in a present, lower-cased name, description or category |
| FoodDisplay.SearchIgnoresCase | frontend/src/components/FoodDisplay/FoodDisplay.jsx:14-16 | the letter case of an item's name does not affect matching |
| FoodDisplay.MissingFieldsNeverMatch | frontend/src/components/FoodDisplay/FoodDisplay.jsx:14-16 | an absent field never matches, so an item with no text matches only a blank search |
| Text.Trim | frontend/src/components/FoodDisplay/FoodDisplay.jsx:9 | the trimmed text is the input with only white space removed before and after it; it neither starts nor ends with white space, and is empty iff the input is all white space |
| Text.ContainsIff | frontend/src/components/FoodDisplay/FoodDisplay.jsx:14-16 | `includes` holds iff the pattern occurs at some position |
| Text.LexTotal | backend/controllers/orderController.js:19 | any two sort keys are comparable |
| Text.LexAntisymmetric | backend/controllers/orderController.js:19 | keys that compare both ways are equal |
| Text.LexTransitive | backend/controllers/orderController.js:19 | the key comparison is transitive |

## Left out

- Database access (`find`, `sort`, `findById`, `findByIdAndUpdate`, `deleteMany`)
  is modelled on values. The store is the sequence of stored orders in
  ascending `date`, which is what `sort({ date: 1 })` returns. Lists without a
  sort are taken in that same order. The status store is a map from id to
  order. Errors and the `catch` replies of the controllers are not modelled.
- The clock (`Date.now()`, `new Date()`) is the parameter `now`, in
  milliseconds. Dates are integers.
- Reconciliation.ListOrders: the duplicate-window cutoff
  (backend/controllers/orderController.js:35) and the delivered cutoff
  (backend/controllers/orderController.js:84) come from two separate clock
  reads, the second after the awaits of the reconciliation. The model takes
  both at the same instant `now`.
- Wrappers.Option: `None` stands for both `null` and `undefined`. JavaScript
  default parameters replace only `undefined`, so in the source a `null` item
  list or address (backend/controllers/orderController.js:11,21) or a `null`
  status on the order page (frontend/src/pages/MyOrders/MyOrders.jsx:32,85)
  throws. The model reads it as the default instead.
- `placeOrder`, `placeOrderCod` and `verifyOrder` (Stripe checkout and payment
  confirmation) are not part of this model. Payment is a boolean on the stored
  order.
- Concurrency between requests, and a reconciliation racing a status update,
  are not modelled.
- `JSON.stringify` of the normalised items and address is modelled as
  structural equality of the normalised values. Two values serialise equally
  iff they are equal, for these flat records of strings and numbers.
- Amounts, quantities and prices are integers. Fractional numbers are not
  modelled.
- Canonical.SortItems: keys are ordered by Unicode code points, not by the
  locale collation of `localeCompare`. Code-point order agrees with the
  UTF-16 code-unit order of JavaScript strings only inside the Basic
  Multilingual Plane; the two differ when a key holds characters above
  U+FFFF. Records with equal keys keep their input order, as a stable sort does.
- Text.Lower: only ASCII letters are lower-cased. Unicode case mapping beyond
  ASCII is not modelled.
- MyOrders.ItemTextIsJoin: item names and quantities are always present. The
  page's rendering of a missing one as "undefined" is not modelled.
- React plumbing is not modelled. This covers the polling interval, the
  intersection observer, the Escape-key handler, the tracking modal's open and
  close state, the short order number in the modal header, and the JSX markup.
  The observer callback is the method `MyOrders.Pager.LoadMore`.
- The admin pages and the navigation bar are not part of this model.
