# Contact identity reconciliation, modelled in Dafny

The repository's `ContactService.identify` takes an optional email and an
optional phone number and reconciles them against a `Contact` table. The
table holds contacts linked into groups: a group has one *primary* contact
and any number of *secondary* contacts whose `linkedId` names the primary.
A call runs one transaction:

1. It finds the active contacts that share the email or the phone number.
2. If there are none, it inserts a new primary and reports it alone.
3. Otherwise it gathers every related contact: the matches, their
   primaries, and everything linked to those primaries.
4. It elects the oldest gathered contact as primary.
5. It rewrites every other gathered contact as a secondary of the elected
   one, skipping contacts that are already in place.
6. If both fields were supplied and no gathered contact holds exactly that
   pair, it inserts a new secondary.
7. It re-reads the primary's chain and answers with the primary's id, the
   distinct emails and phone numbers (primary's first), and the secondary
   ids.

The model keeps the table as a `seq<Contact>` and threads it through pure
functions. `identify` becomes `Identify(t, email, phoneNumber): (Table, Outcome)`.
Each Prisma call becomes a function over the sequence:

- `findMany` filters by an OR-list of conditions plus `deletedAt: null`, then sorts stably by `createdAt`.
- `create` appends a row with a fresh id and the latest timestamp.
- `update` rewrites the link fields of the row with the given id.

The transaction (`prisma.$transaction`, src/services/contact.service.ts:21) becomes `Commit`: its writes are kept when the body returns, and the table is returned as it was when the body fails. The only failure inside the transaction, the 500 for a chain without a primary, cannot occur (`StepFacts.ReconcileSucceeds`), so no call rolls back; a validation failure is decided before the transaction starts.

JavaScript truthiness is modelled exactly:

- An email or phone number counts as supplied only when it is present and not the empty string (`Supplied`).
- A `linkedId` counts as set only when it is present and not 0 (`LinkSet`).

Files:

- `wrappers.dfy`: `Option` and `Result`.
- `contacts.dfy`: the `Contact` record, the error and the response shapes.
- `store.dfy`: the table and the Prisma operations.
- `distinct.dfy`: the order-preserving de-duplication used for the response lists.
- `service.dfy`: the service's methods and `Identify`.
- `steps.dfy`: properties of single steps and of one call.
- `response.dfy`: properties of the response.
- `consistency.dfy`: the table invariant `Consistent` and its preservation by each kind of write.
- `idempotence.dfy`: the theorems about repeated calls.

`Consistent(t)` is the invariant for well-formed tables:

- ids are positive and unique;
- rows appear in creation order, with distinct, strictly increasing `createdAt` values;
- every active primary has no link;
- every active secondary links to an active primary that is older than itself.

Under it, the model proves the following:

- `identify` preserves `Consistent`.
- `identify` always succeeds on an accepted request.
- Afterwards every active contact sharing a field with the request belongs to the star of the reported primary.
- A second identical call writes nothing and returns the same response.

Because `Consistent` demands strictly increasing `createdAt`, these theorems cover no table in which two rows share a creation time. On such a table the store's order of the tied rows decides the election.

A few behaviours of the code are worth stating plainly; the model follows them:

- Election ties keep the earliest contact in the list the store returned. The model's store returns ties in table order, which is insertion order.
- The response lists skip empty strings as well as absent values.
- `secondaryContactIds` holds the secondary-flagged contacts whose id differs from the primary's. Once the group is normalized these are all the other contacts of the group; `FormatResponseIds` states the code's version.
- There is no retry on serialization failures.

## Model

| member | source | states |
|---|---|---|
| `Store.Filter` | src/services/contact.service.ts:93-97 | the result keeps exactly the active rows meeting one of the OR conditions, and is empty exactly when no row is selected |
| `Store.FilterKeepsRows` | src/services/contact.service.ts:93-97 | each selected row is kept exactly as often as the table holds it, and the kept rows stay in table order |
| `Store.OrderByCreatedAt` | src/services/contact.service.ts:98-100 | the result is a permutation of the input in non-decreasing `createdAt` order |
| `Store.FindMany` | src/services/contact.service.ts:93-101 | a query returns, oldest first, exactly the active rows meeting one of the conditions; it is empty exactly when none does |
| `Store.FindManyKeepsRows` | src/services/contact.service.ts:93-101 | a query returns each selected row exactly as often as the table holds it, so once for a table of distinct rows |
| `Store.FindManyInTableOrder` | src/services/contact.service.ts:229-237 | on a table in creation order a query returns the selected rows in table order, strictly oldest first |
| `Store.Create` | src/services/contact.service.ts:27-34 | `create` appends one active row holding the given fields, with an id above every existing id and a timestamp later than every existing one |
| `Store.Update` | src/services/contact.service.ts:161-167 | `update` by id changes only the two link fields of the row with that id; every other row is unchanged |
| `Distinct.CollectDistinct` | src/services/contact.service.ts:264-270 | the collected list has no duplicates and holds exactly the non-empty values present in the input |
| `Distinct.CollectDistinctFirstSeenOrder` | src/services/contact.service.ts:252-270 | the collected values appear in the order of their first occurrence in the input |
| `Distinct.CollectDistinctHead` | src/services/contact.service.ts:256-258 | a non-empty first input value heads the collected list |
| `ContactService.FindMatchingContacts` | src/services/contact.service.ts:78-102 | the matches are exactly the active rows that share a supplied field with the request, oldest first; there are none exactly when no active row shares one |
| `ContactService.GetAllRelatedContacts` | src/services/contact.service.ts:107-138 | the gathered list contains every matched contact and holds exactly the active rows related to them by id, primary id or link, oldest first |
| `ContactService.OldestIndex` | src/services/contact.service.ts:144-146 | the chosen position holds a minimal `createdAt`, and every earlier position holds a strictly later one |
| `ContactService.DeterminePrimaryContact` | src/services/contact.service.ts:143-147 | the elected contact belongs to the list, is no younger than any member, and is the earliest member of minimal age |
| `ContactService.Retarget` | src/services/contact.service.ts:158-183 | a rewritten contact agrees with the election, keeps every non-link field, and equals the original exactly when the original already agreed |
| `ContactService.NormalizationWrites` | src/services/contact.service.ts:157-184 | step 4 issues only writes that agree with the election, writes exactly the contacts not in place, and issues none exactly when all are in place |
| `ContactService.ApplyTargetWrites` | src/services/contact.service.ts:161-181 | applying such writes in turn retargets exactly the written rows and leaves all others alone |
| `ContactService.ConvertSecondariesToPrimary` | src/services/contact.service.ts:152-185 | after step 4 each row whose contact was out of place is retargeted at the elected primary; every other row is unchanged |
| `ContactService.CheckIfNeedsNewContact` | src/services/contact.service.ts:190-223 | a new contact is needed exactly when both fields are supplied, no contact holds that exact pair, and some contact holds one of the two values |
| `ContactService.GetAllContactsInChain` | src/services/contact.service.ts:228-238 | the chain is exactly the active rows whose id is the primary's or whose link names it, oldest first |
| `StepFacts.ChainKeepsRows` | src/services/contact.service.ts:228-238 | the chain returns each active row of the chain exactly as often as the table holds it |
| `Consistency.ChainKeysUnique` | src/services/contact.service.ts:228-238 | on a consistent table no two rows of the re-read chain share an id |
| `ContactService.FindPrimary` | src/services/contact.service.ts:245 | the search returns the first primary-flagged position, and none exactly when no contact is flagged primary |
| `ContactService.Others` | src/services/contact.service.ts:261-262 | the contacts read after the primary are exactly those whose id differs from the primary's |
| `ResponseFacts.OthersKeepsRows` | src/services/contact.service.ts:261-262 | the loop reads every non-primary contact exactly as often as the list holds it, in list order, which fixes the order the email and phone lists see |
| `ContactService.SecondaryIds` | src/services/contact.service.ts:272-274 | the listed ids are exactly those of secondary-flagged contacts whose id is not the primary's |
| `ContactService.FormatResponse` | src/services/contact.service.ts:243-249 | shaping fails exactly when no contact is flagged primary, and then with status 500 |
| `StepFacts.ConvertNormalizes` | src/services/contact.service.ts:157-184 | on a table with unique ids, step 4 retargets every gathered row at the elected primary and leaves every other row alone |
| `StepFacts.NormalizationSettles` | src/services/contact.service.ts:158-182 | running step 4 again over already normalized contacts issues no writes |
| `StepFacts.NeedsNewContactWhenMatched` | src/services/contact.service.ts:196-222 | in the match branch a new contact is needed exactly when both fields are supplied and the exact pair is absent |
| `StepFacts.ReconcileSucceeds` | src/services/contact.service.ts:39-71 | in the match branch the re-read chain always holds the elected contact flagged primary, so the status-500 failure cannot occur |
| `StepFacts.IdentifyFailsOnlyOnValidation` | src/services/contact.service.ts:12-18 | `identify` fails exactly when neither field is supplied, and then with status 400 and the table unchanged |
| `StepFacts.IdentifyAcceptedSucceeds` | src/services/contact.service.ts:20-72 | every request with a supplied field succeeds |
| `StepFacts.CreatePrimaryReports` | src/services/contact.service.ts:26-37 | the no-match branch commits the new row and reports only its id and its own non-empty fields, with no secondaries |
| `StepFacts.IdentifyNoMatch` | src/services/contact.service.ts:26-37 | with no active match, `identify` appends exactly one active primary with no link and the request's fields, and reports it alone |
| `StepFacts.CreatePrimaryOnlyAppends` | src/services/contact.service.ts:26-37 | the no-match branch leaves every existing row as it was and appends one fresh row holding the request's fields |
| `StepFacts.ReconcileRollsBack` | src/services/contact.service.ts:21 | the transaction rolls back: a reconciliation whose outcome is an error leaves the table as it was |
| `StepFacts.ReconcileOnlyRelinks` | src/services/contact.service.ts:39-71 | the match branch changes only link fields of existing rows and appends at most one row, fresh and holding the request's fields |
| `StepFacts.IdentifyOnlyRelinks` | src/services/contact.service.ts:12-73 | `identify` never deletes a row or changes a non-link field, and appends at most one row, fresh and holding the request's fields |
| `ResponseFacts.FindPrimaryFirst` | src/services/contact.service.ts:245 | the first primary-flagged contact is the one `find` returns |
| `ResponseFacts.FormatResponseEmails` | src/services/contact.service.ts:252-270 | the emails have no duplicates or empty values, are exactly the non-empty emails of the primary and of the contacts with another id, start with the primary's email when it has one, and follow first-seen order |
| `ResponseFacts.FormatResponsePhones` | src/services/contact.service.ts:252-270 | the same four facts hold for the phone numbers |
| `ResponseFacts.SecondaryIdsInListOrder` | src/services/contact.service.ts:261-274 | for two listed secondaries, the one earlier in the input list has its id listed before the later one's |
| `ResponseFacts.SecondaryIdsFromListOrder` | src/services/contact.service.ts:261-274 | read back from the result, every two listed ids belong to contacts that occur in that order in the input list |
| `ResponseFacts.SecondaryIdsDistinct` | src/services/contact.service.ts:261-274 | when the contacts' ids are unique, each secondary id is listed once, as one push per contact gives |
| `ResponseFacts.FormatResponseIds` | src/services/contact.service.ts:243-283 | the response names the first primary-flagged contact; its secondary ids exclude that id, are exactly the other secondary-flagged ids, follow the list order in both directions, and occur once each when the contacts' ids are unique, which fixes the list |
| `ResponseFacts.FormatResponseListsOnce` | src/services/contact.service.ts:272-274 | a successful response over contacts with unique ids lists each secondary id once |
| `Consistency.RootsAreLivePrimaries` | src/services/contact.service.ts:112-120 | on a consistent table every id step 2 treats as a primary is an active primary row |
| `Consistency.RelatedIsGroup` | src/services/contact.service.ts:112-129 | on a consistent table an active row is gathered exactly when it belongs to the star of one of those primaries |
| `Consistency.GatheredAreGroups` | src/services/contact.service.ts:107-138 | on a consistent table step 2 gathers exactly whole stars |
| `Consistency.NormalizeGathered` | src/services/contact.service.ts:152-185 | with unique ids, step 4 retargets exactly the gathered rows |
| `Consistency.RelinkedConsistent` | src/services/contact.service.ts:40-46 | electing the oldest gathered contact and retargeting the gathered rows keeps the table consistent |
| `Consistency.AppendSecondaryConsistent` | src/services/contact.service.ts:55-63 | appending a fresh secondary linked to an older active primary keeps the table consistent |
| `Consistency.AppendPrimaryConsistent` | src/services/contact.service.ts:26-34 | appending a fresh primary with no link keeps the table consistent |
| `Idempotence.StarGathered` | src/services/contact.service.ts:107-138 | step 2 widens contacts drawn from one star of a consistent table to exactly that star |
| `Idempotence.StarIsElected` | src/services/contact.service.ts:143-185 | the oldest contact of a star is its primary, and every row of the star already agrees with that election |
| `Idempotence.SettledIsReadOnly` | src/services/contact.service.ts:12-73 | a request already recorded inside one star leaves the table unchanged and reports that star's chain |
| `Idempotence.FirstCallMatched` | src/services/contact.service.ts:39-71 | the match branch leaves a consistent table where the request is recorded inside the elected star, and reports that star |
| `Idempotence.ChainOfNewPrimary` | src/services/contact.service.ts:228-238 | the chain of a primary just appended to a consistent table is that row alone |
| `Idempotence.FirstCallUnmatched` | src/services/contact.service.ts:26-37 | the no-match branch leaves a consistent table where the request is recorded in the new star, and reports that star |
| `Idempotence.IdentifyPreservesConsistency` | src/services/contact.service.ts:12-73 | `identify` keeps a consistent table consistent |
| `Idempotence.IdentifyIdempotent` | src/services/contact.service.ts:12-73 | on a consistent table a second identical call leaves the table unchanged and returns the first call's response |
| `Idempotence.ChainReportsPrimary` | src/services/contact.service.ts:243-279 | on a consistent table the chain of a live primary is reported successfully under that primary's id |
| `Idempotence.IdentifyReconciles` | src/services/contact.service.ts:39-71 | an accepted call succeeds, and afterwards every active contact sharing a field with the request is in the star of the primary the response names |
| `Idempotence.IdentifyListsSecondariesOnce` | src/services/contact.service.ts:68-71 | on a consistent table a successful call lists each secondary id once |

## Left out

- The transaction's isolation and concurrent calls: `identify` is one sequential step over the table. The bounded retry on serialization failures is not part of the code either.
- Timestamps are `nat` values. `create` gives the new row a timestamp later than every existing row, standing in for the clock. `updatedAt` is not represented, and `deletedAt` is reduced to a `deleted` flag.
- Ids are modelled as one more than the largest existing id, standing in for the auto-increment column.
- When `createdAt` values are equal, Prisma's order is store-dependent. The model's sort is stable, so ties come back in table order.
- `allRelatedContacts.push(newSecondary)` (src/services/contact.service.ts:65) is not modelled. The list is not read again after that point.
- Prisma's `update` throws when no row has the given id. The model's `Update` leaves the table unchanged instead. The difference is unreachable because step 4 only writes ids of rows it has just read.
- `DeterminePrimaryContact`: requires a non-empty list. JavaScript's `reduce` without a seed value throws on an empty one, but `identify` only calls it after a match.
- `ContactService.Reconcile`, `ContactService.Identify`, `ContactService.CreatePrimary` and `ContactService.Summarize` carry no contract of their own. Their behaviour is stated by the `StepFacts`, `ResponseFacts` and `Idempotence` lemmas (`CreatePrimary` by `StepFacts.CreatePrimaryReports` and `StepFacts.CreatePrimaryOnlyAppends`, `Summarize` through `FormatResponse` by the `ResponseFacts.FormatResponse…` lemmas).
- `FindMatchingContacts` with no supplied field would query with an empty OR list, which selects nothing. `identify` never reaches it after validation.
- The error middleware, server lifecycle, Express app, controller and routes (`src/middlewares/error.middleware.ts`, `src/server.ts`, `src/app.ts`, `src/controllers/contact.controller.ts`, `src/routes/contact.routes.ts`) are HTTP plumbing. The 400 and 500 outcomes appear as `AppError` results of `Identify`.
- `src/types/index.ts` is mirrored as the `ContactSummary`, `IdentifyResponse` and `AppError` datatypes; it has no behaviour.
