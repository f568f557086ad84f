# Family home server: pocket money, photo feed and front-end session

This project is a Dafny model of the three pieces of logic the family home
server is built around.

- **The pocket-money ledger.** Children have a balance and an optional
  birth date. Every change of balance is booked as a transaction: a deposit,
  a manual correction, or the weekly pocket-money payout of 50 cents per
  year of age. The ledger invariant is that each child's balance is the sum
  of that child's own transactions. Every operation keeps it, and the
  history and per-category statistics queries are proved against it.
- **The family photo feed.** Users upload photos. Others like them (a
  toggle), view them (recorded once per user), comment on them, and read
  a newest-first feed with counts and the last three comments. The
  uploader or a parent may delete a photo, and the delete cascades to its
  likes, comments and views. The store keeps its declared keys and foreign
  keys, one like and one view per (photo, user) pair, and photos in upload
  order.
- **The browser session.** A store holds the logged-in user and a
  persisted copy of it, and a navigation guard keeps logged-out visitors
  off the protected page and logged-in users off the login page.

Files, one module each:

- `common.dfy`: options, the error taxonomy with its HTTP codes, and the
  `OFFSET`/`LIMIT` window and reversal that paged queries apply.
- `user_models.dfy`: the ledger rows, id and name lookups, and the
  child-delete cascade over wishes.
- `pocket_money.dfy`: the ledger invariant and the `LedgerStore` class
  with its endpoints.
- `scheduler.dfy`: the age rule and the weekly payout loop.
- `photo_model.dfy`: the photo rows, image URLs, lookups, the per-photo
  filters, the table invariant and the delete cascade.
- `family_photos.dfy`: the like toggle, the view insert, profile updates,
  feed entries and stats, and the `PhotoStore` class with its endpoints.
- `auth_store.dfy`: the session store (`AuthStore`) and the pure
  `Apply`/`Run` description of its actions.
- `router.dfy`: the routes and the `beforeEach` guard.

Modelling choices:

- Money is integer cents. Dates are (year, month, day) triples.
- The reference date ("today") and the upload instant are inputs. For
  uploads this is a store counter `clock` that only increases.
- A table is a sequence of rows in insertion order. An id lookup returns
  the first row that matches.
- Serial ids come from counters kept in the store. A transaction's id is
  its position plus one, so id order is booking order.
- An empty string stands for an absent `display_name`, `bio` or profile
  key. Both are falsy in every test the code makes.
- The photo store's table invariant (`TablesValid`) holds every declared
  key: in each table the ids increase along the rows and stay below the
  store's next serial id. It also holds every foreign key, upload order,
  and one like and one view per (photo, user) pair.
- Foreign keys are checked as the database checks them at commit. A like,
  view, comment or upload that points at a missing row is refused with
  `ForeignKeyViolation` (HTTP 500). A child whose name is taken is refused
  with `DuplicateKey` (HTTP 500). In both cases the tables are left
  unchanged, but that table's serial counter still moves on. PostgreSQL
  draws the serial id before it checks the constraint, and a sequence does
  not roll back. So after a refused `add_child("Ann")` the next child gets
  the id after the one the refused insert drew.
- A photo's caption is optional (`Form(None)`, a nullable column). `None`
  stands for SQL NULL, which the feed answers as `null`.

## Model

| member | source | states |
|---|---|---|
| Common.HttpStatus | app/api/v1/family_photos.py:113-120 | NotFound maps to 404 and Forbidden to 403, both ways; database rejections map to 500 |
| Common.Page | app/api/v1/pocket_money.py:98-99 | the window has min(limit, rows left after skip) rows, and row k is row skip+k |
| Common.Reverse | app/api/v1/pocket_money.py:97 | same length; entry k is entry n-1-k of the input (descending order over rows kept ascending) |
| Common.LastN | app/api/v1/family_photos.py:83 | `s[-n:]`: min(n, len) rows, which are the last ones of `s` in order |
| UserModels.NewChild | app/models/user_models.py:10-13 | a new child has the given id and name, balance 0 and no birth date |
| UserModels.ChildIdsAppend | app/models/user_models.py:10 | appending a row adds exactly its id to the key set |
| UserModels.ChildIdsUpdate | app/models/user_models.py:10 | overwriting a row with one of the same id keeps the key set |
| UserModels.ChildIdsSameKeys | app/models/user_models.py:10 | two tables with the same ids row by row have the same key set |
| UserModels.IndexOfId | app/api/v1/pocket_money.py:24 | `.first()` by id: the first matching row, and None exactly when no row has the id |
| UserModels.IndexOfName | app/api/v1/pocket_money.py:14 | `.first()` by name: the first matching row, and None exactly when no row has the name |
| UserModels.NameLookupIsUnique | app/models/user_models.py:11 | with unique names, the lookup by a child's name finds that child |
| UserModels.WishesNotOf | app/models/user_models.py:17-21 | exactly the wishes of other children survive |
| UserModels.DeleteChild | app/models/user_models.py:14-21 | deleting a child removes its row and its wishes, keeps every other child and wish and adds no row of its own, and leaves transactions untouched (no cascade declared) |
| PocketMoney.OwnMembers | app/api/v1/pocket_money.py:96 | the child's filter keeps exactly the rows with that child id |
| PocketMoney.Own | app/api/v1/pocket_money.py:95-96 | the child's filter; OwnMembers, OwnAppend and OwnKeepsOrder state that it keeps exactly the child's rows in booking order |
| PocketMoney.LedgerTotal | app/api/v1/pocket_money.py:69-82 | no contract of its own: the sum of the child's rows, which the ledger invariant equates with the balance; LedgerTotalAppend, LedgerTotalConcat and GetBalanceIsLedgerTotal state its behaviour |
| PocketMoney.OwnAppend | app/api/v1/pocket_money.py:96 | a booked row joins the filter of its own child only |
| PocketMoney.LedgerTotalAppend | app/api/v1/pocket_money.py:70-78 | booking a row changes only its own child's ledger total, by its amount |
| PocketMoney.LedgerTotalConcat | app/core/scheduler.py:29-47 | the ledger total over a concatenation adds up |
| PocketMoney.OwnKeepsOrder | app/api/v1/pocket_money.py:96-97 | filtering keeps booking order |
| PocketMoney.UnreferencedLedgerIsEmpty | app/api/v1/pocket_money.py:43-46 | a child no row points at has an empty ledger with total 0 |
| PocketMoney.CreditKeepsBalances | app/api/v1/pocket_money.py:29-37 | moving a balance by an amount while booking that amount for the same child keeps every balance equal to its ledger total |
| PocketMoney.CreditKeepsConsistent | app/api/v1/pocket_money.py:29-37 | the same step keeps the whole ledger invariant (ids, links, balances) |
| PocketMoney.AppendRow | app/api/v1/pocket_money.py:43-46 | a new child whose balance equals its ledger total keeps the invariant |
| PocketMoney.ShiftBalances | app/core/scheduler.py:29-47 | moving each balance by its child's total over a batch of new rows keeps the invariant |
| PocketMoney.Categories | app/api/v1/pocket_money.py:112 | `GROUP BY category`: each category once, exactly those that occur |
| PocketMoney.CategoryTotal | app/api/v1/pocket_money.py:108-112 | no contract of its own: `SUM(amount)` of one group; Rows, ToDictOfDistinctRows and RowsCoverTotal state its use |
| PocketMoney.OwnCategories | app/api/v1/pocket_money.py:111-112 | the groups of the child's rows are exactly the categories the child has booked |
| PocketMoney.Rows | app/api/v1/pocket_money.py:108-112 | each group row pairs its category with the sum of the amounts in it |
| PocketMoney.Grouped | app/api/v1/pocket_money.py:108-112 | no contract of its own: the rows of the grouped query, one per category by Categories and Rows, equal to the dict by GroupedIsDict |
| PocketMoney.ToDict | app/api/v1/pocket_money.py:115 | the dict has a key exactly for each row's category |
| PocketMoney.ToDictOfDistinctRows | app/api/v1/pocket_money.py:115 | over distinct groups, the dict maps each category to its total |
| PocketMoney.GroupedIsDict | app/api/v1/pocket_money.py:108-115 | the grouped rows and the dict built from them hold the same (category, total) pairs, as many of each |
| PocketMoney.RowSumAppend | app/api/v1/pocket_money.py:108-112 | the grouped totals grow by a new row's amount when its category is listed |
| PocketMoney.RowsCoverTotal | app/api/v1/pocket_money.py:108-115 | when the groups cover every category, the totals add up to the sum of all amounts |
| PocketMoney.LedgerStore.constructor | app/models/user_models.py:8-31 | empty tables satisfy the ledger invariant |
| PocketMoney.LedgerStore.GetBalance | app/api/v1/pocket_money.py:14-17 | NotFound exactly when no child has the name; otherwise that child's name and balance |
| PocketMoney.LedgerStore.GetChildIdByName | app/api/v1/pocket_money.py:53-56 | NotFound exactly when no child has the name; otherwise the id and name of that child |
| PocketMoney.LedgerStore.AdjustBalance | app/api/v1/pocket_money.py:24-39 | unknown id: NotFound, nothing changes; otherwise the balance becomes the new one and one "Correction" row of new minus old is booked, even for a delta of 0; the invariant is kept |
| PocketMoney.LedgerStore.AddChild | app/api/v1/pocket_money.py:43-48 | a taken name: DuplicateKey, the tables stay as they are and the id counter moves on; otherwise one new child at balance 0 with the next id; the invariant is kept |
| PocketMoney.LedgerStore.Deposit | app/api/v1/pocket_money.py:65-85 | unknown id: NotFound, nothing changes; otherwise one "Deposit" row of the amount is booked and the balance grows by it, other children untouched; the invariant is kept |
| PocketMoney.LedgerStore.History | app/api/v1/pocket_money.py:88-102 | a negative `skip` or `limit`: NegativeWindow (the database refuses it, HTTP 500), both ways; otherwise only the child's rows, newest first, `skip` skipped, at most `limit`, as many as are left |
| PocketMoney.LedgerStore.Stats | app/api/v1/pocket_money.py:108-115 | a key for exactly the categories the child booked, each mapped to the child's total in it |
| PocketMoney.GetBalanceIsLedgerTotal | app/api/v1/pocket_money.py:14-17 | the reported balance is the sum of the child's own transactions |
| PocketMoney.HistoryNewestFirst | app/api/v1/pocket_money.py:97 | transaction ids strictly decrease along every history page the query returns |
| PocketMoney.StatsAddUpToBalance | app/api/v1/pocket_money.py:108-115 | the grouped rows are the entries of the returned dict one for one (as many, each category mapped to its row's total), and their totals add up to the child's balance |
| Scheduler.AgeIsLatestAnniversary | app/core/scheduler.py:14-21 | no birth date gives 0; otherwise the age-th anniversary of the birth date falls on or before today and the next anniversary falls after it |
| Scheduler.AgeIsCompletedYears | app/core/scheduler.py:20-21 | the age is the number of anniversaries on or before today |
| Scheduler.AgeOnAnniversary | app/core/scheduler.py:20-21 | on the n-th anniversary the age is exactly n |
| Scheduler.AgeMonotone | app/core/scheduler.py:20-21 | for a fixed birth date the age never decreases as today moves forward |
| Scheduler.AgeExamples | app/core/scheduler.py:14-21 | born 2015-11-01: age 10 (500 cents) on 2026-02-01, 11 (550 cents) on 2026-11-02, 11 on the anniversary, 10 the day before |
| Scheduler.CalculateAge | app/core/scheduler.py:8-21 | no contract of its own: its meaning is the completed-years rule stated by AgeIsLatestAnniversary, AgeIsCompletedYears, AgeOnAnniversary and AgeMonotone |
| Scheduler.DecimalRoundTrip | app/core/scheduler.py:42 | the age printed in the payout description reads back as the age |
| Scheduler.PayoutCents | app/core/scheduler.py:30-35 | no contract of its own: CreditedByAge states it is 0 without a birth date and 50 cents per completed year otherwise |
| Scheduler.Credited | app/core/scheduler.py:30-38 | no contract of its own: CreditedByAge states which children change and by how much |
| Scheduler.CreditedByAge | app/core/scheduler.py:30-38 | no birth date or age at most 0 leaves the child unchanged; otherwise the balance grows by age times 50 cents |
| Scheduler.PayoutEntryShape | app/core/scheduler.py:38-45 | the payout row belongs to the child, carries the balance increase as a positive amount, category "Pocket Money" and "Weekly Pocket Money (Age n)" |
| Scheduler.PaidChildren | app/core/scheduler.py:28-38 | every child credited on its own, in table order |
| Scheduler.PayoutEntries | app/core/scheduler.py:29-45 | no contract of its own: PayoutEntriesShape, PayoutEntriesOwners, PayoutEntriesPerChild, PayoutRowOfChild and PayoutEntriesRows state what it holds, and PayoutPass proves the loop yields it |
| Scheduler.PayoutEntriesOwners | app/core/scheduler.py:39-45 | every payout row points at a child of the table |
| Scheduler.PayoutNumbering | app/core/scheduler.py:45-47 | payout rows get the next serial ids and keep the ledger linked |
| Scheduler.PayoutBalances | app/core/scheduler.py:28-47 | after the payout every balance still equals its ledger total |
| Scheduler.PayoutKeepsConsistent | app/core/scheduler.py:28-47 | the payout keeps the whole ledger invariant |
| Scheduler.PayoutPass | app/core/scheduler.py:29-45 | the loop yields the credited children and exactly the payout rows, in order |
| Scheduler.PayoutStep | app/core/scheduler.py:30-45 | one iteration credits the next child and stages its row exactly when its payout is positive, advancing both the table and the staged rows by that child |
| Scheduler.RunWeeklyPayout | app/core/scheduler.py:24-47 | the store afterwards holds the credited children and the old rows followed by the payout rows; the invariant is kept |
| Scheduler.PayoutEntriesShape | app/core/scheduler.py:39-45 | payout rows have consecutive ids, category "Pocket Money" and positive amounts |
| Scheduler.PayoutEntriesPerChild | app/core/scheduler.py:29-45 | each child gets one payout row when its payout is positive and none otherwise, and it equals the child's balance increase |
| Scheduler.PayoutRowOfChild | app/core/scheduler.py:29-45 | under unique ids, a child whose payout is not positive gets no row, and any other child gets exactly one row, which is its own payout entry |
| Scheduler.PayoutEntriesRows | app/core/scheduler.py:37-45 | under unique ids, every payout row is the payout entry of the child it points at, numbered by its position, and that child's payout is positive |
| Scheduler.PayoutEntriesLast | app/core/scheduler.py:29-45 | the last child of the table gets exactly its own payout row, which equals its balance increase |
| Scheduler.NoEntriesForOthers | app/core/scheduler.py:29-45 | no payout row points at a child outside the table |
| Scheduler.PayoutTwicePaysTwice | app/core/scheduler.py:28-47 | nothing deduplicates: two payouts on the same day credit twice |
| PhotoModel.ImageUrl | app/core/storage.py:60-64 | None exactly for an empty key, else the public bucket URL ending in the key |
| PhotoModel.ImageUrlInjective | app/core/storage.py:60-64 | the URL determines the key: two stored objects never share a URL |
| PhotoModel.ShownName | app/api/v1/family_photos.py:70 | the display name, or the username when the display name is empty |
| PhotoModel.UserIdsExact | app/api/v1/family_photos.py:117 | a user id is in the key set exactly when some row carries it |
| PhotoModel.PhotoIdsExact | app/models/photo_model.py:9 | a photo id is in the key set exactly when some row carries it |
| PhotoModel.UserIdsAppend | app/api/v1/family_photos.py:288-294 | inserting a user adds exactly its id |
| PhotoModel.PhotoIdsAppend | app/api/v1/family_photos.py:40-47 | inserting a photo adds exactly its id |
| PhotoModel.UserIdsSameKeys | app/api/v1/family_photos.py:198-233 | editing users in place without changing ids keeps the key set |
| PhotoModel.FindUser | app/api/v1/family_photos.py:117 | `.first()` by id: a row with the id and none before it, and None exactly when there is none |
| PhotoModel.FindPhoto | app/api/v1/family_photos.py:111 | `.first()` by id: a row with the id and none before it, and None exactly when there is none |
| PhotoModel.FindLike | app/api/v1/family_photos.py:94-95 | a like of the (photo, user) pair, and None exactly when there is none |
| PhotoModel.FindView | app/api/v1/family_photos.py:165-166 | a view of the (photo, user) pair, and None exactly when there is none |
| PhotoModel.FindUserIsMember | app/api/v1/family_photos.py:117 | the lookup succeeds exactly for ids in the key set |
| PhotoModel.FindPhotoIsMember | app/api/v1/family_photos.py:111 | the lookup succeeds exactly for ids in the key set |
| PhotoModel.FindUserIsTheRow | app/api/v1/family_photos.py:117 | with the primary key on `users.id` (ids increasing), looking a row's id up finds that very row |
| PhotoModel.FindPhotoIsTheRow | app/api/v1/family_photos.py:111 | with the primary key on `photos.id` (ids increasing), looking a row's id up finds that very row |
| PhotoModel.LikesOf | app/models/photo_model.py:18-20 | every row listed is a like of the photo taken from the table, and there are no more of them than likes |
| PhotoModel.LikesOfComplete | app/models/photo_model.py:18-20 | every like of the photo is listed |
| PhotoModel.CommentsOf | app/models/photo_model.py:21-23 | every row listed is a comment on the photo taken from the table, and there are no more of them than comments |
| PhotoModel.CommentsOfComplete | app/models/photo_model.py:21-23 | every comment on the photo is listed |
| PhotoModel.ViewsOf | app/models/photo_model.py:24-26 | every row listed is a view of the photo taken from the table, and there are no more of them than views |
| PhotoModel.ViewsOfComplete | app/models/photo_model.py:24-26 | every view of the photo is listed |
| PhotoModel.LikesNotOf | app/models/photo_model.py:18-20 | every like that survives the cascade is a like of another photo from the table |
| PhotoModel.LikesNotOfComplete | app/models/photo_model.py:18-20 | every like of another photo survives the cascade |
| PhotoModel.CommentsNotOf | app/models/photo_model.py:21-23 | every comment that survives the cascade is on another photo and from the table |
| PhotoModel.CommentsNotOfComplete | app/models/photo_model.py:21-23 | every comment on another photo survives the cascade |
| PhotoModel.ViewsNotOf | app/models/photo_model.py:24-26 | every view that survives the cascade is of another photo and from the table |
| PhotoModel.ViewsNotOfComplete | app/models/photo_model.py:24-26 | every view of another photo survives the cascade |
| PhotoModel.PhotosNot | app/api/v1/family_photos.py:127 | every photo that survives the delete is another photo from the table |
| PhotoModel.PhotosNotComplete | app/api/v1/family_photos.py:127 | every other photo survives the delete |
| PhotoModel.PhotosNotKeepsIds | app/api/v1/family_photos.py:127 | the delete removes exactly the photo's id from the key set |
| PhotoModel.PhotosNotKeepsOrder | app/models/photo_model.py:13-14 | the delete keeps the remaining photos in upload order |
| PhotoModel.LikesNotOfKeepsDistinct | app/models/photo_model.py:31-35 | the cascade keeps one like per pair |
| PhotoModel.ViewsNotOfKeepsDistinct | app/models/photo_model.py:54-58 | the cascade keeps one view per pair |
| PhotoModel.LikesNotOfKeepsKeyed | app/models/photo_model.py:33 | the cascade keeps like ids increasing and below the next serial id |
| PhotoModel.CommentsNotOfKeepsKeyed | app/models/photo_model.py:44 | the cascade keeps comment ids increasing and below the next serial id |
| PhotoModel.ViewsNotOfKeepsKeyed | app/models/photo_model.py:56 | the cascade keeps view ids increasing and below the next serial id |
| PhotoModel.NoLikesOf | app/models/photo_model.py:18-20 | a photo no like points at has no likes |
| PhotoModel.NoCommentsOf | app/models/photo_model.py:21-23 | a photo no comment points at has no comments |
| PhotoModel.NoViewsOf | app/models/photo_model.py:24-26 | a photo no view points at has no views |
| PhotoModel.CascadeLeavesNothing | app/models/photo_model.py:18-26 | after the cascaded delete the photo, its likes, comments and views are gone and every other row remains |
| FamilyPhotos.LikePairsSnoc | app/api/v1/family_photos.py:101-102 | a new like adds exactly its pair |
| FamilyPhotos.FindLikeIsPair | app/api/v1/family_photos.py:94-96 | the duplicate check finds a like exactly when the pair is liked |
| FamilyPhotos.ToggleFlipsPair | app/api/v1/family_photos.py:94-104 | the toggle removes a liked pair or adds an unliked one, changes no other pair, and keeps one like per pair |
| FamilyPhotos.LikePairsRemove | app/api/v1/family_photos.py:97-99 | deleting one row of distinct likes removes exactly its pair and keeps the rest distinct |
| FamilyPhotos.LikesDistinctSnoc | app/api/v1/family_photos.py:101-103 | adding a like for a pair not yet liked keeps one like per pair |
| FamilyPhotos.LikesKeyedRemove | app/api/v1/family_photos.py:97-99 | deleting one like keeps the like ids increasing and below the next serial id |
| FamilyPhotos.ToggledKeepsKeyed | app/api/v1/family_photos.py:94-104 | the toggle keeps like ids increasing; an insert takes the next serial id and advances the counter, a delete leaves it |
| FamilyPhotos.ToggleTwiceRestores | app/api/v1/family_photos.py:94-104 | two toggles of the same pair restore the original like set |
| FamilyPhotos.Toggled | app/api/v1/family_photos.py:94-104 | no contract of its own: ToggleFlipsPair, ToggleTwiceRestores, ToggledKeepsKeyed and ToggledKeepsLinks state what the toggle does to the like table |
| FamilyPhotos.LikeCountIsLikers | app/api/v1/family_photos.py:76 | with one like per pair, the like count is the number of users who like the photo |
| FamilyPhotos.ViewedAddsPair | app/api/v1/family_photos.py:165-172 | recording a view adds the pair, changes no other pair, and keeps one view per pair |
| FamilyPhotos.ViewedIdempotent | app/api/v1/family_photos.py:165-174 | recording the same view twice is recording it once |
| FamilyPhotos.Viewed | app/api/v1/family_photos.py:165-172 | no contract of its own: ViewedAddsPair, ViewedIdempotent and ViewedKeepsLinks state what recording a view does |
| FamilyPhotos.ViewCountIsViewers | app/api/v1/family_photos.py:78 | with one view per pair, the view count is the number of users who viewed the photo |
| FamilyPhotos.ViewersAreViewPairs | app/api/v1/family_photos.py:78 | a user is among the viewers exactly when the pair has a view |
| FamilyPhotos.CommentsOfAppend | app/api/v1/family_photos.py:147-153 | a new comment joins the end of its own photo's comments only |
| FamilyPhotos.Updated | app/api/v1/family_photos.py:207-224 | display name and bio are overwritten only by non-empty values and the key only when a file came; id, username and role stay |
| FamilyPhotos.UpdatedIdempotent | app/api/v1/family_photos.py:207-224 | applying the same update twice is applying it once |
| FamilyPhotos.ProfileCard | app/api/v1/family_photos.py:256-264 | the stored fields as they are, and the picture URL is the storage URL of the profile key (`ImageUrl`), absent exactly when there is no profile key |
| FamilyPhotos.ListedCard | app/api/v1/family_photos.py:273-281 | the same fields with the display name falling back to the username, and the picture URL is `ImageUrl` of the profile key |
| FamilyPhotos.ListedMatchesProfile | app/api/v1/family_photos.py:256-281 | the user list and the profile answer agree except for the display-name fallback |
| FamilyPhotos.UserOf | app/api/v1/family_photos.py:68-69 | the user row a foreign key points at carries that id |
| FamilyPhotos.UserOfIsFound | app/api/v1/family_photos.py:117 | with increasing user ids, the row a foreign key points at is the one the id lookup finds |
| FamilyPhotos.Previews | app/api/v1/family_photos.py:81-84 | one preview per comment, with its text and its author's username |
| FamilyPhotos.EntryOf | app/api/v1/family_photos.py:62-85 | the entry carries the photo's id and timestamp; EntryOfShape and EntryCountsUsers state the rest |
| FamilyPhotos.EntryOfShape | app/api/v1/family_photos.py:62-85 | a feed entry carries the caption, has the storage URL of its own key (`ImageUrl`, absent exactly when the key is empty), gives the uploader's id, username, display name with the username fallback and the storage URL of the uploader's profile key, counts the photo's likes, comments and views, and previews its last min(3, n) comments in order with their text and author's username |
| FamilyPhotos.EntryCountsUsers | app/api/v1/family_photos.py:76-78 | with one like and one view per pair, the counts are numbers of distinct users |
| FamilyPhotos.ToggledKeepsLinks | app/models/photo_model.py:34-35 | the toggle keeps every like pointing at an existing photo and user |
| FamilyPhotos.ViewedKeepsLinks | app/models/photo_model.py:57-58 | the view insert keeps every view pointing at an existing photo and user |
| FamilyPhotos.CascadeKeepsLinks | app/models/photo_model.py:18-26 | after the cascaded delete no row points at the deleted photo |
| FamilyPhotos.MayDelete | app/api/v1/family_photos.py:116-120 | allowed exactly for the uploader or a found user with role "parent" |
| FamilyPhotos.CreateKeepsValid | app/api/v1/family_photos.py:288-294 | inserting a user under the next serial id keeps the table invariant with the counter advanced |
| FamilyPhotos.UploadKeepsValid | app/api/v1/family_photos.py:40-47 | inserting a photo of a known uploader, stamped later than all before, under the next serial id keeps the table invariant with the counter advanced |
| FamilyPhotos.LikeKeepsValid | app/api/v1/family_photos.py:94-104 | the toggle keeps the table invariant; the like counter advances exactly when a like is added |
| FamilyPhotos.RefusedInsertKeepsValid | app/api/v1/family_photos.py:40-47 | a refused insert that uses up serial values keeps the table invariant with the counters moved forward |
| FamilyPhotos.ViewKeepsValid | app/api/v1/family_photos.py:165-172 | the view insert under the next serial id keeps the table invariant with the counter advanced |
| FamilyPhotos.CommentKeepsValid | app/api/v1/family_photos.py:147-153 | inserting a comment with known photo and author under the next serial id keeps the table invariant with the counter advanced |
| FamilyPhotos.DeleteKeepsValid | app/api/v1/family_photos.py:127-128 | the cascaded delete keeps the table invariant |
| FamilyPhotos.UpdateKeepsValid | app/api/v1/family_photos.py:207-224 | a profile update keeps the table invariant |
| FamilyPhotos.FeedWindow | app/api/v1/family_photos.py:57-58 | the feed window is newest first with `offset` skipped, its uploaders known, and timestamps strictly decreasing |
| FamilyPhotos.FeedNewestFirst | app/api/v1/family_photos.py:57-85 | feed entry k is the entry of the photo uploaded offset+k uploads before the latest |
| FamilyPhotos.FeedOf | app/api/v1/family_photos.py:60-86 | no contract of its own: FeedNewestFirst states which photo stands behind each entry, and BuildFeed proves the loop yields it |
| FamilyPhotos.BuildFeed | app/api/v1/family_photos.py:60-86 | the append loop yields the feed entries of the window's photos, in order |
| FamilyPhotos.FeedStep | app/api/v1/family_photos.py:60-86 | each pass of the loop extends the feed by the next photo's entry |
| FamilyPhotos.StatsOf | app/api/v1/family_photos.py:179-187 | NotFound exactly for a missing photo; otherwise the usernames of its viewers and likers in row order, and its comment count |
| FamilyPhotos.StatsAgreeWithFeed | app/api/v1/family_photos.py:76-78 | the stats and the feed report the same three counts for a photo |
| FamilyPhotos.PhotoStore.constructor | app/models/photo_model.py:7-62 | empty tables satisfy the table invariant |
| FamilyPhotos.PhotoStore.CreateUser | app/api/v1/family_photos.py:286-295 | a body without `username` or `display_name`: MissingField, nothing changes; otherwise one user with role "child" and the next id |
| FamilyPhotos.PhotoStore.UploadPhoto | app/api/v1/family_photos.py:40-49 | unknown uploader: ForeignKeyViolation, the tables stay as they are and the photo counter moves on; otherwise one photo with the next id and the given optional caption, stamped with the clock |
| FamilyPhotos.PhotoStore.LikePhoto | app/api/v1/family_photos.py:94-104 | an existing like: "Unliked" and it is removed; otherwise "Liked" and one like is added, or ForeignKeyViolation when the photo or user is missing, the likes stay as they are and the like counter moves on |
| FamilyPhotos.PhotoStore.RecordView | app/api/v1/family_photos.py:165-174 | an existing view: "already_viewed", nothing changes; otherwise "view_recorded" and one view is added, or ForeignKeyViolation when the photo or user is missing, the views stay as they are and the view counter moves on |
| FamilyPhotos.PhotoStore.DeletePhoto | app/api/v1/family_photos.py:111-129 | missing photo: NotFound; neither uploader nor parent: Forbidden; both leave the store unchanged; otherwise the photo and its likes, comments and views are removed |
| FamilyPhotos.PhotoStore.Cascade | app/api/v1/family_photos.py:126-128 | the photo row and every like, comment and view pointing at it are removed, the tables stay consistent and no other field changes |
| FamilyPhotos.PhotoStore.AddComment | app/api/v1/family_photos.py:142-156 | missing photo: NotFound, nothing changes; unknown author: ForeignKeyViolation, the comments stay as they are and the comment counter moves on; otherwise exactly one comment with the given text is appended and echoed |
| FamilyPhotos.PhotoStore.UpdateProfile | app/api/v1/family_photos.py:198-264 | unknown user: NotFound; otherwise only that user's row is updated and its profile card returned |
| FamilyPhotos.PhotoStore.GetFeed | app/api/v1/family_photos.py:52-86 | a negative `limit` or `offset`: NegativeWindow (the database refuses it, HTTP 500), both ways, nothing changes; otherwise the feed entries of the newest-first window, with timestamps strictly decreasing |
| FamilyPhotos.PhotoStore.GetAllUsers | app/api/v1/family_photos.py:267-283 | one card per user in table order, with the display-name fallback |
| Auth.Merge | family-photos-frontend/src/stores/auth.js:17 | every key of the update with its value, and every other key of the old record kept |
| Auth.MergeIdempotent | family-photos-frontend/src/stores/auth.js:17 | applying the same update twice is applying it once |
| Auth.MergeTwice | family-photos-frontend/src/stores/auth.js:17 | two updates in a row are one update in which the later values win |
| Auth.MergeNothing | family-photos-frontend/src/stores/auth.js:17 | an empty update keeps the record |
| Auth.Initial | family-photos-frontend/src/stores/auth.js:6 | a fresh page starts with the persisted user, or no one, in sync with storage |
| Auth.Apply | family-photos-frontend/src/stores/auth.js:9-24 | login sets the user, logout clears it, an update merges into a logged-in user and does nothing otherwise; login, logout and an effective update leave storage equal to memory |
| Auth.Run | family-photos-frontend/src/stores/auth.js:9-24 | no contract of its own: RunKeepsSynced, ReloadRestores and UpdatesNeedLogin state what a sequence of actions does |
| Auth.RunKeepsSynced | family-photos-frontend/src/stores/auth.js:9-24 | from a synced state, every sequence of actions keeps the persisted copy equal to the current user |
| Auth.ReloadRestores | family-photos-frontend/src/stores/auth.js:6-24 | after any actions, a reload starts from exactly the current session |
| Auth.UpdatesNeedLogin | family-photos-frontend/src/stores/auth.js:15 | updates while logged out change nothing |
| Auth.AuthStore.constructor | family-photos-frontend/src/stores/auth.js:5-7 | the initial state reads back the persisted user |
| Auth.AuthStore.Login | family-photos-frontend/src/stores/auth.js:9-12 | the user is set and persisted |
| Auth.AuthStore.UpdateUser | family-photos-frontend/src/stores/auth.js:14-20 | a no-op when logged out; otherwise the merged record, persisted |
| Auth.AuthStore.Logout | family-photos-frontend/src/stores/auth.js:21-24 | no current user and no persisted copy |
| Router.Named | family-photos-frontend/src/router/index.js:6-18 | a route is declared under a name exactly when the lookup finds it |
| Router.BeforeEach | family-photos-frontend/src/router/index.js:26-40 | protected and logged out redirects to login; login while logged in redirects home; each case both ways, everything else passes |
| Router.Destination | family-photos-frontend/src/router/index.js:26-40 | no contract of its own: NeverProtectedLoggedOut, NeverLoginLoggedIn and RedirectSettles state where navigations end |
| Router.NeverProtectedLoggedOut | family-photos-frontend/src/router/index.js:30-38 | with no current user, no navigation ends on a protected page |
| Router.NeverLoginLoggedIn | family-photos-frontend/src/router/index.js:34-38 | with a current user, no navigation ends on the login page |
| Router.RedirectSettles | family-photos-frontend/src/router/index.js:6-40 | the guard lets its own redirect target through |

## Left out

- MinIO object storage is not modelled: uploads, removals, bucket set-up,
  presigned URLs and storage errors. This covers the streaming in
  `upload_photo`, the cleanup in `delete_photo` and `update_profile`, and
  their 500 answers on a storage failure. `upload_photo` takes the object
  key as an input, and the feed and profile cards use only `get_image_url`.
- `EXTERNAL_URL_HOST` is not modelled as an environment variable: the
  image URL uses its default host.
- Clocks are not modelled: `date.today()` in the payout is a parameter;
  upload timestamps come from a counter; the timestamps of likes, comments,
  views and transactions are left out.
- Floating-point money is not modelled: amounts are integer cents and the
  0.5 rate is 50 cents, so float rounding is out of scope.
- Database session mechanics are not modelled: commit, rollback, refresh
  and engine set-up. Each endpoint acts atomically on the tables.
- `app/api/v1/db_manager.py` is not part of this model. Neither are the
  application bootstrap, the migrations or the HTTP client set-up of the
  front end.
- `frontend/src/router/index.js` is not part of this model: it is an older
  guard built on prompts, a network check and alerts.
- Concurrency is not modelled: no interleaved requests, and no payout
  running alongside them.
- The `albums` table is not held by the photo store because no endpoint
  reads or writes it. A photo's album reference is an optional field that
  the delete leaves alone.
- The `users` table is inferred. `app/models/user_models.py` declares no
  `User` class, and the other model files are not part of this model. The
  `User` row is read off the way `family_photos.py` uses it: a serial
  integer primary key `id`, and the string columns `username`,
  `display_name`, `role`, `bio` and `profile_photo_key`. No uniqueness of
  `username` is assumed or enforced: `create_user` accepts a taken
  username, and so does `CreateUser`.
- Queries without an `ORDER BY` are assumed to return rows in insertion
  order. PostgreSQL does not promise this, and an updated row can come back
  later in a sequential scan. The assumption covers:
  - the comments of a photo, whose relationship declares no `order_by`;
  - `db.query(Child).all()` in the payout, so `PaidChildren` and the
    numbering of `PayoutEntries` and `PayoutEntriesRows` follow table order;
  - `db.query(User).all()` in `GetAllUsers`;
  - the `photo.views` and `photo.likes` lists in `StatsOf`.
- `upload_photo` leaves an orphan object in storage when
  `ForeignKeyViolation` refuses the row, because the object was stored
  first. Storage is not modelled, so the model does not show this.
- FamilyPhotos.PhotoStore.DeletePhoto: a requester who is not the uploader
  and has no user row is excluded by a precondition. The code dereferences
  `None` there, which fails with a server error.
- FamilyPhotos.PhotoStore.UploadPhoto: requires a non-empty key, standing
  in for the generated uuid-based key, which is never empty.
- FamilyPhotos.PhotoStore.CreateUser: a missing JSON key is the
  `MissingField` error, where the code raises `KeyError` (a 500 answer).
  The JSON values are modelled as strings, so a null `display_name` is not
  modelled.
- FamilyPhotos.PhotoStore.LikePhoto: photo and user ids are natural
  numbers. A negative id in the request behaves like any unknown id, which
  the model does not show. The same holds for the other photo endpoints.
- FamilyPhotos.PhotoStore.UpdateProfile: the profile key a file upload
  would produce (`profiles/{id}_{hex}`) is an input, required non-empty
  when a file came, as the generated key always is. A failed upload (500)
  is not modelled.
- Children (`UserModels.DeleteChild`): no endpoint deletes a child. The
  cascade is a pure function on the tables, and nulling the foreign keys of
  orphaned transactions is not modelled.
- Auth.AuthStore: the persisted copy is modelled as the decoded record, so
  JSON text encoding, a falsy or malformed stored value, and values other
  than strings are not modelled.
- Router.BeforeEach: the guard receives the current user directly, not
  through the store instance. Route records other than their name and
  `requiresAuth` meta are not modelled.
