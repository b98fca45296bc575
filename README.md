# MiniSteam in Dafny

MiniSteam is a small game store. It has a REST API (`ministeam-api`, Express over MySQL) and a React front end (`ministeam-web`). This project models the core of the store as five relations between users and games, together with the handlers that guard every change to them:

- the cart (`carrito`);
- the wishlist (`lista_deseos`);
- the library (`biblioteca_usuario`, with install status and minutes played);
- the purchase ledger (`compras` and its `compra_detalle` lines);
- the reviews (`resenas`).

It also models the tables they refer to: the catalogue (`videojuegos` and `requisitos`), the genres and the users. Last, it models the browser-side cart and wishlist stores.

The model follows the program file by file:

- Each repository module holds a `class` per table. Its rows are a `seq` field. Statements that write are `method`s with `modifies`. Queries are `function`s with `reads`. The table's unique keys are its `Valid()` predicate.
- Each controller module holds one function per guard chain. A `...Check` function returns the refusal, in the order the handler tests. A `method` per handler refuses with that status and changes nothing, or performs the writes. Its postcondition states the new tables and the answer.
- Checkout (`createPurchase`) is the one handler that writes several tables. It is a loop with invariants: one purchase line and one library entry per cart item, in cart order, then the emptied cart. Lemmas show that the lines add up to the purchase total, that the purchase reads back exactly these lines, and that no cart ever holds a game its user owns.

Modelling choices:

- **Request values.** Route parameters and query values are text. They are read with a model of JavaScript's `parseInt`: leading white space, one sign, a `0x` prefix, then the longest run of digits, with NaN as `None`. A lemma proves that `parseInt` reads back the decimal spelling of an integer (integers are exact here; see Left out).
- **Ids.** Users, games and purchases are never deleted, so their id is the row's position counted from 1. Genres and reviews are deleted outright, so their rows carry the id AUTO_INCREMENT gave them, and the table keeps the next one.
- **Row order.** It is insertion order, so ordering by the date a row was inserted (`fecha_agregado`, `fecha_adquirido`, `fecha_compra`, `fecha_resena`, `fecha_registro`) DESC, newest first, is reverse insertion order. Pages sorted by such a date are cut from the listing in that order, and `DatePage` states which rows fill them. The users listing (`UserIds`) is already newest registration first, and its pages are cut from it with `Page`.
- **Prices.** Prices are integers (cents), so totals are exact sums. The price bounds of the catalogue query are given in euros; they are read as exact decimals (a model of `parseFloat`) and turned into the cents bound that admits the same prices. Review scores are JSON numbers, modelled as `real`.
- **Outside effects.** Password hashing, password comparison and the JWT are parameters of the members that use them.

## Model

| member | source | states |
|---|---|---|
| Pairs.Without | ministeam-api/repositories/cart.repository.js:60-68 | deleting one (user, game) pair keeps exactly the rows that are not that pair |
| Pairs.WithoutUser | ministeam-api/repositories/cart.repository.js:71-75 | deleting all of a user's rows keeps exactly the other users' rows |
| Pairs.GamesOf | ministeam-api/repositories/cart.repository.js:78-87 | a game is listed exactly when the user has a row for it, one entry per row |
| Pairs.WithoutAfterInsert | ministeam-api/repositories/wishlist.repository.js:21-38 | deleting a pair just inserted into a table without it restores the table |
| Pairs.WithoutAbsent | ministeam-api/repositories/cart.repository.js:60-68 | deleting an absent pair changes nothing |
| Pairs.InsertKeepsUnique | ministeam-api/repositories/cart.repository.js:37-45 | inserting an absent pair keeps the (user, game) key unique, and the pair then occurs once |
| Pairs.WithoutKeepsUnique | ministeam-api/repositories/cart.repository.js:60-68 | deleting a pair keeps the key unique |
| Pairs.WithoutUserKeepsUnique | ministeam-api/repositories/cart.repository.js:71-75 | deleting a user's rows keeps the key unique |
| Pairs.GamesOfInsert | ministeam-api/repositories/cart.repository.js:37-45 | an insert for one user leaves every other user's game list unchanged, and appends the game to this user's list |
| Pairs.WithoutUserEmpties | ministeam-api/repositories/cart.repository.js:71-75 | after clearing, the user has no rows and no games |
| Holdings.ActiveItems | ministeam-api/repositories/cart.repository.js:5-34 | the listing holds exactly the user's rows whose game exists and is active, newest first, each with its catalogue price |
| Holdings.TotalNonNegative | ministeam-api/repositories/cart.repository.js:28-32 | the total of a listing is at least zero when no catalogue price is negative |
| Holdings.ActiveItemsInsert | ministeam-api/repositories/cart.repository.js:37-45 | after inserting an active game, the listing is that item followed by the old listing |
| Holdings.TotalCons | ministeam-api/repositories/cart.repository.js:28-32 | putting an item in front adds its price to the total |
| Holdings.ActiveItemsOtherUser | ministeam-api/repositories/cart.repository.js:5-34 | rows of other users never change a user's listing |
| CartRepository.CartTable.GetCartByUser | ministeam-api/repositories/cart.repository.js:5-34 | the active items of the user, their exact sum, and never more items than the user has rows |
| CartRepository.CartTable.GetGameIds | ministeam-api/repositories/cart.repository.js:78-87 | as many ids as `countItems`, and a game is listed exactly when it is in the cart, active or not |
| CartRepository.CartTable.AddItem | ministeam-api/repositories/cart.repository.js:37-45 | the insert succeeds exactly when the pair was absent; the pair is then present once and nothing else changes |
| CartRepository.CartTable.RemoveItem | ministeam-api/repositories/cart.repository.js:60-68 | true exactly when the pair was present; afterwards it is gone and all other rows stay |
| CartRepository.CartTable.ClearCart | ministeam-api/repositories/cart.repository.js:71-75 | answers the number of the user's rows, deletes all of them and keeps the other users' rows |
| CartRepository.CountCoversListing | ministeam-api/repositories/cart.repository.js:78-99 | a cart row of an inactive game makes `countItems` exceed the `getCartByUser` listing |
| CartController.BodyOf | ministeam-api/controllers/cart.controller.js:12-16 | the answer's `itemCount` is the length of its items |
| CartController.GetCart | ministeam-api/controllers/cart.controller.js:6-21 | the active items, their total, and a count equal to the listing's length, never above the row count |
| CartController.AddToCartCheck | ministeam-api/controllers/cart.controller.js:29-71 | the refusals in handler order, each as an iff: non-numeric id, id 0, no such game, inactive game, already owned, already in the cart |
| CartController.OwnedCheckedBeforeCart | ministeam-api/controllers/cart.controller.js:55-69 | a game both owned and in the cart is refused as owned |
| CartController.InactiveIsBadRequest | ministeam-api/controllers/cart.controller.js:49-53 | an inactive game gives 400 from the cart |
| CartController.AddToCart | ministeam-api/controllers/cart.controller.js:24-85 | a refusal changes nothing; otherwise 201, the pair is inserted once, the listing gains the game in front, the count equals the listing's length, and no cart holds an owned game |
| CartController.RemoveFromCart | ministeam-api/controllers/cart.controller.js:88-117 | 400 on a non-numeric id; 404 exactly when the pair was absent; otherwise the pair is gone and other users' rows are unchanged |
| CartController.ClearCart | ministeam-api/controllers/cart.controller.js:120-136 | always 200 with no items, total 0 and count 0; the user has no rows left; other users keep theirs |
| WishlistRepository.WishlistTable.GetWishlist | ministeam-api/repositories/wishlist.repository.js:4-19 | exactly the user's wished-for games that are active, as the `ActiveItems` listing: newest addition first |
| WishlistRepository.WishlistTable.AddItem | ministeam-api/repositories/wishlist.repository.js:21-25 | the insert succeeds exactly when the pair was absent; it is then present once |
| WishlistRepository.WishlistTable.RemoveItem | ministeam-api/repositories/wishlist.repository.js:33-38 | true exactly when the pair was present; afterwards it is gone and all other rows stay |
| WishlistController.GetWishlist | ministeam-api/controllers/wishlist.controller.js:5-14 | the active wished-for games, newest addition first, and a count equal to their number |
| WishlistController.AddToWishlistCheck | ministeam-api/controllers/wishlist.controller.js:21-39 | the refusals in handler order, each as an iff: non-numeric id, missing or inactive game (both 404), owned, already wished |
| WishlistController.AddToWishlist | ministeam-api/controllers/wishlist.controller.js:16-53 | a refusal changes nothing; otherwise 201, the pair is inserted once, and the listing returned is the new game followed by the listing as it was; the count equals the listing's length; only the wishlist table is written |
| WishlistController.RemoveFromWishlist | ministeam-api/controllers/wishlist.controller.js:55-79 | 400 on a non-numeric id; 404 exactly when the pair was absent; otherwise the pair is gone |
| LibraryRepository.SetStatus | ministeam-api/repositories/library.repository.js:145-154 | only the pair's entry changes, and only in its status |
| LibraryRepository.AddMinutes | ministeam-api/repositories/library.repository.js:157-166 | the pair's entry gains the minutes; every other entry is kept |
| LibraryRepository.AddMinutesMonotone | ministeam-api/repositories/library.repository.js:157-166 | non-negative minutes never lower any playtime, and only minutes change |
| LibraryRepository.UpdatesKeepPairs | ministeam-api/repositories/library.repository.js:145-166 | status and playtime updates keep the (user, game) key unique and ownership unchanged |
| LibraryRepository.SortByMinutes | ministeam-api/repositories/library.repository.js:219-221 | a permutation of its input in decreasing playtime |
| LibraryRepository.Played | ministeam-api/repositories/library.repository.js:208-227 | exactly the user's entries with playtime above zero |
| LibraryRepository.MostPlayed | ministeam-api/repositories/library.repository.js:208-227 | at most `limit` of the user's played entries, none repeated, most played first; every played entry left out has no more minutes than any listed one; no zero-minute entry; all of them when fewer than `limit` |
| LibraryRepository.TopOfSorted | ministeam-api/repositories/library.repository.js:219-221 | the first `k` of a list sorted by decreasing playtime are a sorted sub-multiset, and no entry after them has more minutes than one of them |
| LibraryRepository.LibrarySortColumn | ministeam-api/repositories/library.repository.js:39-40 | the requested column if it is on the allow-list, else `fecha_adquirido` |
| LibraryRepository.Listing | ministeam-api/repositories/library.repository.js:20-38 | the user's entries, filtered by status only when a non-empty status is given |
| LibraryRepository.GetUserLibrary | ministeam-api/repositories/library.repository.js:20-98 | a page exists exactly when page and limit parse and give a non-negative offset; it echoes page, limit, the allow-listed sort column and the order; it holds exactly min(limit, total - offset) entries, each the user's and of the requested `estado` when one is given; total is the size of the filtered listing; totalPages is the ceiling of total / limit (not a number for limit 0) |
| LibraryRepository.LibraryByDate | ministeam-api/repositories/library.repository.js:39-64 | sorted by `fecha_adquirido`, the page holds the listing's entries from the offset on, newest first under DESC and oldest first under ASC |
| LibraryRepository.LibraryTable.GetGameDetails | ministeam-api/repositories/library.repository.js:101-130 | the pair's entry joined with its game; null exactly when the user does not own the game or it is not in the catalogue |
| LibraryRepository.LibraryTable.AddGame | ministeam-api/repositories/library.repository.js:5-17 | inserts (user, game, purchase) with the assumed initial status `InitialStatus` and 0 minutes exactly when the pair had no entry |
| LibraryRepository.LibraryTable.UpdateGameStatus | ministeam-api/repositories/library.repository.js:145-154 | true exactly when the user owns the game; the new table is `SetStatus` of the old one |
| LibraryRepository.LibraryTable.AddPlaytime | ministeam-api/repositories/library.repository.js:157-166 | true exactly when the user owns the game; the new table is `AddMinutes` of the old one |
| LibraryRepository.First | ministeam-api/repositories/library.repository.js:133-142 | an entry of the pair, or none exactly when the user does not own the game |
| LibraryController.Filters | ministeam-api/controllers/library.controller.js:7-15 | page 1, limit 20, sort `fecha_adquirido` and order DESC unless the query gives them |
| LibraryController.GetUserLibrary | ministeam-api/controllers/library.controller.js:4-24 | 200 with a page of the caller's own entries, of the requested `estado` when one is given, echoing the parsed page and limit, the sort and the order, with the filtered listing's size as total; or 500 exactly when the statement is refused |
| LibraryController.LibraryPageByDate | ministeam-api/controllers/library.controller.js:4-24 | sorted by acquisition date, the answered page holds the caller's entries from the offset on, in the requested direction |
| LibraryController.DefaultLibraryQuery | ministeam-api/controllers/library.controller.js:7-15 | an empty query gives page 1 of 20 by acquisition date, DESC: the caller's 20 most recently acquired games, newest first (all of them when fewer), with their total |
| LibraryController.GetGameDetails | ministeam-api/controllers/library.controller.js:27-49 | 400 exactly on a non-numeric id, 404 exactly when the game is not the caller's, else the joined row |
| LibraryController.UpdateStatusCheck | ministeam-api/controllers/library.controller.js:56-71 | the refusals as iffs: non-numeric id, then a state outside the four valid ones (or missing), then not owned |
| LibraryController.StatusCheckedBeforeOwnership | ministeam-api/controllers/library.controller.js:63-68 | an unknown state is refused before ownership is looked at |
| LibraryController.SetStatusSets | ministeam-api/controllers/library.controller.js:76-92 | after the update the pair's entry carries the new state |
| LibraryController.UpdateGameStatus | ministeam-api/controllers/library.controller.js:52-97 | a refusal changes nothing; otherwise 200, only the pair's status changes, and the answer carries the new state |
| LibraryController.UpdatePlaytimeCheck | ministeam-api/controllers/library.controller.js:104-121 | the refusals as iffs: non-numeric id, minutes (a JSON number) missing, zero or negative, then not owned; a fraction passes |
| LibraryController.UpdatePlaytime | ministeam-api/controllers/library.controller.js:100-143 | a refusal changes nothing; otherwise the pair's entry gains exactly `parseInt(minutos)`, the whole part of the minutes, and every other entry and column is unchanged |
| LibraryController.WholeMinutes | ministeam-api/controllers/library.controller.js:110-125 | minutes that pass the guard add their whole part, which is never negative and is 0 exactly for a fraction below one minute |
| PurchaseRepository.NewPurchase | ministeam-api/repositories/purchase.repository.js:5-24 | the given fields, with `notas` null unless given and non-empty |
| PurchaseRepository.NewDetail | ministeam-api/repositories/purchase.repository.js:27-46 | quantity 1 and discount 0 unless given and non-zero |
| PurchaseRepository.DetailsOf | ministeam-api/repositories/purchase.repository.js:60-85 | exactly the lines of that purchase |
| PurchaseRepository.DetailsOfAppend | ministeam-api/repositories/purchase.repository.js:60-85 | selecting lines distributes over appending lines |
| PurchaseRepository.PurchasesOf | ministeam-api/repositories/purchase.repository.js:89-129 | exactly the ids of that user's purchases |
| PurchaseRepository.PurchaseTable.FindById | ministeam-api/repositories/purchase.repository.js:49-86 | null exactly for an unknown id; otherwise the purchase and exactly its lines |
| PurchaseRepository.PurchaseTable.FindByUser | ministeam-api/repositories/purchase.repository.js:89-129 | a page exists exactly when page and limit parse and give a non-negative offset; it echoes them; it holds the user's purchases from the offset on, newest first; totalPages is the ceiling of total / limit |
| PurchaseRepository.PurchaseTable.Create | ministeam-api/repositories/purchase.repository.js:5-24 | appends the purchase, answers its id, and it has no lines yet |
| PurchaseRepository.PurchaseTable.CreateDetail | ministeam-api/repositories/purchase.repository.js:27-46 | appends one line with the defaults and keeps the lines' foreign key |
| PurchaseRepository.PurchaseTable.UpdatePaymentStatus | ministeam-api/repositories/purchase.repository.js:191-200 | true exactly when the purchase exists; only its `estado_pago` changes |
| PurchaseRepository.NoDetailsYet | ministeam-api/repositories/purchase.repository.js:5-24 | a purchase id beyond every line's purchase has no lines |
| PurchasesController.LineOf | ministeam-api/controllers/purchases.controller.js:32-38 | the line of an item: its price, quantity 1, no discount |
| PurchasesController.DetailsFor | ministeam-api/controllers/purchases.controller.js:32-46 | one line per item, in item order |
| PurchasesController.EntriesFor | ministeam-api/controllers/purchases.controller.js:32-46 | one library entry per item, linked to the purchase, in item order |
| PurchasesController.LinesAddUpToTotal | ministeam-api/controllers/purchases.controller.js:23-38 | the prices paid on the lines sum exactly to the cart total |
| PurchasesController.DetailsOfOwnLines | ministeam-api/controllers/purchases.controller.js:32-38 | looking up the purchase's lines finds exactly the checkout lines |
| PurchasesController.ActiveItemsDistinct | ministeam-api/controllers/purchases.controller.js:17-20 | a cart without duplicate rows lists each game once |
| PurchasesController.SnapshotUnowned | ministeam-api/controllers/purchases.controller.js:17-46 | when no cart holds an owned game, no item of the snapshot is owned |
| PurchasesController.EntriesForOthers | ministeam-api/controllers/purchases.controller.js:40-46 | entries granted to one user for some games leave ownership of every other (user, game) pair unchanged |
| PurchasesController.CheckoutKeepsCartsUnowned | ministeam-api/controllers/purchases.controller.js:40-49 | after the grants and the clearing, no cart holds a game its user owns |
| PurchasesController.CheckoutLines | ministeam-api/controllers/purchases.controller.js:32-56 | the fresh purchase reads back exactly the checkout lines, and they sum to its total |
| PurchasesController.CheckedOutReadsBack | ministeam-api/controllers/purchases.controller.js:23-56 | after a checkout the cart is empty, the purchase total equals the lines' sum, the status is `completado`, and every item is owned |
| PurchasesController.NoLinesOfOthers | ministeam-api/controllers/purchases.controller.js:32-38 | the checkout lines belong to no other purchase |
| PurchasesController.CheckedOutKeepsCartsUnowned | ministeam-api/controllers/purchases.controller.js:23-56 | a completed checkout keeps every cart free of owned games |
| PurchasesController.CreatePurchase | ministeam-api/controllers/purchases.controller.js:7-61 | 400 exactly without a payment method or with no active cart item, and then nothing changes; 201 writes the purchase (cart total, `completado`, `notas` or null), one line and one entry per item in cart order, and empties the cart; a 500 is possible only if the cart already held an owned game, and leaves the purchase, the lines up to that item and the entries before it, with the cart untouched |
| PurchasesController.Checkout | ministeam-api/controllers/purchases.controller.js:23-56 | the writes after the guards, as `CheckedOut` on success and `CheckoutFailed` on a 500; it succeeds whenever no item is already owned |
| PurchasesController.RecordItem | ministeam-api/controllers/purchases.controller.js:32-46 | one line for the item, then its library entry, refused exactly when the game is already owned, and then the library is unchanged |
| PurchasesController.RecordItems | ministeam-api/controllers/purchases.controller.js:32-46 | the loop writes exactly the lines and the entries of the items, in order, and succeeds when none is owned; when it stops, it stopped at the first item owned before the checkout, after that item's line and before its entry |
| PurchasesController.RecordStep | ministeam-api/controllers/purchases.controller.js:32-46 | one pass: the item gets its line, and its entry exactly when its game was not owned before the checkout |
| PurchasesController.GetPurchaseById | ministeam-api/controllers/purchases.controller.js:82-106 | 400 on a non-numeric id, 404 on an unknown purchase, 403 unless the caller bought it or is an admin, each as an iff; otherwise the purchase with its lines |
| ReviewRepository.IndexOf | ministeam-api/repositories/review.repository.js:16-26 | the position of the review with that id, or none exactly when no review has it |
| ReviewRepository.PatchFields | ministeam-api/repositories/review.repository.js:94-111 | the score is written only when truthy; comment and recommendation whenever they are defined |
| ReviewRepository.Patched | ministeam-api/repositories/review.repository.js:94-119 | the listed columns take the given values, all others keep theirs, and id, user and game never change |
| ReviewRepository.EmptyPatchNoChange | ministeam-api/repositories/review.repository.js:106-111 | a body with no fields changes no row |
| ReviewRepository.ReviewsWith | ministeam-api/repositories/review.repository.js:28-86 | exactly the reviews of the game (`findByGame`) or by the user (`findByUser`) |
| ReviewRepository.Paginate | ministeam-api/repositories/review.repository.js:29-55 | page and limit default to 1 and 10; a page exists exactly when the offset is non-negative; it echoes the defaulted values, holds the given reviews from the offset on, newest first, and totalPages is the ceiling of total / limit |
| ReviewRepository.ReviewTable.FindById | ministeam-api/repositories/review.repository.js:16-26 | the review with the id, or null exactly when none has it |
| ReviewRepository.ReviewTable.FindByGame | ministeam-api/repositories/review.repository.js:28-56 | a page of the game's reviews, newest first from the offset on, with their total; refused exactly for a page below 1 or a negative limit |
| ReviewRepository.ReviewTable.FindByUser | ministeam-api/repositories/review.repository.js:58-86 | a page of the user's reviews, newest first from the offset on, with their total; refused exactly for a page below 1 or a negative limit |
| ReviewRepository.ReviewTable.Create | ministeam-api/repositories/review.repository.js:4-14 | refused exactly when the user already reviewed the game; otherwise appended under the next id |
| ReviewRepository.ReviewTable.Update | ministeam-api/repositories/review.repository.js:94-119 | null, and no change, exactly when there is no field or no such review; otherwise only that row is rewritten, with `Patched` |
| ReviewRepository.ReviewTable.Delete | ministeam-api/repositories/review.repository.js:121-126 | true exactly when the review existed; afterwards it is gone and every other review stays |
| ReviewRepository.RemoveKeepsKeys | ministeam-api/repositories/review.repository.js:121-126 | removing a row keeps ids and (user, game) pairs unique and ids below the next one |
| ReviewRepository.RemoveById | ministeam-api/repositories/review.repository.js:121-126 | with unique ids, removing a row removes exactly the rows with its id |
| ReviewRepository.ReplaceKeepsKeys | ministeam-api/repositories/review.repository.js:94-119 | rewriting a row with the same id, user and game keeps the keys unique |
| ReviewsController.ParseMember | ministeam-api/controllers/reviews.controller.js:46-48 | an absent body member reads as NaN |
| ReviewsController.GetGameReviews | ministeam-api/controllers/reviews.controller.js:4-24 | 400 exactly on a non-numeric game id; the page holds that game's reviews from the offset on, newest first |
| ReviewsController.GetUserReviews | ministeam-api/controllers/reviews.controller.js:26-41 | the page holds the caller's reviews from the offset on, newest first |
| ReviewsController.DefaultReviewPage | ministeam-api/controllers/reviews.controller.js:26-41 | with no query: page 1 of 10 holding the caller's 10 most recent reviews, newest first (all of them when fewer), with their total |
| ReviewsController.CreateReviewCheck | ministeam-api/controllers/reviews.controller.js:48-76 | the refusals in handler order, each as an iff: missing id or score (0 counts as missing), score outside 1..10 (both bounds accepted), not owned (403), already reviewed (409) |
| ReviewsController.Recommendation | ministeam-api/controllers/reviews.controller.js:78-84 | `recomendado` defaults to true when absent |
| ReviewsController.CreateReview | ministeam-api/controllers/reviews.controller.js:43-94 | a refusal changes nothing; otherwise 201 and the review is stored with `comentario` or null and the defaulted recommendation; every review stays by an owner with a score in range |
| ReviewsController.UpdateReviewCheck | ministeam-api/controllers/reviews.controller.js:100-122 | the refusals as iffs: non-numeric id, no review, not the author (admins included), a truthy score out of range |
| ReviewsController.UpdateReview | ministeam-api/controllers/reviews.controller.js:96-138 | a refusal changes nothing; otherwise 200 with the rewritten review, or null (and no change) when no field is given; both table-wide facts are kept |
| ReviewsController.IdsAreKeys | ministeam-api/repositories/review.repository.js:94-119 | in a table with unique ids, only one row carries a given id |
| ReviewsController.DeleteReviewCheck | ministeam-api/controllers/reviews.controller.js:144-160 | the refusals as iffs: non-numeric id, no review, neither the author nor an admin |
| ReviewsController.DeleteReview | ministeam-api/controllers/reviews.controller.js:140-167 | a refusal changes nothing; otherwise the review is gone and all others stay |
| UserRepository.NewUser | ministeam-api/repositories/user.repository.js:5-22 | the given fields, role `cliente` by default, active (the column default, see Left out) |
| UserRepository.UserFields | ministeam-api/repositories/user.repository.js:105-132 | username, email and password are written when truthy; `pais` and `activo` whenever defined |
| UserRepository.PatchedUser | ministeam-api/repositories/user.repository.js:105-149 | the listed columns take the given values, the others and the role keep theirs |
| UserRepository.EmptyUserPatchNoChange | ministeam-api/repositories/user.repository.js:127-132 | a body with no field changes no row |
| UserRepository.PatchedUserIdempotent | ministeam-api/repositories/user.repository.js:105-149 | writing the same body twice is writing it once |
| UserRepository.FirstMatch | ministeam-api/repositories/user.repository.js:49-58 | the first row, in table order, that holds the username or the email; none exactly when no row does |
| UserRepository.FirstMatchClash | ministeam-api/repositories/user.repository.js:49-58 | the row the lookup returns holds the username exactly when the first row holding either value holds the username, and holds only the email exactly when that first row holds the email and not the username |
| UserRepository.UserIds | ministeam-api/repositories/user.repository.js:61-102 | the ids that pass the `activo` filter (only when defined), newest first |
| UserRepository.UserTable.FindById | ministeam-api/repositories/user.repository.js:25-34 | the row with the id, null exactly for an unknown id |
| UserRepository.UserTable.FindByEmail | ministeam-api/repositories/user.repository.js:37-46 | a row with the email, null exactly when none has it |
| UserRepository.UserTable.FindByUsernameOrEmail | ministeam-api/repositories/user.repository.js:49-58 | a row holding the username or the email, null exactly when neither is taken |
| UserRepository.UserTable.FindAll | ministeam-api/repositories/user.repository.js:61-102 | a page exists exactly when page and limit parse and give a non-negative offset; it echoes them, holds at most `limit` ids that pass the filter, total counts every user that passes it, and totalPages is the ceiling of total / limit |
| UserRepository.UserTable.FindAllPage | ministeam-api/repositories/user.repository.js:74-86 | the page is cut at the requested offset from the filtered users, newest registration first (`ORDER BY fecha_registro DESC`) |
| UserRepository.UserTable.Create | ministeam-api/repositories/user.repository.js:5-22 | a duplicate username or email is refused, changing nothing; otherwise the row is appended and its id answered |
| UserRepository.UserTable.Update | ministeam-api/repositories/user.repository.js:105-149 | null exactly when there is no field or no such user; duplicate key exactly when the new row clashes with another; otherwise only that row changes |
| UserRepository.UserTable.SoftDelete | ministeam-api/repositories/user.repository.js:152-161 | true exactly when the user exists; the row stays and only `activo` becomes false |
| UsersController.EmailFormatIsRegex | ministeam-api/controllers/users.controller.js:31-34 | the executable email test agrees with `^[^\s@]+@[^\s@]+\.[^\s@]+$`, both directions |
| UsersController.EmailFormatMatches | ministeam-api/controllers/users.controller.js:31-34 | a string that passes the test matches the pattern |
| UsersController.MatchesAreEmailFormat | ministeam-api/controllers/users.controller.js:31-34 | a string that matches the pattern passes the test |
| UsersController.AccountOf | ministeam-api/controllers/users.controller.js:71-80 | the `user` object of the answer: id, username, email, country and role of the row |
| UsersController.ProfileOf | ministeam-api/repositories/user.repository.js:25-34 | every column but the password hash |
| UsersController.SignupCheck | ministeam-api/controllers/users.controller.js:24-56 | the refusals in handler order, each as an iff: a missing field, a bad email format, a password under 6 UTF-16 code units, then, exactly when a row holds the username or the email, a taken username if the first such row holds the username and a taken email otherwise |
| UsersController.AstralPasswordLength | ministeam-api/controllers/users.controller.js:37 | three characters outside the Basic Multilingual Plane make a `length` of 6, so such a password passes |
| UsersController.Signup | ministeam-api/controllers/users.controller.js:19-88 | a refusal changes nothing; otherwise 201 and an active `cliente` row with the password hash and `pais` or null |
| UsersController.Login | ministeam-api/controllers/users.controller.js:91-137 | 400 without credentials, 401 for an unknown email, 403 for an inactive account, 401 for a wrong password, each as an iff; otherwise the account |
| UsersController.InactiveRefusedWhateverThePassword | ministeam-api/controllers/users.controller.js:103-117 | an inactive account gets 403 however the password compares |
| UsersController.ActivoFilter | ministeam-api/controllers/users.controller.js:142-148 | `'true'` and `'false'` filter; anything else lists all |
| UsersController.GetAllUsers | ministeam-api/controllers/users.controller.js:140-155 | 200 exactly when the page is listed, else 500; ids that pass the filter; with no query page 1 of 10 |
| UsersController.GetAllUsersPage | ministeam-api/controllers/users.controller.js:140-155 | page and limit as parsed (1 and 10 by default), total counts the users that pass the filter, the ids are the page at that offset of those users newest registration first, and with no page or limit the 10 newest |
| UsersController.GetUserById | ministeam-api/controllers/users.controller.js:158-176 | 400 exactly on a non-numeric id, 404 exactly on an unknown one, else the row without its hash |
| UsersController.GetUserProfile | ministeam-api/controllers/users.controller.js:179-193 | the caller's own row, 404 exactly when it is missing |
| UsersController.UpdateData | ministeam-api/controllers/users.controller.js:213-234 | truthy username and email, a defined `pais`, the hash of a truthy password, and `activo` only from an admin |
| UsersController.OnlyAdminsChangeActivo | ministeam-api/controllers/users.controller.js:222-224 | an update on a non-admin's behalf keeps every row's `activo` |
| UsersController.OrEmpty | ministeam-api/controllers/users.controller.js:238-241 | the value when truthy, else the empty string |
| UsersController.UpdateConflictAsWritten | ministeam-api/controllers/users.controller.js:237-255 | the clash check as written reports only a username or email clash, and only when one of them is given |
| UsersController.UpdateConflict | ministeam-api/controllers/users.controller.js:237-255 | 409 for a new username held by another user, then for a new email held by another user, each as an iff |
| UsersController.NoConflictMeansClashFree | ministeam-api/controllers/users.controller.js:237-262 | when the corrected check passes, the written row clashes with no other row |
| UsersController.AsWrittenConflictIsReal | ministeam-api/controllers/users.controller.js:237-255 | every clash the check as written reports is real |
| UsersController.AsWrittenMissesEmailClash | ministeam-api/controllers/users.controller.js:237-255 | a request the check as written lets through breaks the email key |
| UsersController.CheckPassedMeansClashFree | ministeam-api/controllers/users.controller.js:201-262 | when the whole guard chain of `updateUser` passes, the id is numeric and the row the update would write clashes with no other row, so the unique keys cannot fail |
| UsersController.UpdateUserCheck | ministeam-api/controllers/users.controller.js:201-255 | the refusals in handler order, as iffs: non-numeric id, not an admin nor the user (403), a new password under 6 UTF-16 code units, then the clash check |
| UsersController.UpdateUser | ministeam-api/controllers/users.controller.js:196-270 | a refusal changes nothing; 404 exactly when there is no field or no such user; otherwise only that row changes and is answered; behind the corrected clash check no update breaks a unique key |
| UsersController.ManageCheck | ministeam-api/controllers/users.controller.js:278-288 | 400 on a non-numeric id, 403 unless admin or self, as iffs |
| UsersController.DeleteUser | ministeam-api/controllers/users.controller.js:273-300 | a refusal changes nothing; otherwise 404 exactly for an unknown user, else only its `activo` becomes false and no row is removed |
| UsersController.GetUserStatsStatus | ministeam-api/controllers/users.controller.js:303-330 | the same permission rule, then 200 exactly when the user exists, else 404 |
| UsersController.OthersAreForbidden | ministeam-api/controllers/users.controller.js:207-211 | a client naming another account gets 403 from update, delete and statistics |
| GameRepository.DefinedFields | ministeam-api/repositories/game.repository.js:334-348 | exactly the allow-listed columns the body defines, in list order |
| GameRepository.AllowedDetails | ministeam-api/repositories/game.repository.js:334-348 | only pass-through columns of the body are written, with the given values |
| GameRepository.AllColumnsAllowed | ministeam-api/repositories/game.repository.js:333-339 | every column a body can set is on the allow-list |
| GameRepository.ApplyWrites | ministeam-api/repositories/game.repository.js:330-363 | each defined column takes the given value and every other column keeps its value |
| GameRepository.ApplyIdempotent | ministeam-api/repositories/game.repository.js:330-363 | writing the same body twice is writing it once |
| GameRepository.NothingDefinedNoChange | ministeam-api/repositories/game.repository.js:348-350 | a body that defines no allowed column changes nothing |
| GameRepository.NewGame | ministeam-api/repositories/game.repository.js:5-30 | price 0, stock 999, platform `PC` and active unless given; every pass-through column takes the value the body binds |
| GameRepository.FirstOfKind | ministeam-api/repositories/game.repository.js:94-97 | the first requirement row of the kind, or null exactly when there is none |
| GameRepository.Conditions | ministeam-api/repositories/game.repository.js:101-139 | the `activo` condition is always present (true by default); platform, minimum and maximum price only when given; no genre condition |
| GameRepository.SatisfiesConditions | ministeam-api/repositories/game.repository.js:117-139 | a game matches exactly when its active flag, platform and price bounds agree with the filters |
| GameRepository.MatchingIds | ministeam-api/repositories/game.repository.js:101-189 | exactly the ids of the games that satisfy the conditions |
| GameRepository.GameSortColumn | ministeam-api/repositories/game.repository.js:146-149 | the requested column when on the five-column allow-list, else `fecha_agregado` |
| GameRepository.FindAllAsWritten | ministeam-api/repositories/game.repository.js:101-189 | `findAll` as written: the pagination block echoes the raw page and limit and divides by the raw limit; total counts every match; sorted by `fecha_agregado` the page holds the matches from the offset on, newest first under DESC |
| GameRepository.FindAllAsWrittenZeroLimit | ministeam-api/repositories/game.repository.js:113-114 | with `limit=0` up to 12 games come back, but the answer reports limit 0 and a `totalPages` that is not a number |
| GameRepository.FindAll | ministeam-api/repositories/game.repository.js:101-189 | page and limit default to 1 and 12; a page exists exactly when the offset is non-negative; it holds at most `limit` ids, all matching the filters; total counts every match, totalPages is the least number of pages holding them, and the page echoes the allow-listed sort column, the order and the conditions |
| GameRepository.FindAllByDate | ministeam-api/repositories/game.repository.js:146-164 | sorted by `fecha_agregado`, the page holds the matches from the offset on, newest first under DESC and oldest first under ASC |
| GameRepository.FindAllActivity | ministeam-api/repositories/game.repository.js:117-139 | every game on a page has the active flag the filters ask for, the active one when they ask for none |
| GameRepository.MatchesActivity | ministeam-api/repositories/game.repository.js:117-124 | any ids of games that pass the filters name games with the requested active flag |
| GameRepository.FindAllPagination | ministeam-api/repositories/game.repository.js:180-188 | `totalPages` pages hold every match, one fewer would not, and a page past the last is empty |
| GameRepository.GameTable.GetRequirements | ministeam-api/repositories/game.repository.js:85-98 | the first `Minimo` and the first `Recomendado` row of the game, each null exactly when absent |
| GameRepository.GameTable.FindById | ministeam-api/repositories/game.repository.js:33-56 | the game with the id, null exactly for an unknown id |
| GameRepository.GameTable.FindBySlug | ministeam-api/repositories/game.repository.js:59-82 | the first game with the slug, null exactly when none has it |
| GameRepository.GameTable.Create | ministeam-api/repositories/game.repository.js:5-30 | writes nothing exactly when the body leaves a pass-through column undefined; otherwise appends `NewGame` and answers it as `findById` reads it |
| GameRepository.GameTable.Update | ministeam-api/repositories/game.repository.js:330-363 | null, with no change, exactly when no allowed column is defined or the game is missing; otherwise only that row is rewritten |
| GameRepository.GameTable.SoftDelete | ministeam-api/repositories/game.repository.js:366-375 | true exactly when the game exists; only its `activo` becomes false |
| GameRepository.GameTable.UpdateStock | ministeam-api/repositories/game.repository.js:385-394 | decrements exactly when the game exists and has enough stock, which then never goes negative |
| JsText.QueryInt | ministeam-api/controllers/games.controller.js:6-20 | the numeric default for an absent key, else `parseInt` of the value |
| GamesController.TruthyInt | ministeam-api/controllers/games.controller.js:24 | the genre id is parsed only from a truthy value |
| GamesController.ActivoParam | ministeam-api/controllers/games.controller.js:25 | `'true'` (also the default) gives true, `'false'` gives false, anything else undefined |
| GamesController.Filters | ministeam-api/controllers/games.controller.js:6-28 | the repository filters: defaults 1, 12, `fecha_agregado`, DESC; price bounds only when truthy, turned from euros into cents |
| GamesController.MinCents | ministeam-api/controllers/games.controller.js:22 | a bound exists exactly when the value is truthy and `parseFloat` reads a number |
| GamesController.MaxCents | ministeam-api/controllers/games.controller.js:23 | a bound exists exactly when the value is truthy and `parseFloat` reads a number |
| GamesController.MinCentsIsEuros | ministeam-api/repositories/game.repository.js:131-134 | a price in cents reaches the cents bound exactly when it is at least the euro amount (`v.precio >= ?`) |
| GamesController.MaxCentsIsEuros | ministeam-api/repositories/game.repository.js:136-139 | a price in cents is within the cents bound exactly when it is at most the euro amount (`v.precio <= ?`) |
| GamesController.WholeEurosBound | ministeam-api/controllers/games.controller.js:22-23 | a whole number of euros is a bound of a hundred times as many cents, at either end |
| GamesController.GetAllGames | ministeam-api/controllers/games.controller.js:4-36 | 200 with the corrected `findAll` page of the parsed query, or 500 |
| GamesController.MatchedActivity | ministeam-api/controllers/games.controller.js:25 | a game passing the filters is inactive only under `activo=false` |
| GamesController.ListingShowsActiveUnlessAsked | ministeam-api/controllers/games.controller.js:4-36 | only `activo=false` lists inactive games; anything else lists active ones |
| GamesController.DefaultListingNewestFirst | ministeam-api/controllers/games.controller.js:4-36 | without `sort` and `order` the page holds the matches from the offset on, newest first |
| GamesController.GenreFilterIgnored | ministeam-api/controllers/games.controller.js:24 | `id_genero` never changes the listing |
| GamesController.GetGameById | ministeam-api/controllers/games.controller.js:39-64 | an id when `parseInt` reads the parameter, else a slug; 404 exactly when nothing is found |
| GamesController.GetGameBySlug | ministeam-api/controllers/games.controller.js:67-81 | the first game with the slug, 404 exactly when none has it |
| GamesController.NonNumericIdIsASlug | ministeam-api/controllers/games.controller.js:44-53 | a non-numeric parameter gets the same answer from both lookups |
| GamesController.DigitSlugIsAnId | ministeam-api/controllers/games.controller.js:44-50 | `7-days` names game 7, not the slug |
| GamesController.SevenDaysParses | ministeam-api/controllers/games.controller.js:44 | `parseInt("7-days")` is 7 |
| GamesController.CreateGameCheck | ministeam-api/controllers/games.controller.js:89-108 | as iffs: 400 without title or slug, then 409 on a taken slug, then 400 on a truthy negative price |
| GamesController.CreateGame | ministeam-api/controllers/games.controller.js:84-120 | a refusal changes nothing; a body that leaves a pass-through column undefined gets 500 and nothing is written; otherwise 201 with the new row; slugs stay unique |
| GamesController.UpdateGameCheck | ministeam-api/controllers/games.controller.js:126-153 | 400 on a non-numeric id, 404 on an unknown game, 409 only for a changed slug that is taken, 400 for a defined negative price |
| GamesController.UpdateGame | ministeam-api/controllers/games.controller.js:123-165 | a refusal changes nothing; otherwise the repository update, with the answer it gives |
| GamesController.UpdateKeepsSlugsUnique | ministeam-api/controllers/games.controller.js:139-160 | an update the guards let through keeps slugs unique |
| GamesController.DeleteGame | ministeam-api/controllers/games.controller.js:168-186 | 400 on a non-numeric id, 404 exactly when no game was deactivated, else only that game's flag goes false |
| GamesController.SearchGamesCheck | ministeam-api/controllers/games.controller.js:193-197 | 400 exactly when `q` is missing or only white space |
| GenreRepository.ActiveGames | ministeam-api/repositories/genre.repository.js:18-31 | the count of active games of the genre |
| GenreRepository.ActiveGamesAppend | ministeam-api/repositories/genre.repository.js:18-31 | an appended game adds one exactly when it is active and of the genre |
| GenreRepository.DeactivateLowersCount | ministeam-api/repositories/genre.repository.js:18-31 | deactivating a game never raises a count |
| GenreRepository.SortByName | ministeam-api/repositories/genre.repository.js:27 | a permutation of the rows in name order |
| GenreRepository.Summaries | ministeam-api/repositories/genre.repository.js:18-31 | every row with its count of active games |
| GenreRepository.PatchedGenre | ministeam-api/repositories/genre.repository.js:61-91 | only truthy name and description are written; none leaves the row as it was |
| GenreRepository.PositionOf | ministeam-api/repositories/genre.repository.js:34-47 | the row with the id, none exactly when no row has it |
| GenreRepository.WithoutId | ministeam-api/repositories/genre.repository.js:94-98 | exactly the rows with another id |
| GenreRepository.WithoutIdKeepsKeys | ministeam-api/repositories/genre.repository.js:94-98 | a delete keeps ids and names unique |
| GenreRepository.GenreTable.FindAll | ministeam-api/repositories/genre.repository.js:18-31 | a permutation of the rows, in name order, each with its count of active games |
| GenreRepository.GenreTable.FindById | ministeam-api/repositories/genre.repository.js:34-47 | the genre with its count, null exactly for an unknown id |
| GenreRepository.GenreTable.Create | ministeam-api/repositories/genre.repository.js:5-16 | refused exactly when the name exists; otherwise appended under the next id with `descripcion` or null |
| GenreRepository.GenreTable.Update | ministeam-api/repositories/genre.repository.js:61-91 | null, with no change, exactly when no member is truthy or no row has the id; duplicate key exactly when some member is truthy, the id exists and another row already holds the new name; otherwise only that row changes, to the patched genre |
| GenreRepository.GenreTable.Delete | ministeam-api/repositories/genre.repository.js:94-98 | true exactly when the id existed; afterwards it is gone and the others stay |
| GenresController.GetAllGenres | ministeam-api/controllers/genres.controller.js:5-13 | every genre, in name order, with its count of active games |
| GenresController.GetGenreById | ministeam-api/controllers/genres.controller.js:15-33 | 400 exactly on a non-numeric id, 404 exactly on an unknown one, else the genre with its count |
| GenresController.CreateGenreCheck | ministeam-api/controllers/genres.controller.js:40-46 | 400 without a name, 404 (not 409) when the name exists, as iffs |
| GenresController.CreateGenre | ministeam-api/controllers/genres.controller.js:36-58 | a refusal changes nothing; otherwise 201 and the new row under the next id |
| GenresController.UpdateGenre | ministeam-api/controllers/genres.controller.js:61-83 | 400 exactly when the id is not numeric; 404 exactly when no member is truthy or no row has the id; 500 exactly when the id exists and another genre already holds the new name; 200 otherwise, with only that row changed and the genre as `FindById` reads it |
| GenresController.DeleteGenre | ministeam-api/controllers/genres.controller.js:86-107 | 400 on a non-numeric id, 404 exactly when nothing was deleted; the row is gone |
| JsText.TrimEmptyIffAllSpace | ministeam-api/controllers/games.controller.js:193 | `q.trim() === ''` exactly when `q` is all white space |
| JsText.NormalizeOrderAsc | ministeam-api/repositories/game.repository.js:150 | the order is ascending exactly for the spellings of `asc` that upper-case to `ASC`, the long s `ſ` included |
| JsText.DescIsDescending | ministeam-api/repositories/game.repository.js:150 | the default `DESC` is descending |
| JsText.UpperChar | ministeam-api/repositories/game.repository.js:150 | `a`-`z`, dotless `ı` and long `ſ` to their ASCII upper case; every other character unchanged |
| JsText.ParseIntString | ministeam-api/controllers/users.controller.js:243 | `parseInt` reads back the decimal spelling of an integer |
| JsText.Utf16Length | ministeam-api/controllers/users.controller.js:37 | `length` counts between one and two code units per character |
| JsText.Utf16LengthBmp | ministeam-api/controllers/users.controller.js:37 | `length` equals the number of characters exactly when none lies outside the Basic Multilingual Plane |
| JsText.ParseFloatDigits | ministeam-api/controllers/games.controller.js:22-23 | a run of digits, with or without a minus sign, reads back as its value with no fraction digits |
| JsText.ParseFloatString | ministeam-api/controllers/games.controller.js:22-23 | `parseFloat` reads back the decimal spelling of an integer |
| JsText.IntegerPart | ministeam-api/controllers/library.controller.js:125 | `parseInt` of a number's decimal spelling is its truncation toward zero: the greatest whole number not above it when non-negative, the least not below it when negative |
| JsText.AtMostQuotient | ministeam-api/repositories/game.repository.js:136-139 | a whole number is at most the floor of a / b exactly when its product with b is at most a |
| JsText.AtLeastQuotient | ministeam-api/repositories/game.repository.js:131-134 | a whole number is at least the ceiling of a / b exactly when its product with b is at least a |
| Common.OffsetSign | ministeam-api/repositories/review.repository.js:32 | with a positive limit the offset is non-negative exactly from page 1 on |
| Common.CeilDiv | ministeam-api/repositories/review.repository.js:53 | the least number of pages of `limit` that hold `total` |
| Common.JsTotalPages | ministeam-api/repositories/user.repository.js:99 | `Math.ceil(total / limit)`, not a number for a limit of 0 |
| Common.AllowListed | ministeam-api/repositories/library.repository.js:40 | the value when on the list, else the fallback |
| Common.Reversed | ministeam-api/repositories/review.repository.js:39 | the rows back to front: same length and contents, position `i` holding row `n - 1 - i` |
| Common.ByDate | ministeam-api/repositories/game.repository.js:163 | the rows in insertion-date order: a permutation of them |
| Common.PageByDate | ministeam-api/repositories/review.repository.js:39-40 | `LIMIT`/`OFFSET` over the rows by insertion date selects exactly `DatePage`: row `offset + i` from the newest (DESC) or oldest (ASC) end |
| Common.PageByDateWithin | ministeam-api/repositories/review.repository.js:39-40 | every row on such a page is one of the rows |
| WebStore.Key | ministeam-web/src/stores/store.js:105 | `id_juego` when truthy, else `id` |
| WebStore.AddedAsWritten | ministeam-web/src/stores/store.js:95-101 | `addItem` as written: unchanged exactly when some item has the same `id_juego` or the same `id`, missing ones included |
| WebStore.AsWrittenRefusesSecondGame | ministeam-web/src/stores/store.js:95-101 | a second game without `id` is refused as written and added when corrected |
| WebStore.Added | ministeam-web/src/stores/store.js:95-101 | the game is appended exactly when no item is the same game; no two items stay the same game |
| WebStore.AddedIdempotent | ministeam-web/src/stores/store.js:95-101 | adding a game twice adds it once |
| WebStore.Removed | ministeam-web/src/stores/store.js:103-106 | exactly the items whose key is not the id |
| WebStore.RemovedAppend | ministeam-web/src/stores/store.js:103-106 | the filter distributes over concatenation |
| WebStore.RemovedNothing | ministeam-web/src/stores/store.js:103-106 | a filter that matches nothing keeps the list |
| WebStore.RemovedKeepsDistinct | ministeam-web/src/stores/store.js:103-106 | removing keeps items distinct |
| WebStore.RemoveUndoesAdd | ministeam-web/src/stores/store.js:95-106 | removing a game just added to a list without it gives the list back |
| WebStore.Price | ministeam-web/src/stores/store.js:111-112 | a missing price counts as 0 |
| WebStore.Prices | ministeam-web/src/stores/store.js:110-113 | the prices of the items, in order |
| WebStore.SumFromIsSum | ministeam-web/src/stores/store.js:110-113 | the `reduce` adds up the prices |
| WebStore.TotalAfterAdd | ministeam-web/src/stores/store.js:95-113 | adding a game raises the total by its price once, or not at all when it is already there |
| WebStore.CartStore.constructor | ministeam-web/src/stores/store.js:86-89 | an empty cart |
| WebStore.CartStore.AddItem | ministeam-web/src/stores/store.js:95-101 | the items become `Added` of the old ones, and stay distinct |
| WebStore.CartStore.RemoveItem | ministeam-web/src/stores/store.js:103-106 | the items become `Removed` of the old ones; none has the id; they stay distinct |
| WebStore.CartStore.ClearCart | ministeam-web/src/stores/store.js:108 | no items and a total of 0 |
| WebStore.CartStore.GetTotalPrice | ministeam-web/src/stores/store.js:110-113 | the sum of the item prices |
| WebStore.WishlistStore.constructor | ministeam-web/src/stores/store.js:118-121 | an empty wishlist |
| WebStore.WishlistStore.AddItem | ministeam-web/src/stores/store.js:127-133 | the same dedupe as the cart |
| WebStore.WishlistStore.RemoveItem | ministeam-web/src/stores/store.js:135-138 | the same filter as the cart |

## Left out

- Persistence, the MySQL connection pool, SQL text and error objects are not modelled. Each statement is modelled by its effect on the table. A failed unique key is the `DuplicateEntry` answer.
- Concurrency is left out, and so are transactions. Checkout is sequential. A failure part way through leaves the earlier writes in place, as the handler does.
- Password hashing and password comparison (bcrypt), and token signing (JWT), are parameters or left out. `Signup` and `UpdateData` take `hash`; `Login` takes `compare` and does not model the token it returns.
- Route wiring and the authentication and admin middleware are left out. Each handler takes the authenticated caller as a parameter.
- The `catch` paths that answer 500 on a database error are left out, except where the model shows the statement is refused (a NaN or negative `LIMIT`/`OFFSET`, a duplicate key).
- Prices are integers (cents). `toFixed(2)` and floating-point totals in `getCartByUser` and `getTotalPrice` are not modelled.
- GamesController.MinCents: `parseFloat` is read as an exact decimal, so the rounding of a double is not modelled; the exponent form and `Infinity` are not read; and a bound that does not parse is ignored, where the handler passes NaN on to the statement.
- GamesController.MaxCents: the same as for `MinCents`.
- JsText.ParseFloat: only decimal text is read (white space, a sign, digits, a point, digits). The exponent form and `Infinity` are not, and the value is exact rather than a double.
- LibraryController.UpdatePlaytimeCheck: `minutos` is modelled as a JSON number written in decimal. A numeric string in the body (which passes the guard as text) and a number that `String` writes in exponent form (below 1e-6 or from 1e21) are not modelled.
- LibraryController.UpdatePlaytime: the same as for `UpdatePlaytimeCheck`; the minutes added are the whole part of that decimal.
- LibraryRepository.LibraryTable.AddGame: the insert names no status, so a new entry takes the column's default, and the schema is not part of this model. The initial status `no_iniciado` (`InitialStatus`) is an assumption. `getUserLibraryStats` counts `no_descargado` entries as pending, which suggests the schema's default may be that value instead.
- UserRepository.NewUser: the insert names no `activo`, so a new account takes the column's default, and the schema is not part of this model. The default is assumed to be true, because `login` refuses an inactive account with 403 and a fresh signup is meant to be able to log in. The active row that `UsersController.Signup` promises rests on the same assumption.
- `getGamesByGenre`, `getTopRatedGames`, `getFeaturedGames` and the result listing of `searchGames` (`findByGenre`, `findTopRated`, `findFeatured`, `search`) are not modelled. They are LIKE matching, rating averages and date arithmetic done by the database. Only the guard of `searchGames` is modelled.
- `getUserStats`, `getSalesStats` and `getUserLibraryStats` are aggregate SQL queries, and only the status of `getUserStats` is modelled. `getRecentlyAdded`, `getUserPurchases`, `getAllPurchases`, the purchase repository's `findAll`, `findByName` of genres, and `hardDelete` of users are not modelled.
- The sort column and order are modelled as chosen values (allow-list, ASC/DESC). The order of a page is modelled when it is sorted by the insertion date (games, library, purchases, reviews), by playtime (`getMostPlayed`) and by name (genres). It is not modelled for `ORDER BY` on titles, prices, ratings or release dates.
- GameRepository.FindAll: sorted by `titulo`, `precio`, `calificacion_promedio` or `fecha_lanzamiento`, the page's members, size, total and totalPages are stated, not which matches fill it.
- GameRepository.FindAllAsWritten: the same; only a `fecha_agregado` page has its contents stated.
- LibraryRepository.GetUserLibrary: sorted by `titulo` or `tiempo_jugado`, the page's members, exact size and total are stated, not which entries fill it.
- GamesController.GetAllGames: answers the corrected `FindAll` page (see Findings), whose pagination block reports the page and limit it used, where the handler as written echoes the raw query values.
- UsersController.UpdateUserCheck: uses the corrected clash check `UpdateConflict` (see Findings). As written, the handler lets through an email held by another user when the caller's own row matches first.
- UsersController.UpdateUser: built on the corrected check, so the 500 that the handler as written answers when the email key then fails is not modelled.
- WebStore.CartStore.AddItem: runs the corrected dedupe `Added` (see Findings). As written, it refuses every second game that has no `id`.
- WebStore.WishlistStore.AddItem: runs the same corrected dedupe, with the same difference.
- JsText.ParseInt: integers are exact. JavaScript's `parseInt` builds a double, so above 2^53 it rounds.
- JsText.ParseIntString: the round trip holds of the handler only for integers up to 2^53 in size, because of that rounding.
- JsText.Upper: only characters whose upper case is a single ASCII letter are mapped (`a`-`z`, `ı`, `ſ`). Other letters keep their case; no comparison in the model depends on them.
- GenreRepository.SortByName: names compare by code point. MySQL's default case-insensitive collation, under which `acción` sorts before `Aventura`, is not modelled; the database schema is not part of this model.
- GenreRepository.GenreTable.FindAll: the same code-point name order.
- GenresController.GetAllGenres: the same code-point name order.
- GenreRepository.GenreTable.Create: name uniqueness is equality by code point, not under a case-insensitive collation.
- GameRepository.GameTable.FindBySlug: slugs compare by code point, not under a case-insensitive collation.
- GameRepository.GameTable.Create: the same for slug uniqueness.
- UserRepository.UserTable.FindByUsernameOrEmail: usernames and emails compare by code point, not under a case-insensitive collation.
- UserRepository.UserTable.FindByEmail: the same for emails.
- UserRepository.UserTable.Create: the same for the username and email keys.
- UsersController.Signup: the same, through the lookups it makes.
- GamesController.UpdateKeepsSlugsUnique: it excludes an empty new slug. `updateGame` does not check a falsy slug for a clash, so an empty slug could repeat another row's.
- The client-side `useAuthStore` and `useGamesStore`, the stores' `setItems`, `setLoading` and `setError` setters, the JSX pages and the HTTP client are not modelled.

## Findings

| source | as written | input that shows it | evidently intended | confidence | as-written member | corrected member |
|---|---|---|---|---|---|---|
| ministeam-web/src/stores/store.js:95-101 | `addItem` treats a game as already present when `item.id === game.id`. That also holds when both objects lack `id` | cart rows from the API carry `id_juego` and no `id`: with `{id_juego: 1}` in the cart, adding `{id_juego: 2}` changes nothing | a game is a duplicate only when a present `id_juego` or `id` is equal | not executed | WebStore.AddedAsWritten, WebStore.AsWrittenRefusesSecondGame | WebStore.Added, WebStore.AddedIdempotent, WebStore.RemoveUndoesAdd |
| ministeam-api/repositories/game.repository.js:113-114, 180-188 | the page is cut with the defaulted `pageInt`/`limitInt`, but the pagination block echoes the raw `page`/`limit` and divides by the raw `limit` | `limit=0`: up to 12 games come back while the answer says limit 0 and `totalPages` is not a number | the pagination reports the values the query used | not executed | GameRepository.FindAllAsWritten, GameRepository.FindAllAsWrittenZeroLimit | GameRepository.FindAll, GameRepository.FindAllPagination |
| ministeam-api/controllers/users.controller.js:237-255 | the clash check inspects only the first row that holds the new username or the new email | users 1 `alice`/`a@x.io` and 2 `bob`/`b@x.io`; user 1 sends username `alice` and email `b@x.io`; the first match is user 1 itself, so the check passes and the email key fails (500, not 409) | 409 whenever another user holds the new username or email | not executed | UsersController.UpdateConflictAsWritten, UsersController.AsWrittenMissesEmailClash | UsersController.UpdateConflict, UsersController.NoConflictMeansClashFree |
