# Ophrus-immo core, modelled in Dafny

Ophrus-immo is the backend of a real-estate listing site: accounts, listings,
favourites, ratings and direct messages between accounts, served by Express
over MongoDB. This project models its core and proves properties of that
model:

- **Messaging inbox** (`controllers/messageController.js`). The message log
  is a store. Sending appends an unread message. The inbox groups an
  account's messages into one thread per correspondent, newest first, with an
  unread counter per thread, and paginates the threads. Marking reads one
  message or a whole thread.
- **Accounts, sessions and password reset** (`controllers/userController.js`).
  Registration, login, logout, refresh-token rotation and profile update over
  the account collection. The per-account reset state machine issues a
  six-digit code with a ten-minute lifetime and a cooldown, verifies it once,
  and resets the password with it.
- **Listing relations** (`controllers/propertyController.js`). The favourites
  relation stored on both sides. Ratings and their average. The filtered,
  paginated listing with its categories. Owner-checked update and delete.
  A listing read back with the caller's rating.
- **Input validators** (`middlewares/security.js`). The disposable-email
  check, the password rule, the CORS origin check, the reset-code checks, and
  the in-place XSS `clean` walk over request objects.
- **Record types** (`models/User.js`, `models/Message.js`). Fields, the role
  enum, the defaults and the required-field checks.

Files, one module each:

- `base.dfy`: `Option`, identifiers.
- `jsops.dfy`: the JavaScript semantics the handlers rely on. `Math.ceil`
  of a division, `slice` with negative indices, `indexOf`, `splice(k, 1)`
  (including `k = -1`), `String.prototype.trim`, ASCII `toLowerCase`,
  decimal `toString`, and `[...new Set(xs)]`.
- `models.dfy`: the account and message records.
- `inbox.dfy`: the thread derivation (the `forEach` fold) and a reference
  definition read from the front of the message list, proved equal.
  Also pagination.
- `messaging.dfy`: the `MessageStore` class and the inbox properties.
- `reset.dfy`: the reset state machine on one account.
- `sessions.dfy`: the refresh-token list.
- `accounts.dfy`: the `AccountStore` class.
- `favourites.dfy`, `ratings.dfy`, `listings.dfy`: listing relations and the
  `PropertyStore` class.
- `validators.dfy`: the security predicates.
- `sanitizer.dfy`: the `Request` class and its in-place `Clean` walk.

Services outside the core become parameters:

- The clock `now` is a number of milliseconds.
- A `Math.random()` draw is a real in [0, 1).
- A bcrypt digest is a string argument, and bcrypt's comparison is a function
  argument.
- A `jwt.verify` result is the decoded account id, or `None` when
  verification throws.
- A refresh token issued by the handler is a string argument.
- The `$regex` search of the listing query is a function argument.
- The `xss` library function is a function argument.

Three behaviours of the code that a reader might not expect, all modelled as
the code has them:

- Logout and refresh remove *every* copy of the presented token, not one.
- The inbox accepts any page number that parses: page 0 and negative pages
  slice from the end of the thread list.
- Verification rejects a code only when its expiry is *strictly* before
  `now`. At the expiry instant itself, the code is still accepted.

## Model

| member | source | states |
|---|---|---|
| Models.NewAccountValid | models/User.js:1-54 | A new account passes validation iff the name, phone, digest and trimmed email are non-empty. The email is stored trimmed. Role is `client`. Favourites, refresh tokens, reset code and expiry start empty or null. |
| Inbox.FindThread | controllers/messageController.js:95-99 | The map lookup of a counterparty: the position of its thread, or -1 exactly when no thread has it. |
| Inbox.Absorb | controllers/messageController.js:89-101 | One `forEach` turn opens a thread exactly when the counterparty has none, and keeps the existing threads' counterparties in place. |
| Inbox.Aggregate | controllers/messageController.js:88-101 | The fold opens at most one thread per message. |
| Inbox.UnreadIn | controllers/messageController.js:69-73 | The unread count is at most the number of messages, and 0 exactly when none is addressed to `me` unread. |
| Inbox.FirstWith | controllers/messageController.js:89-101 | Reference definition: the first message exchanged with a counterparty, and nothing with it before. |
| Inbox.AbsorbStep | controllers/messageController.js:89-101 | One `forEach` iteration turns the thread list of a prefix into the thread list of the prefix plus one message. |
| Inbox.AggregateSummarises | controllers/messageController.js:88-103 | The fold yields one thread per counterparty. Each thread holds the first message exchanged with that counterparty. Threads are ordered by first appearance, and each counts exactly that counterparty's messages to `me` that are unread. |
| Inbox.SumNonLusIsUnread | controllers/messageController.js:69-101 | The threads' unread counters add up to the number of messages `me` has not read. |
| Inbox.ThreadsByRecency | controllers/messageController.js:83-103 | On a newest-first feed, each thread holds its newest message, and threads come newest first. |
| Inbox.RecencyOfFirst | controllers/messageController.js:83-103 | Threads that hold the first message of a newest-first list hold its newest message and are ordered newest first. |
| Inbox.OrDefault | controllers/messageController.js:79-80 | `parseInt(q) \|\| d`: a missing value or 0 gives the default; any other value is kept. |
| Inbox.Paginate | controllers/messageController.js:103-107 | The page reports the total thread count and a non-zero limit. |
| Inbox.PageBounds | controllers/messageController.js:103-107 | For page ≥ 1 and limit ≥ 1, a page holds at most `limit` threads. It is the slice at `(page-1)*limit`, or empty past the end. |
| Inbox.EmptyInbox | controllers/messageController.js:103-107 | No threads gives total 0, zero pages and an empty page, whatever the query. |
| Inbox.ThreadOnItsPage | controllers/messageController.js:105-107 | Thread i sits at position `i % limit` of page `i / limit + 1`. |
| Inbox.NegativePageCountsFromEnd | controllers/messageController.js:79-107 | Page -1 with limit 10 over 25 threads gives threads 5 to 14, because `slice` counts negative bounds from the end. |
| Messaging.Involving | controllers/messageController.js:83-84 | Exactly the messages `me` sent or received, in log order. Creation order is kept. |
| Messaging.InvolvingMultiplicity | controllers/messageController.js:83-84 | Each message `me` sent or received is fetched as often as the log holds it; no other message is fetched. |
| Messaging.Conversation | controllers/messageController.js:50-64 | Exactly the messages between the two accounts in either direction, oldest first. |
| Messaging.ConversationMultiplicity | controllers/messageController.js:53-61 | Each message between the two accounts is returned as often as the log holds it; no other message is. |
| Messaging.ThreadsOf | controllers/messageController.js:83-101 | The inbox has no more threads than `me` has messages. |
| Messaging.ThreadRead | controllers/messageController.js:134-147 | After `updateMany`, no unread message from `other` to `me` remains. Messages from `other` to `me` become read; all others are unchanged. |
| Messaging.InboxThreads | controllers/messageController.js:78-103 | The inbox threads summarise `me`'s messages. Each thread's counter equals the unread messages from that correspondent in the whole log. Threads are ordered by their newest message, descending. |
| Messaging.InboxUnreadMatchesCount | controllers/messageController.js:69-103 | The sum of the inbox's unread counters equals the unread count `getUnreadCount` reports. |
| Messaging.EmptyLogInbox | controllers/messageController.js:78-117 | An empty log gives an empty inbox with zero pages. |
| Messaging.ThreadReadCounts | controllers/messageController.js:134-147 | Marking the thread with `other` read zeroes `other`'s unread count and keeps every other correspondent's. |
| Messaging.ThreadReadTotal | controllers/messageController.js:134-147 | The global unread count drops by exactly the unread messages from `other`. |
| Messaging.ThreadReadIdempotent | controllers/messageController.js:134-147 | Marking a thread read twice equals marking it once. |
| Messaging.ReadOneCount | controllers/messageController.js:121-131 | Marking message k read lowers the unread count by one iff k was unread by `me`. |
| Messaging.NewMessageUnread | controllers/messageController.js:17-28 | A sent message adds one to the recipient's unread count and nothing to anyone else's. |
| Messaging.AggregateDistinct | controllers/messageController.js:88-101 | The fold never opens two threads for one counterparty. |
| Messaging.IndexFinds | controllers/messageController.js:95-99 | A map from counterparty to thread position answers what a search of the thread list answers. |
| Messaging.BuildThreads | controllers/messageController.js:88-103 | The imperative loop with its `Map` builds exactly the thread list the fold defines. |
| Messaging.VisitMessage | controllers/messageController.js:89-101 | One turn of the `forEach` through the `Map` is one `Absorb`, and the map still indexes the thread list. |
| Messaging.AbsorbIndexed | controllers/messageController.js:95-100 | Opening a thread at the end and counting at the indexed position gives `Absorb`, and the extended map indexes the result. |
| Messaging.MessageStore.EnvoyerMessage | controllers/messageController.js:17-28 | Empty content is refused and nothing is stored. Otherwise exactly one unread message, from `me` to the recipient, is appended. |
| Messaging.MessageStore.GetInbox | controllers/messageController.js:78-118 | The answer is the requested page of the thread list derived from `me`'s messages. |
| Messaging.MessageStore.MarkMessageRead | controllers/messageController.js:121-131 | A missing message is a 404 and another recipient a 403, both leaving the log unchanged. Otherwise only that message becomes read. An already-read message changes nothing. |
| Messaging.MessageStore.MarkThreadRead | controllers/messageController.js:134-147 | The log becomes the thread-read log of the old one. |
| PasswordReset.RemainingMinutes | controllers/userController.js:184-189 | For an active code, the reported minutes are at least 1. They are the ceiling of the remaining milliseconds over 60000. |
| PasswordReset.DrawCode | controllers/userController.js:192 | A drawn number lies in 100000..999999. |
| PasswordReset.IssueCode | controllers/userController.js:192-196 | Issuing stores the decimal code and an expiry ten minutes ahead, and changes nothing else. |
| PasswordReset.Consume | controllers/userController.js:232-235 | A verified code and its expiry are cleared; nothing else changes. |
| PasswordReset.ApplyReset | controllers/userController.js:255-258 | A reset stores the new digest and clears code and expiry; nothing else changes. |
| PasswordReset.DrawnCodeShape | controllers/userController.js:192 | Every issued code is six digits with no leading zero and reads back as the number drawn. |
| PasswordReset.DistinctDrawsDistinctCodes | controllers/userController.js:192 | Two draws give the same code string only when they give the same number. |
| PasswordReset.IssueStartsCooldown | controllers/userController.js:184-194 | After issuing, a request before expiry is in cooldown, reporting between 1 and 10 minutes (10 at issue). |
| PasswordReset.IssuedCodeLifetime | controllers/userController.js:184-194 | `CodeActive` after issuing holds exactly before the expiry ten minutes later; at or after it, a new code may be requested. |
| PasswordReset.ExpiryInstant | controllers/userController.js:216-223 | At exactly the expiry instant, verification still accepts the code (the comparison is strict `<`). |
| PasswordReset.IssuedCodeVerifies | controllers/userController.js:216-230 | Before expiry, the issued code verifies, also when surrounded by white space. |
| PasswordReset.OnlyIssuedCodeVerifies | controllers/userController.js:228-230 | The digits of any other number fail verification. |
| PasswordReset.ExpiredCodeRejected | controllers/userController.js:216-253 | After expiry, neither verification nor reset accepts anything. |
| PasswordReset.ResetDoesNotTrim | controllers/userController.js:228-250 | With a leading space, the issued code verifies but the reset refuses it. |
| PasswordReset.SingleUse | controllers/userController.js:232-252 | Once verified, no code verifies again and no reset is accepted. |
| PasswordReset.ResetConsumes | controllers/userController.js:255-258 | After a reset, no code verifies and no further reset is accepted. |
| PasswordReset.TransitionsKeepPairing | controllers/userController.js:192-258 | Issue, consume and reset keep code and expiry both set or both null. |
| PasswordReset.PairedResetNeedsExpiry | controllers/userController.js:250-253 | On a paired account, an accepted reset implies a set, unexpired expiry. |
| Sessions.RemoveAll | controllers/userController.js:99-124 | The filtered list no longer holds the token and is shorter by the number of its copies. |
| Sessions.RemoveAllCounts | controllers/userController.js:99-124 | Filtering keeps every other token with its multiplicity. |
| Sessions.RemoveAllAppend | controllers/userController.js:99-124 | Filtering keeps the order of what it keeps (it distributes over concatenation). |
| Sessions.RemoveAllIdempotent | controllers/userController.js:99 | Logging out twice with one token equals logging out once. |
| Sessions.RemoveAbsent | controllers/userController.js:99 | A list without the token is unchanged. |
| Sessions.Rotate | controllers/userController.js:124-128 | Refresh drops every copy of the presented token and ends with its replacement; the presented token stays only when it is its own replacement. |
| Sessions.RotateCounts | controllers/userController.js:124-128 | Rotation drops every copy of the presented token, adds one replacement, and keeps all other tokens. |
| Sessions.RotatedTokenRetired | controllers/userController.js:121-128 | A rotated token is no longer in the list, so replaying it fails. |
| Accounts.FindByEmail | controllers/userController.js:31 | The lookup finds the first account whose stored email is the given one, or none exactly when none has it. |
| Accounts.FindLogin | controllers/userController.js:59-61 | The first account whose email equals the trimmed identifier or whose name equals it, or none exactly when none matches. |
| Accounts.LoginIdentifier | controllers/userController.js:56 | `identifier \|\| email`: a non-empty identifier wins, else the email. |
| Accounts.FindByEmailUnique | controllers/userController.js:31-33 | With unique emails, the lookup finds the one account holding the email. |
| Accounts.SaveKeepsValid | models/User.js:5-46 | Saving one schema-valid, paired account under an email no other account holds keeps the collection valid. |
| Accounts.SaveSameEmail | models/User.js:5-46 | Saving an account with its email unchanged and only password, token or reset fields changed keeps the collection valid. |
| Accounts.CreateKeepsValid | controllers/userController.js:36 | Appending a valid account under an unused email keeps the collection valid. |
| Accounts.AccountStore.RegisterUser | controllers/userController.js:28-50 | A taken (trimmed) email is refused unchanged, and so is a new account the schema refuses. Otherwise exactly one client account is appended, holding the given digest and one refresh token. |
| Accounts.AccountStore.LoginUser | controllers/userController.js:55-82 | An unknown identifier or a wrong password leaves the accounts unchanged. A match pushes one refresh token onto that account alone. |
| Accounts.AccountStore.LogoutUser | controllers/userController.js:87-107 | A missing token gives 400, a bad signature 500 and an unknown account 401, each with no change. Otherwise every copy of the token leaves that account's list, and nothing else changes. |
| Accounts.AccountStore.RefreshToken | controllers/userController.js:112-139 | A missing token gives 401. A bad signature, an unknown account or an unlisted token gives 403. None of these change anything. Otherwise the token list is rotated. |
| Accounts.AccountStore.UpdateUser | controllers/userController.js:144-167 | A missing account gives 404 and another owner 403. Otherwise each non-empty field overwrites, the email trimmed. A save the schema or the unique email refuses changes nothing. |
| Accounts.AccountStore.RequestPasswordReset | controllers/userController.js:172-205 | An unknown email gives 404. An active code gives a cooldown with the minutes left, and nothing changes. Otherwise the drawn six-digit code is stored with a ten-minute expiry and sent to the given address. |
| Accounts.AccountStore.VerifyResetCode | controllers/userController.js:210-242 | Unknown email, no code, no expiry, an expired code and a wrong code all give the same failure with no change. A match consumes the code. |
| Accounts.AccountStore.ResetPasswordWithCode | controllers/userController.js:247-261 | Only an account holding exactly the given code, unexpired, is reset, and nothing else changes. Any failure changes nothing. |
| Favourites.Toggle | controllers/propertyController.js:19-28 | A favourite listing is spliced out of the account's array, and the account's `indexOf` position out of the listing's. Otherwise both ids are pushed. |
| Favourites.CountRemoveAt | controllers/propertyController.js:23-24 | `splice(k, 1)` lowers the count of the removed value by one and no other count. |
| Favourites.CountPush | controllers/propertyController.js:26-27 | `push` adds one to the pushed value's count and no other. |
| Favourites.ToggleCounts | controllers/propertyController.js:19-28 | On synced arrays, the pair's count flips between 0 and 1 on both sides and every other id keeps its count. |
| Favourites.ToggleKeepsSynced | controllers/propertyController.js:19-28 | Toggling keeps both arrays in agreement without duplicates, and flips whether the listing is a favourite. |
| Favourites.ToggleTwiceCounts | controllers/propertyController.js:19-28 | Toggling twice restores every id's count in both arrays. |
| Favourites.AddThenRemove | controllers/propertyController.js:19-28 | Adding then removing a favourite restores both arrays exactly. |
| Favourites.BrokenSyncDropsLast | controllers/propertyController.js:20-24 | When the account is missing from the listing's array, `splice(-1, 1)` drops that array's last entry, which is another account. |
| Ratings.FindEvaluation | controllers/propertyController.js:185 | `find` by account: the first evaluation by the caller, or -1 exactly when there is none. |
| Ratings.Upsert | controllers/propertyController.js:185-187 | The list grows by one exactly when the caller had no evaluation, and is never empty after. |
| Ratings.UserRating | controllers/propertyController.js:206-210 | `null` iff the caller never rated; otherwise a note the caller gave. |
| Ratings.UpsertShape | controllers/propertyController.js:185-187 | One evaluation per account is kept, and other accounts' evaluations are unchanged. |
| Ratings.UpsertRatings | controllers/propertyController.js:185-187 | After rating, the caller's rating is the note given and everyone else's is unchanged. |
| Ratings.FindSameOwners | controllers/propertyController.js:185 | Lists that agree on owners give the same lookup, up to one appended entry. |
| Ratings.SumNotesUpdate | controllers/propertyController.js:186-190 | Changing one note changes the `reduce` total by the difference. |
| Ratings.UpsertSum | controllers/propertyController.js:185-190 | The new total is the old one, minus the caller's old note if any, plus the new note. |
| Ratings.MeanBounds | controllers/propertyController.js:190-191 | The average lies between the smallest and the largest bound on the notes. |
| Ratings.SumBounds | controllers/propertyController.js:190 | The total lies between count×low and count×high. |
| Ratings.FirstRating | controllers/propertyController.js:187-191 | A first rating makes the average that note. |
| Listings.FindProperty | controllers/propertyController.js:15 | `findById`: the listing with that id, or -1 exactly when none has it. |
| Listings.Filter | controllers/propertyController.js:72-88 | A listing is kept iff it answers the search, the city, the category and the price bounds. |
| Listings.FilterMultiplicity | controllers/propertyController.js:72-104 | Each matching listing is kept as often as the collection holds it, and no other listing is; `total` counts exactly the matches. |
| Listings.FilterByCreation | controllers/propertyController.js:93-97 | Filtering keeps creation order. |
| Listings.Window | controllers/propertyController.js:95-96 | Skip then limit: a contiguous run starting at `skip`, with limit 0 unbounded and a negative limit taken absolutely. |
| Listings.CategoriesOf | controllers/propertyController.js:99 | The category of each listing shown, in order. |
| Listings.GetAllProperty | controllers/propertyController.js:70-104 | A page shows at most the total, which is at most the collection. Every listing shown is in the collection and answers the query. |
| Listings.ListingFailsOnNegativeSkip | controllers/propertyController.js:70-104 | Pages default to 1 and limits to 10. The answer fails iff `(page-1)*limit < 0`. Otherwise it echoes page and limit and totals every match. |
| Listings.ListingWindow | controllers/propertyController.js:90-97 | The listings shown are the matches, newest first, windowed by skip and limit, and at most `|limit|` of them when limit ≠ 0. |
| Listings.ListingSelected | controllers/propertyController.js:72-97 | Every listing shown answers the query. |
| Listings.WindowMembers | controllers/propertyController.js:90-97 | Every listing in a page window of the reversed matches is one of the matches. |
| Listings.ShownWindow | controllers/propertyController.js:90-97 | A successful answer shows the window, at its non-negative skip, of the reversed matches. |
| Listings.WindowReversed | controllers/propertyController.js:95-97 | Position i of a window over the reversed matches is position `|m|-1-(skip+i)` of the matches. |
| Listings.ListingTotalPages | controllers/propertyController.js:105 | `totalPages` is the ceiling of total over limit, and is missing (not a number) when the limit is 0. |
| Listings.ListingCategories | controllers/propertyController.js:99 | The categories are those of the listings shown, each once, in order of first appearance. |
| Listings.ListingNewestFirst | controllers/propertyController.js:93-97 | Over a collection in creation order, each page lists newest first. |
| Listings.ListingNegativeSkip | controllers/propertyController.js:90 | Page 0 with a positive limit fails, and so does page ≥ 2 with a negative limit. |
| Listings.RateListing | controllers/propertyController.js:185-191 | Rating upserts the caller's evaluation; the new average is fixed by `RatedMean`. |
| Listings.RatingRecomputesMean | controllers/propertyController.js:185-191 | After rating, average × count equals the sum of notes. The caller's rating is the new note, others' ratings are unchanged, and one evaluation per account is kept. |
| Listings.RatedMean | controllers/propertyController.js:185-191 | After rating, `noteMoyenne` times the number of evaluations is their total. |
| Listings.EditListing | controllers/propertyController.js:170-171 | Each of the six fields takes the supplied value when it is truthy. Every other field is kept. |
| Listings.EditListingIdempotent | controllers/propertyController.js:170-171 | An empty edit changes nothing, and applying an edit twice equals applying it once. |
| Listings.GetPropertyWithRating | controllers/propertyController.js:200-213 | `None` (404) iff the listing is missing. Otherwise the listing, the caller's rating on it (`UserRating`, null when none), and the stored average. |
| Listings.RateThenRead | controllers/propertyController.js:180-213 | Right after rating, reading the listing back gives the caller's note and the recomputed average. |
| Listings.RemoveKeepsValid | controllers/propertyController.js:139 | Deleting a listing keeps ids unique, creation order, and one evaluation per account. |
| Listings.ReplaceKeepsValid | controllers/propertyController.js:173-193 | Saving a listing with the same id and creation time keeps the collection valid. |
| Listings.PropertyStore.ToggleFavori | controllers/propertyController.js:10-34 | A missing listing gives 404 and nothing changes. Otherwise the toggle edits the account's and the listing's arrays as `Toggle` says, and nothing else. |
| Listings.PropertyStore.RateProperty | controllers/propertyController.js:180-195 | A missing listing gives 404. Otherwise only that listing is rated, and the new average is returned. |
| Listings.PropertyStore.UpdateProperty | controllers/propertyController.js:146-175 | A missing listing gives 404 and another owner 401, both with no change. Otherwise only that listing is edited. |
| Listings.PropertyStore.DeleteProperty | controllers/propertyController.js:127-141 | A missing listing gives 404 and another owner 401, both with no change. Otherwise exactly that listing is removed. |
| Validators.IsTempEmail | middlewares/security.js:21-25 | An address is disposable only when it is present, holds '@', and a listed domain is shorter than it. |
| Validators.DomainPart | middlewares/security.js:23 | `split('@')[1]`: missing iff there is no '@'; when present, it holds no '@'. |
| Validators.TempEmailOfAddress | middlewares/security.js:21-25 | For `local@domain`, the check is true iff the lower-cased domain is in the disposable list. |
| Validators.TempEmailSecondAt | middlewares/security.js:23-24 | With a second '@', only the text between the first two is looked up. |
| Validators.TempEmailFalseCases | middlewares/security.js:22-24 | A missing value, "" and a string without '@' are never disposable. |
| Validators.Contains | middlewares/security.js:117-121 | `.matches(/[class]/)`: true iff some character is in the class. |
| Validators.Failed | middlewares/security.js:116-121 | The chain's errors are exactly the checks the password does not pass. |
| Validators.PasswordRuleExact | middlewares/security.js:116-121 | The chain reports no error iff the password is strong: at least 8 characters, with an A-Z, an a-z, a 0-9 and a non-word character. |
| Validators.PasswordRuleReports | middlewares/security.js:116-121 | Each of the five rules (length, upper case, lower case, digit, special character) is reported iff the password fails it, stated on its characters. |
| Validators.PasswordOnlySpecialMissing | middlewares/security.js:116-121 | A long password with both cases and a digit fails at most the special-character rule. |
| Validators.UnderscoreNotSpecial | middlewares/security.js:121 | `_` is a word character: `Abcdefg1_` fails only the special-character rule. |
| Validators.BangIsSpecial | middlewares/security.js:116-121 | `Abcdefg1!` passes every rule. |
| Validators.CorsExact | middlewares/security.js:54-58 | An origin is allowed iff it is missing, empty, or exactly one of the two whitelisted strings. A trailing slash, another scheme or upper case is refused. |
| Validators.IssuedCodesPassChecks | middlewares/security.js:155-166 | Every code the reset request issues passes the length-4 check (also with white space around it) and the non-empty check. |
| Validators.ShortCodesRefused | middlewares/security.js:155-166 | A code of 1 to 3 characters fails verification's check but passes the reset's. |
| Sanitizer.Sub | middlewares/security.js:74-82 | The objects `clean(c)` visits include c, and all lie at or after c. |
| Sanitizer.CleanSlot | middlewares/security.js:76-77 | A string property becomes its `xss` image. Keys and every non-string value are unchanged. |
| Sanitizer.CleanObjects | middlewares/security.js:74-82 | Visited objects have their string properties cleaned; all other objects are unchanged, and keys and references are kept. |
| Sanitizer.SubClosed | middlewares/security.js:78-79 | An object held by a visited object is visited. |
| Sanitizer.SubParent | middlewares/security.js:78-79 | Every visited object but the first is held by a visited object (the visited set is the reachable set). |
| Sanitizer.SubsDisjoint | middlewares/security.js:74-82 | In a tree, two objects neither of which reaches the other reach disjoint sets. |
| Sanitizer.SiblingsDisjoint | middlewares/security.js:75-80 | Two properties of one object reach disjoint sets, so no object is cleaned twice. |
| Sanitizer.BelowDisjoint | middlewares/security.js:75-80 | What the earlier properties reach is disjoint from what a later property reaches. |
| Sanitizer.ProgressChild | middlewares/security.js:78-79 | The recursive call for property i cleans exactly the objects property i reaches. |
| Sanitizer.ProgressDone | middlewares/security.js:75-82 | When the loop ends, the objects are those `CleanObjects` gives for the reachable set. |
| Sanitizer.ShapeKeepsWellFormed | middlewares/security.js:74-82 | Rewriting only string texts keeps the objects a tree. |
| Sanitizer.SubSame | middlewares/security.js:74-82 | Rewriting only string texts does not change what an object reaches. |
| Sanitizer.CleanIdentity | middlewares/security.js:74-82 | With an `xss` that returns its input, cleaning changes nothing. |
| Sanitizer.CleanCompose | middlewares/security.js:74-82 | Cleaning with f then with g equals cleaning once with g∘f. |
| Sanitizer.CleanIdempotent | middlewares/security.js:74-82 | With an idempotent `xss`, a second pass changes nothing. |
| Sanitizer.Request.Clean | middlewares/security.js:74-82 | In place: every string property of every object reachable from o becomes its `xss` image, exactly once. Keys, references, other values and unreachable objects are unchanged. |
| Sanitizer.Request.CleanProperty | middlewares/security.js:75-81 | One turn of the `for...in`: the property is handled and what it reaches is cleaned, nothing else changes. |
| JsOps.CeilDiv | controllers/messageController.js:105 | `Math.ceil(n / d)` for d ≠ 0: the least integer at or above the quotient. |
| JsOps.Slice | controllers/messageController.js:107 | `slice` with non-negative bounds: the run from start to end clamped to the list, at most end − start long, empty from start ≥ length on. |
| JsOps.SliceNegative | controllers/messageController.js:107 | A negative bound −k counts back from the end (position length − k), and stands for 0 when k exceeds the length. |
| JsOps.IndexOf | controllers/propertyController.js:19-20 | The first position of the value, or -1 exactly when it is absent. |
| JsOps.SpliceOne | controllers/propertyController.js:23-24 | `splice(k, 1)`: the element at k removed, with -1 meaning the last one. |
| JsOps.DistinctInOrder | controllers/propertyController.js:99 | `[...new Set(xs)]`: the same members, no duplicates, in order of first appearance. |
| JsOps.Trim | controllers/userController.js:228 | `trim()`: no leading or trailing white space remains. |
| JsOps.TrimExact | controllers/userController.js:228 | Trimming white space off around a trimmed string gives that string. |
| JsOps.TrimFixes | models/User.js:13 | Trimming leaves a string unchanged iff it is already trimmed. |
| JsOps.TrimIdempotent | models/User.js:13 | Trimming twice equals trimming once. |
| JsOps.DecimalString | controllers/userController.js:192 | `toString()` of a natural number: at least one character, all digits, and no leading zero from 10 up. |
| JsOps.DecimalRoundTrip | controllers/userController.js:192-228 | Parsing the decimal rendering gives the number back. |
| JsOps.DecimalInjective | controllers/userController.js:192-228 | Different numbers render differently. |
| JsOps.DecimalLength | controllers/userController.js:192 | A number in 100000..999999 renders as six digits, the first not '0'. |

## Left out

- HTTP wiring, status-code bodies, authentication middleware (`protect`) and response shapes beyond the fields modelled. Routes are represented only by the checks their validators add.
- Email transport (`utils/sendEmail.js`, `config/emailTemplates.js`). A successful reset request returns the code and address to send to. The mail is sent after the save, so a mail failure leaves the code stored; that failure path is not modelled.
- bcrypt, jwt signing and verification, and token generation are functions or values passed in. Their cryptographic properties are not modelled.
- `Accounts.AccountStore.RegisterUser`: the password is given as its digest. The `minlength: 8` of the schema applies to the digest, which bcrypt always makes long enough, so it is not modelled. An empty digest counts as a schema refusal.
- `Accounts.AccountStore.LoginUser`: the `nom` fallback of the identifier is unreachable through the login route, whose validator demands an email. The model takes an optional identifier and the email.
- `populate` of correspondents, senders and evaluation authors is left out, and with it the crash on an evaluation whose author was deleted.
- `contacterOphrus`, `getOphrusUser`, `searchUsers` (a regex over names), `getUser`, `creerProperty`, `getPropertyById` and image upload or deletion through the image service are not part of the core modelled. `deleteUser` is routed but not defined in the controller.
- The listing schema (`models/Property.js`) is not part of this model. Listing fields are those the controller reads and writes.
- The `$regex` search is a function argument, so regex syntax and case folding are not modelled.
- `parseInt` and `Number` of query strings: values arrive already parsed. NaN (from unparsable text) is not modelled, apart from the inbox's `|| default`.
- `Listings.EditListing`: truthiness is modelled on the parsed values (`""`, a missing price, or price 0 are not supplied). A form price `"0"` is a truthy string in JavaScript and would be stored.
- `Validators.IsTempEmail`: lower-casing is ASCII only; JavaScript's Unicode case mapping is not modelled. Characters are code points, not UTF-16 units.
- Helmet headers, the two rate limiters, `hpp`, `mongo-sanitize`, phone validation (`libphonenumber`), `isEmail` and the request log stream.
- `Sanitizer.Request.Clean`: requires the request's objects to form a tree, which holds for parsed JSON bodies, query strings and params. On shared or cyclic objects, JavaScript would clean a shared object twice or recurse forever. Inherited enumerable properties are not modelled.
- Concurrency: interleaved requests (two toggles, or a rating racing an update) are not modelled; each handler runs atomically here.
- Listings deleted by `deleteProperty` stay in accounts' `favoris`, as in the code. No property about that is claimed.
- Floating point: ratings and prices are exact rationals; `Math.random` is a real draw rather than a 53-bit float.
- Refresh tokens: an empty string stands for a missing token.
- `Messaging.MessageStore.EnvoyerMessage`: requires `now` to be no earlier than every stored `createdAt`, that is, a clock that never runs backwards. A clock set back would break the log's creation order, which the newest-first reading relies on.
- Order among equal `createdAt` values: `sort({ createdAt: ±1 })` leaves ties to the database. The model picks insertion order for ascending sorts and its reverse for descending ones (`Messaging.Involving`, `Messaging.InboxFeed`, `Listings.GetAllProperty`).
