# BookTrack lending rules in Dafny

BookTrack is a small library system: a PHP JSON API (`api/*.php`) over a
MySQL database of users, books, borrowings, reservations, bookmarks,
notifications and an audit log. This project models the API's handlers as
pure functions over one immutable database value and proves what they do.

- `State.Library` holds every table as a sequence of rows in insertion
  order, the category names as a map, and one `nextId` counter standing for
  the tables' AUTO_INCREMENT columns.
- A handler that writes returns `Step(outcome, after)`. `outcome` is `Ok`
  or `Fail(code, message)` with the HTTP status and JSON message of the
  source. A handler that reads returns `Data(value)` or
  `Refused(code, message)`.
- Each file's router (the `switch` on the request method, the login and
  role gates) is a `Dispatch` function returning the handler it picks or
  the refusal.
- The clock is a parameter `now` in Unix seconds. `Day(now)` is the UTC
  day number of `now`, standing for the calendar day that `date('Y-m-d')`
  and `CURDATE()` give.
  Due dates and return dates are day numbers; reservation expiry stays in
  seconds.
- SQL is modelled by a few table operations (`Seqs`):
  - `Filter` for a WHERE clause;
  - `Count` for `COUNT(*)`;
  - `Reverse` for `ORDER BY created_at DESC` (rows are inserted in time order);
    `NewestFirst(r, table)` says the rows of `r` sit at strictly decreasing
    positions of the table, and each listing has a lemma stating it;
  - `Page` for `LIMIT/OFFSET`;
  - `First` for a `fetch_assoc` of the first row;
  - `UpdateWhere` and `DeleteWhere` for `UPDATE` and `DELETE`.
  
  A `JOIN books` hides rows whose book is gone. A `LEFT JOIN` yields an `Option`.
- `password_hash`, `password_verify` and `FILTER_VALIDATE_EMAIL` are
  parameters of function type: the model says only where they are used.
- `logSystemActivity` is `State.Log` and `createNotification` is
  `State.Notify`. Each appends one row; every notification is created
  unread with priority `medium`.

The model also states the code's actual behaviour where it differs from
what a reader might expect:
- A reservation of a book on the shelf takes the book off the shelf for
  everyone, the reserving reader included.
- A return puts the book back on the shelf whatever reservations wait for it.
- Cancelling the last reservation in force for a book puts it back on the
  shelf even while it is out on loan, so it can be lent twice at once.
- The `overdue` filter of "my borrowings" never lists anything.
- A returned borrowing can be returned again, and a cancelled reservation
  cancelled again.

## Model

| member | source | states |
|---|---|---|
| Borrowings.Dispatch | api/borrowings.php:11-56 | 401 without a session; each route is taken exactly when its request arrives: a GET with an id reads that borrowing, a GET without one and `action=my` lists the caller's, any other GET lists all iff the role is admin/library_admin (403 otherwise); a POST borrows iff `action=borrow` and returns iff `action=return`, else 400 "Invalid action"; other methods 405 |
| Borrowings.Borrow | api/borrowings.php:58-163 | checks in order (missing book id 400, unknown book 404, book not `available` 400, caller already has it 400), a failure changes nothing, success iff the book is on the shelf and not already out to the caller; appends one `borrowed` loan dated today and due today + days (default 14); the book becomes `borrowed` with total_borrows + 1 and last_borrowed today; only the caller's pending reservations of that book are cancelled; one log row and one `system` notification |
| Borrowings.Fine | api/borrowings.php:209-216 | the fine is never negative, is 0 when returned on or before the due day, and is one unit per day late otherwise |
| Borrowings.LocateLoan | api/borrowings.php:186-203 | by borrowing id: a row with that id visible to its owner or to admin/library_admin, whatever its status; by book id: the caller's own open borrowing of that book; either way the book must exist; none found means no row qualifies |
| Borrowings.CloseLoan | api/borrowings.php:209-245 | the located borrowing is `returned` today with its fine; the book is `available` whatever reservations are pending; the oldest pending reserver, if any, gets one `available` notification, then the borrower one `system` notification; one `info` log row naming the book; reservations, users and bookmarks untouched |
| Borrowings.Return | api/borrowings.php:165-261 | neither id given is 400, a borrowing that cannot be located is 404, and failures change nothing; otherwise the located borrowing is closed |
| Borrowings.ReturnAgain | api/borrowings.php:186-188 | a borrowing just returned by id can be returned again by id |
| Borrowings.ReportedStatus | api/borrowings.php:299-302 | `overdue` iff the stored status is `borrowed` and the due day has passed; otherwise the stored status |
| Borrowings.MyBorrowings | api/borrowings.php:263-317 | lists exactly the caller's borrowings whose book exists and that pass the status filter (applied only for borrowed/returned/overdue, against the stored status), each with its reported status, and as many rows as the filtered count |
| Borrowings.OverdueFilterListsNothing | api/borrowings.php:279-282 | the `overdue` filter compares with the stored status, which is never `overdue`, so the listing is empty |
| Borrowings.GetBorrowing | api/borrowings.php:345-373 | found iff some borrowing with that id is visible to the caller (owner or admin/library_admin, book existing); otherwise 404 "Borrowing not found" |
| Borrowings.AllBorrowings | api/borrowings.php:319-343 | exactly the borrowings whose book and user both exist, as many as the filtered count |
| Borrowings.AllBorrowingsNewestFirst | api/borrowings.php:331 | the listing reads those borrowings newest first: their table positions strictly decrease |
| Reservations.Dispatch | api/reservations.php:11-63 | 401 without a session; each route is taken exactly when its request arrives: a GET with an id reads that reservation, a GET without one and `action=my` lists the caller's, any other GET lists all iff the role is library_admin/library_moderator (403 otherwise); a POST creates iff `action=create` (400 "Invalid action" otherwise); a DELETE cancels iff an id is given (400 "Reservation ID required" otherwise); other methods 405 |
| Reservations.Create | api/reservations.php:65-178 | checks in order (missing id 400, unknown book 404, caller has it out 400, caller already holds a pending or available reservation 400), failures change nothing; success appends a reservation `available` iff the book is `available` (else `pending`) expiring after the given days (default 7); the book becomes `reserved` only in the available case; one log row and an `available` or `system` notification |
| Reservations.LocateHold | api/reservations.php:190-202 | the reservation with the id that its owner or library_admin/library_moderator may see and whose book exists; none iff no such row |
| Reservations.Withdraw | api/reservations.php:207-229 | every row with the id becomes `cancelled` whatever its status; the book becomes `available` iff no pending or available reservation of it remains, even if it is out on loan; otherwise it is unchanged; one log row |
| Reservations.Cancel | api/reservations.php:180-241 | 404 "Reservation not found" iff no visible row has the id, and nothing changes; otherwise the located reservation is withdrawn |
| Reservations.CancelAgain | api/reservations.php:207-209 | a reservation just cancelled can be cancelled again |
| Reservations.WithdrawnStaysVisible | api/reservations.php:191-209 | a withdrawn reservation can still be located under its id by whoever could see it |
| Reservations.ReportedStatus | api/reservations.php:266-269 | `expired` iff the stored status is `pending` and the expiry has passed; an `available` reservation is never reported expired |
| Reservations.Selection | api/reservations.php:252-257 | exactly the caller's reservations not cancelled whose book exists, as many as the filtered count |
| Reservations.MineNewestFirst | api/reservations.php:257 | that selection is read newest first: table positions strictly decrease |
| Reservations.MyReservations | api/reservations.php:243-288 | one row per selected reservation, in the selection's order, each with its reported status, never `cancelled`; every selected reservation is listed |
| Reservations.GetReservation | api/reservations.php:316-344 | found iff a reservation with the id is visible to the caller; otherwise 404 |
| Reservations.AllReservations | api/reservations.php:290-314 | exactly the reservations whose book and user both exist, as many as the filtered count |
| Reservations.AllReservationsNewestFirst | api/reservations.php:302 | the listing is newest first: table positions strictly decrease |
| Bookmarks.Dispatch | api/bookmarks.php:11-49 | 401 without a session; GET lists; POST and DELETE need a book id (400 "Book ID required"); other methods 405 |
| Bookmarks.Selection | api/bookmarks.php:61-66 | exactly the caller's bookmarks whose book exists, as many as the filtered count |
| Bookmarks.MarksNewestFirst | api/bookmarks.php:66 | that selection is read newest first: table positions strictly decrease |
| Bookmarks.List | api/bookmarks.php:51-91 | one row per selected bookmark, in the selection's order, each with its own book and that book's category name; every selected bookmark is listed |
| Bookmarks.Add | api/bookmarks.php:93-159 | unknown book 404, pair already bookmarked 409, failures change nothing; success iff the book exists and the pair is new; appends exactly that pair and one log row |
| Bookmarks.Remove | api/bookmarks.php:161-206 | 404 "Bookmark not found" iff the pair is absent or its book is gone; otherwise exactly the rows of that pair are deleted and one log row is added |
| Bookmarks.AddKeepsPairsUnique | api/bookmarks.php:120-136 | adding keeps (user, book) pairs unique |
| Bookmarks.AddThenRemove | api/bookmarks.php:136-189 | adding a bookmark and removing it restores the bookmark table exactly |
| Notifications.Dispatch | api/notifications.php:11-62 | 401 without a session; each route is taken exactly when its request arrives: GET with an id reads it, without one lists; PUT with an id marks read iff `action=read` and updates otherwise; PUT without an id marks all read iff `action=read-all`, else 400 "Invalid action"; DELETE with an id deletes it, without one clears iff `action=clear-all`, else 400 "Notification ID or action required"; other methods 405 |
| Notifications.View | api/notifications.php:114-125 | a row with its book's title when the book exists and the book id only when the joined book id is truthy |
| Notifications.Selection | api/notifications.php:78-102 | exactly the caller's notifications the filter selects (`unread`, one of the three types, anything else all), and as many as the count says |
| Notifications.NoticesNewestFirst | api/notifications.php:102 | the selection is read newest first: table positions strictly decrease |
| Notifications.List | api/notifications.php:64-139 | exactly the page of the selection from `offset` (default 0), at most `limit` (default 50) rows, `min(limit, selected - offset)` of them when the offset is inside the selection; every row is the caller's and passes the filter; the unread count covers all the caller's unread notifications whatever the filter |
| Notifications.Get | api/notifications.php:141-185 | found iff the caller owns a notification with the id; otherwise 404 |
| Notifications.MarkAsRead | api/notifications.php:187-211 | only the caller's rows with the id become read; no other row and no other table changes |
| Notifications.MarkAsReadIdempotent | api/notifications.php:197 | marking read twice equals marking once |
| Notifications.MarkAllAsRead | api/notifications.php:213-237 | every unread notification of the caller becomes read; nothing else changes |
| Notifications.MarkAllAsReadCounts | api/notifications.php:223 | afterwards the caller's unread count is 0 and every other user's is unchanged |
| Notifications.NotifyRaisesUnread | api/borrowings.php:375-380 | a new notification raises its recipient's unread count by one and nobody else's |
| Notifications.Delete | api/notifications.php:239-263 | deletes exactly the caller's notifications with the id |
| Notifications.ClearAll | api/notifications.php:265-289 | the caller has no notifications left; every other user's are kept |
| Notifications.Update | api/notifications.php:291-347 | 400 "No fields to update" with no change iff neither is_read nor priority is given; otherwise only those two columns of the caller's rows with the id change |
| Notifications.UpdateReadIsMarkAsRead | api/notifications.php:308-311 | updating only is_read to true does what marking as read does |
| Auth.Dispatch | api/auth.php:11-46 | each action is taken exactly when it arrives with its method: POST login/register, GET check, DELETE logout; any other action under GET, POST or DELETE is 400 "Invalid action" and any other method 405 "Method not allowed" |
| Auth.FindByEmail | api/auth.php:66-69 | the account found has that e-mail; none iff no account has it |
| Auth.Login | api/auth.php:48-132 | empty e-mail or password 400; unknown e-mail or wrong password 401; an account not `active` 403, checked only after the password; failures change neither database nor session; success stamps last_login, logs, and sets the session to the user's id, e-mail and role, and no other table changes |
| Auth.LoginFailuresAlike | api/auth.php:71-88 | an unknown e-mail and a wrong password get the identical 401 reply |
| Auth.CheckSession | api/auth.php:236-291 | not logged in 401 (session kept); user row gone 401 and session destroyed; user not `active` 403 and session destroyed; otherwise the user's summary; the database never changes |
| Auth.LoginThenCheck | api/auth.php:106-109 | the session a login establishes passes the session check, which reports the same user |
| Auth.RegistrationError | api/auth.php:146-167 | no error iff all required fields are non-empty, the passwords match, the password has at least 6 characters and the e-mail is valid; the checks run in that order and the first that fails gives its message: missing fields, "Passwords do not match", "Password must be at least 6 characters", "Invalid email format" |
| Auth.Register | api/auth.php:134-219 | a validation error is 400 with the message of the first check that fails, a taken e-mail 409, failures change nothing; success appends one account with role `user` and the hashed password, and one log row under the new id, and no other table changes |
| Auth.RegisterThenLogin | api/auth.php:193-200 | a fresh active registration can log in with the same e-mail and password and gets role `user` |
| Auth.Logout | api/auth.php:221-234 | always succeeds and destroys the session; logs only when the session had a user id, and changes no table but the audit log |
| Auth.LogoutThenCheck | api/auth.php:232 | after logout the session check answers 401 "Not authenticated" |
| Users.Dispatch | api/users.php:10-75 | the own-profile GET (`action=profile`, no id) needs no session, everything else 401 without one; each route is taken exactly when its request arrives: a profile GET with an id reads that profile, `action=list` lists iff the role is admin/library_admin (403 otherwise), any other GET action 400 "Invalid action"; a PUT updates iff `action=profile` and, when an id is given, the role is admin/library_admin (403 otherwise; other actions 400); a DELETE deletes iff an id is given and the role is admin/library_admin (403 otherwise); other methods 405 |
| Users.GetMyProfile | api/users.php:77-105 | the caller's own account, or 404 when there is no session user or no such row |
| Users.GetUserProfile | api/users.php:107-142 | someone else's profile needs admin/library_admin (403 "Access denied"); found iff allowed and the account exists, else 404 |
| Users.Selection | api/users.php:157-173 | exactly the accounts passing the filters (status applied only for active/suspended/inactive, role only for user/admin/library_admin), as many as the filtered count |
| Users.GetUserList | api/users.php:144-194 | exactly the page of the selection from `offset` (default 0), at most `limit` (default 50) accounts, `min(limit, selected - offset)` of them when the offset is inside the selection and none past it, each formatted |
| Users.UsersNewestFirst | api/users.php:173 | the selection is read newest first: table positions strictly decrease |
| Users.UserListComplete | api/users.php:154-175 | a first page at least as long as the selection holds every selected account |
| Users.ModeratorFilterIgnored | api/users.php:167 | the role filter `library_moderator` is not whitelisted, so it selects the same accounts as no role filter |
| Users.GrantsFor | api/users.php:222-230 | status is writable iff the caller is admin/library_admin; role also requires the target to be someone else |
| Users.Apply | api/users.php:232-238 | field by field: a name, contact or image column given in the patch is written and one absent is kept; status and role are written only when given and permitted; the password hash only when a new one is given; id, e-mail and last login never change; with nothing to write the account is unchanged |
| Users.ApplyIdempotent | api/users.php:232-238 | applying the same patch twice gives the same account as applying it once |
| Users.PasswordError | api/users.php:241-264 | a password change is checked only when both passwords are given: a missing account 404, a wrong current password 401 |
| Users.UpdateProfile | api/users.php:196-301 | someone else's profile needs admin/library_admin (403); a failed password check refuses the update; nothing to write 400 "No fields to update"; failures change nothing; success rewrites only the target account and logs it, and no other table changes |
| Users.RoleChangeNeedsAnotherAdmin | api/users.php:225-229 | nobody changes their own role, and only admin/library_admin change anyone's status or role |
| Users.DeleteUser | api/users.php:303-355 | own account 400, unknown account 404, failures change nothing; otherwise the account and its borrowings, reservations, bookmarks and notifications are removed and a warning is logged |
| State.FullNameKeepsInnerSpaces | api/users.php:358 | only the ends of the joined name are trimmed: a missing middle name leaves two spaces inside |
| State.FullNameWithoutSuffix | api/users.php:358 | with no suffix the trailing separator is trimmed away |
| State.CategoryName | api/books.php:148-150 | the category name exists iff the book has a category id present in the categories table |
| Books.Dispatch | api/books.php:10-70 | reading needs no login: a GET with an id reads that book, without one it searches iff `action=search` and lists otherwise; POST creates iff the session is a logged-in library_admin or library_moderator, PUT updates and DELETE deletes iff moreover an id is given (403 without the role, so `admin` is refused; 400 "Book ID required" without the id); other methods 405 |
| Books.GetBooks | api/books.php:72-103 | one page of the catalogue, newest first, default 50 rows from 0 |
| Books.GetBook | api/books.php:105-132 | found iff a book has the id, with its category name; otherwise 404 |
| Books.Selection | api/books.php:150-172 | exactly the books matching every non-empty filter: `%q%` over title, author, ISBN or description, the category name, the availability; as many as the filtered count |
| Books.SearchNewestFirst | api/books.php:174 | the selection is read newest first: table positions strictly decrease |
| Books.Search | api/books.php:134-195 | exactly the page of the selection from `offset` (default 0), at most `limit` (default 50) books, `min(limit, selected - offset)` of them when the offset is inside the selection and none past it, each with its category name |
| Books.SearchWithoutFilters | api/books.php:155-172 | with every filter empty the search is the plain catalogue listing |
| Books.TextMatchIsContainment | api/books.php:156-157 | for a query without wildcards, the text filter is case-insensitive containment in one of the four columns |
| Text.LikeContains | api/books.php:157 | for a `q` without `%`, `_` or backslash, `LIKE '%q%'` holds exactly when the text contains `q`, ignoring letter case |
| Books.Apply | api/books.php:265-274 | column by column: a column given in the patch is written and one absent is kept; id and borrow statistics never change; an empty patch changes nothing |
| Books.ApplyIdempotent | api/books.php:265-274 | applying the same patch twice gives the same book as applying it once |
| Books.Create | api/books.php:197-248 | 400 "Title and author are required" iff either is empty, with no change; otherwise one book is appended with the given title and author, `available` by default, every optional column equal to the request's value or null, the creation logged, and no other table changes |
| Books.Update | api/books.php:250-305 | 400 "No fields to update" iff no column is given, with no change; otherwise every book with the id is patched column by column (given columns written, absent ones kept), no other book changes, one log row is added, and no other table changes |
| Books.UpdateOfMissingBook | api/books.php:285-298 | updating an unknown id succeeds and changes no book |
| Books.Delete | api/books.php:307-351 | unknown id 404 with no change; otherwise only that book is removed, a warning is logged, and no other table (categories included) changes |
| Dashboard.Dispatch | api/dashboard.php:11-41 | 401 without a session; `type` defaults to user; `type=admin` needs admin or library_admin (403) |
| Dashboard.UserDashboard | api/dashboard.php:42-133 | overdue never exceeds reading; reading plus completed never exceeds the borrowings; reading is 0 iff the caller has nothing out; completed is 0 iff the caller has brought nothing back; wishlist is 0 iff the caller has no bookmark; overdue is 0 iff none of the caller's borrowings is out with a due day before today; total_books is the catalogue size |
| Dashboard.Feed | api/dashboard.php:154-177 | the ten newest log rows, newest first, which is the first page of the unfiltered log listing |
| Dashboard.AdminDashboard | api/dashboard.php:135-208 | active users never exceed users with role `user`; overdue never exceeds active borrowings; the counts are bounded by their tables; the activity is the feed |
| Dashboard.AdminFiguresZero | api/dashboard.php:137-152 | users with role `user`, active users (role `user`, last login within 30 days of now), active borrowings, pending requests and overdue books (out with a due day before today) are each zero exactly when no row of their table qualifies |
| Dashboard.RegisterAddsPatron | api/dashboard.php:137-140 | a registration adds one to the users with role `user` and leaves the active users unchanged |
| Dashboard.ReserveMovesPending | api/dashboard.php:146 | a reservation adds one pending request exactly when the book was not on the shelf, and leaves active borrowings unchanged |
| Dashboard.CancelMovesPending | api/dashboard.php:146 | cancelling takes one off the pending requests exactly when the reservation was pending, given unique reservation ids |
| Dashboard.ReturnClosesBorrowing | api/dashboard.php:149-152 | returning an open borrowing takes one off the active borrowings, and one off the overdue books exactly when its due day was before today, given unique borrowing ids |
| Dashboard.LoginCountsActive | api/dashboard.php:137-140 | a successful login counts a patron who was not yet active among the active users and moves no other account, given unique user ids; the users with role `user` stay as they were |
| Dashboard.BorrowAddsReading | api/dashboard.php:46-49 | a successful borrow adds one to the borrower's reading count and to the active borrowings, and changes no other reader's reading count |
| Dashboard.BorrowMovesOverdue | api/dashboard.php:109-113 | a new borrowing raises the borrower's and the administrator's overdue figures by one exactly when the requested loan period is negative, and leaves them otherwise |
| Dashboard.ReturnCompletesReading | api/dashboard.php:46-113 | returning one's own open borrowing moves one from reading to completed, and takes one off the reader's overdue figure exactly when its due day was before today; every other reader's reading, completed and overdue figures stay as they were |
| Dashboard.BookmarkAddsWish | api/dashboard.php:57 | a new bookmark adds one to its owner's wishlist and to nobody else's |
| Logs.Dispatch | api/logs.php:11-44 | anyone not logged in as library_admin or library_moderator gets 403; GET with an id reads one, else lists; DELETE needs an id (400 "Log ID required"); other methods 405 |
| Logs.Author | api/logs.php:61 | the joined user has the row's user id and is in the users table; no user is joined iff the row has no user id or no account has it |
| Logs.Selection | api/logs.php:66-78 | exactly the rows passing both filters, as many as the filtered count |
| Logs.LogsNewestFirst | api/logs.php:78 | the selection is read newest first: table positions strictly decrease |
| Logs.UserName | api/logs.php:95 | the joined user's trimmed first and last name when the first name is truthy; `System` otherwise, including when no user row matches |
| Logs.View | api/logs.php:92-103 | user_id only when truthy, the user's name and e-mail from the join |
| Logs.LevelFilter | api/logs.php:66 | a level filter applies iff the level is info, warning, error or success |
| Logs.UserFilter | api/logs.php:72 | a user filter applies iff the parameter is a truthy digit string, and selects that number |
| Logs.GetLogs | api/logs.php:46-110 | exactly the page of the selection from `offset` (default 0), at most `limit` (default 100) rows, `min(limit, selected - offset)` of them when the offset is inside the selection and none past it, every row passing the filters |
| Logs.UnknownLevelIgnored | api/logs.php:66 | a level outside the four names selects the same rows as no level filter, so every page lists the same |
| Logs.UnfilteredSelection | api/logs.php:59-78 | without a filter every row is selected, newest first |
| Logs.UnfilteredNewestFirst | api/logs.php:54-78 | without filters the first page holds the `limit` newest rows, newest first, so a page large enough lists every row |
| Logs.GetLog | api/logs.php:112-154 | found iff a row has the id; otherwise 404 "Log not found" |
| Logs.DeleteLog | api/logs.php:156-185 | always succeeds: deletes the rows with the id, no 404; then logs "Log deleted: ID n" only when the session has a truthy user id |
| Logs.DeleteThenGet | api/logs.php:166-173 | after a deletion the id reads as not found, unless the new audit row itself took that id |
| Logs.DeleteMissingKeepsLogs | api/logs.php:166 | deleting an id no row has removes nothing |
| Scenarios.ReadyHoldBlocksBorrowing | api/reservations.php:144-147 | after a reservation of a book on the shelf, every borrow of it is refused with 400, the reserver's included |
| Scenarios.ReturnShelvesBook | api/borrowings.php:224-226 | after a return of a located borrowing, any reader whose only open borrowing of the book was that one can borrow it, pending reservations or not |
| Scenarios.CancelReleasesLentBook | api/reservations.php:213-226 | cancelling the last reservation in force for a book that is out on loan lets another reader borrow it, leaving two open borrowings of it |
| Scenarios.CancelLastHoldShelves | api/reservations.php:220-226 | cancelling the last reservation in force puts the book on the shelf and leaves borrowings alone |
| Scenarios.LendAgain | api/borrowings.php:94-115 | a book on the shelf is lent to a reader who lacks it even while another reader still has it out |
| Scenarios.CreateKeepsHoldsUnique | api/reservations.php:118-130 | creating keeps at most one pending or available reservation per (user, book) |
| Scenarios.CancelKeepsHoldsUnique | api/reservations.php:207-209 | cancelling keeps that rule |
| Scenarios.BorrowKeepsHoldsUnique | api/borrowings.php:135 | borrowing keeps that rule |
| Scenarios.BorrowKeepsLoansUnique | api/borrowings.php:104-115 | borrowing keeps at most one open borrowing per (user, book) |
| Scenarios.ReturnKeepsLoansUnique | api/borrowings.php:219-220 | returning keeps that rule |

## Left out

- Database connection failures and failed statement executions (the 500 answers) are not modelled: every statement succeeds.
- Each handler is one atomic step. The source's writes are not in a transaction, and races between requests are not modelled.
- The client IP address in the audit log, notification message bodies, `created_at` timestamps and the JSON encoding are not modelled. Rows are ordered by insertion instead of by timestamp.
- Negative `limit` or `offset` values are not modelled: MySQL rejects them, and the model takes them as natural numbers.
- `is_numeric` for the log listing's user filter is modelled as a non-empty string of decimal digits. Signs, decimals and exponents are left out.
- Letter case is folded for ASCII letters only, and string equality is exact. The database's collation (case-insensitive e-mail and category comparisons) is not modelled.
- The password length is counted in characters, not in bytes as `strlen` counts it.
- Request values outside an enum are not modelled: a status, role or availability string the database would reject cannot be written.
- Days are UTC day numbers. The server's time zone, and the shorter day at a daylight-saving change that would shorten a fine, are not modelled.
- Borrowings.Borrow and Reservations.Create: the loan period `due_days` and the reservation period `expiry_days` arrive as integers (or absent). The `(int)` cast of the request value is not modelled, so a fractional value's truncation and a non-numeric string's becoming 0 are outside the model.
- Request ids arrive as parsed integers. The truthiness of the raw strings (`"00"` or `"abc"` pass the check and then cast to 0) and the `(int)` cast itself are not modelled.
- The user dashboard's 30-day recent-activity list (a UNION of borrowings and reservations sorted by date) is not modelled.
- The administrator dashboard's category distribution is not modelled.
- A logged-in session without a user id is not modelled for the dashboard, borrowing, reservation, bookmark and notification handlers: they take the caller's id as an integer.
- Cascading deletes follow the schema's foreign keys as described for the system: deleting a user removes their borrowings, reservations, bookmarks and notifications and keeps the audit log. Deleting a book removes only the book. The schema file is not part of this model.
- Book ratings and fines are whole numbers. The source's floats are not modelled.
- Dashboard.ReturnCompletesReading: assumes borrowing ids are unique, as the primary key guarantees, because the model's tables do not enforce keys.
- Auth.LoginThenCheck: assumes user ids are unique, as the primary key guarantees.
- Dashboard.LoginCountsActive: assumes user ids are unique, as the primary key guarantees.
- Auth.RegisterThenLogin: assumes new accounts start `active`, the column default, which is a parameter of the model.
