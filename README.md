# BlueLeaf Books front end — a Dafny model of its rules

BlueLeaf Books is a bookstore web front end: a handful of browser scripts that render
pages and call a REST back end. Underneath the rendering sit a small number of
sequential rules, and this project models them and proves their properties:

- the cart kept in local storage: duplicate-free insertion on the book page, removal, the
  reconciliation of the stored ids against the server's validation reply on the cart
  page, the total, and the checkout button (`js/cart.js`, `js/books.js`);
- the file-URL helpers and the derivation of the file host from the API base URL
  (`js/cart.js`, `js/books.js`, `js/dashboard.js`, `js/api.js`);
- response normalisation (`safeJson`), request header assembly (`apiRequest`), and the
  book-list URLs (`js/api.js`);
- the session helpers and guards: token and user storage, `requireAuth`, `requireRole`,
  `logout`, and the navigation links (`js/api.js`, `js/auth.js`);
- the dashboard rules: which dashboard a path shows, the guards each loader passes before
  fetching, the caches re-rendered on resize, the library of purchased books, the status
  badges and labels, the pending list, the monthly report request, the payout email
  check, and the featured-order clamp (`js/dashboard.js`).

The browser becomes a `Session.Browser` object. Its `storage` is a map from keys to stored
text, `location` is the page navigated to, and `alerts` lists the messages shown so far.
`JSON.parse` and `JSON.stringify` stay opaque: they are a `Json.Codec` value. The
predicate `Json.Sound` states the one thing the scripts rely on, that text written by
`stringify` parses back to the same value. Every network reply is a parameter (a
`Cart.ValidateReply`, an `Api.Response`, or a `Result` for each awaited call).

Files, one module each:

- `wrappers.dfy`: `Option` and `Result`.
- `text.dfy`: the string operations of JavaScript that the rules use. These are `trim`,
  ASCII `toLowerCase`, `includes`, `indexOf`, `String(n)`, `parseInt(_, 10)`,
  `padStart(2, '0')`, the `https?://` test and the slash-stripping replaces.
- `seqs.dfy`: `filter`, the subsequence order, and a flat map, with their lemmas.
- `json.dfy`: JSON values with truthiness, property access, `||`, `Number` and `String`.
- `session.dfy`: the storage helpers of api.js and the `Browser` class.
- `api.dfy`, `auth.dfy`, `books.dfy`, `cart.dfy`, `dashboard.dfy`: one per script.

Two behaviours of the code are easy to misread:

- Cart reconciliation filters the stored cart down to the returned ids (`cart.filter(id =>
  returnedIds.includes(id))`). It keeps the cart's own order and repeats, and it writes
  only when some id was dropped. `Cart.Reconcile` models this.
- `safeFileUrl` reads `window.FILE_BASE_URL`. api.js declares `FILE_BASE_URL` with
  `const`, and a `const` is not a property of `window`. So with api.js loaded, the fallback
  uses its hard-coded host `https://blueleafbooks-backend-geum.onrender.com`, not the
  host api.js derives. `Books.FallbackFileUrl` therefore takes the window value as a
  parameter (`""` when unset).

## Model

| member | source | states |
|---|---|---|
| Session.GetItem | js/api.js:8-10 | a key reads as its stored text exactly when it is stored, and a missing key as nothing |
| Session.CurrentUser | js/api.js:23-31 | no entry, an empty entry or unparsable text gives `null`; otherwise the parsed value |
| Session.AfterUserRead | js/api.js:27-29 | reading the user removes the `user` key exactly when its text does not parse, and changes nothing else |
| Session.Strings | js/cart.js:11 | a stored cart is a list of ids exactly when every element is a string, element for element |
| Session.ReadCart | js/cart.js:11 | no stored cart, or an empty entry, reads as the empty cart (`'[]'`) |
| Session.CartRoundTrip | js/cart.js:91-93 | a written cart reads back as the same id list, and writing it leaves every other key as it was |
| Session.UserRoundTrip | js/api.js:23-36 | a user written with `setCurrentUser` reads back as that user, and reading it removes nothing |
| Session.Browser.GetAuthToken | js/api.js:8-10 | returns the stored token |
| Session.Browser.SetAuthToken | js/api.js:13-15 | stores the token under `token`, changes no other key, and the token then reads back |
| Session.Browser.RemoveAuthToken | js/api.js:18-20 | removes only the `token` key, leaving no token |
| Session.Browser.GetCurrentUser | js/api.js:23-31 | returns `CurrentUser` of the old storage and leaves `AfterUserRead` of it |
| Session.Browser.SetCurrentUser | js/api.js:34-36 | stores the stringified user, which then reads back as the same user |
| Session.Browser.RemoveCurrentUser | js/api.js:39-41 | removes only the `user` key, after which there is no current user |
| Session.Browser.LoadCartIds | js/cart.js:11 | returns the stored cart as `ReadCart` reads it |
| Session.Browser.StoreCartIds | js/cart.js:53 | writes the cart, which then reads back as the same list |
| Session.Browser.Alert | js/cart.js:54 | appends exactly one message to the alerts shown |
| Session.Browser.Navigate | js/cart.js:117 | sets the location to the given page |
| Json.Get | js/dashboard.js:89 | an object's property is its field, a missing field is `undefined`, and a value that is not an object has no properties |
| Json.Or | js/books.js:44 | `a \|\| b` is `a` when `a` is truthy, else `b` |
| Json.NumberOf | js/cart.js:100 | a number converts to itself, a boolean to 1 or 0, a falsy value to 0, a string by `Text.NumberText`, an array as the string it prints, and an object to NaN |
| Json.NumberOfPrinted | js/cart.js:100 | `Number([])` is 0, `Number([n])` is `n`, and a number printed as text reads back as itself |
| Text.Trim | js/dashboard.js:459 | the result is the slice of the input left after removing white space at both ends, and it neither starts nor ends with white space |
| Text.ToLower | js/dashboard.js:38 | each character is lowered in place and the length is kept |
| Text.ToLowerIdempotent | js/dashboard.js:508 | lowering twice is lowering once |
| Text.StripLeadingSlashes | js/cart.js:6 | removes exactly the run of leading slashes, so the result does not start with one |
| Text.StripTrailingSlash | js/books.js:20 | removes one final slash if there is one, and nothing else |
| Text.DigitsValueOfNatToString | js/dashboard.js:384 | the digits `String(n)` writes denote `n` |
| Text.NatToStringInjective | js/books.js:188 | different counts are written as different digit strings |
| Text.ParseIntOfIntToString | js/dashboard.js:412-413 | `parseInt` reads back every integer that `String` writes |
| Text.PadStart2 | js/dashboard.js:438 | pads to at least two characters with leading `'0'`s and ends with the input |
| Text.PaddedMonthParses | js/dashboard.js:438 | a month 1..12 padded to two digits is two characters and still reads as that month |
| Text.NumberText | js/cart.js:100 | blank text is 0 and trimmed decimal digits are their value |
| Text.NumberTextOfIntToString | js/cart.js:100 | `Number` reads back every integer that `String` writes |
| Api.StripApiSuffix | js/api.js:5 | a final `/api/` or `/api` is removed, and a string with neither is unchanged |
| Api.FileBaseUrlIsApiHost | js/api.js:1-5 | the file host plus `/api` is the API base URL; it is the https host and has no trailing slash |
| Api.FileBaseUrlIsHttps | js/api.js:1-5 | the file host starts with `https://` |
| Api.BodyData | js/api.js:53-59 | an empty or non-JSON body gives `null`, otherwise the parsed value |
| Api.ErrorMessage | js/api.js:61-66 | the first available of `data.message`, `data.error`, the body's first 250 characters, and `HTTP ` followed by the status in decimal, which reads back as the status |
| Api.SafeJson | js/api.js:49-71 | an error exactly when the response is not OK; 204 or an empty/non-JSON OK body gives `null`; otherwise the parsed body; an error carries `ErrorMessage` |
| Api.NoContentIgnoresBody | js/api.js:50 | a 204 response gives `null` whatever its body |
| Api.RequestHeaders | js/api.js:75-83 | the header names are the caller's plus `Content-Type`, plus `Authorization` exactly when a token is stored; a token overrides the caller's `Authorization`; the caller's `Content-Type` overrides the default JSON one; other caller headers are kept |
| Api.PrepareRequest | js/api.js:74-91 | the URL is the base URL plus the endpoint, the headers are `RequestHeaders` of the stored token and the caller's headers, and without a caller header `Authorization` is sent exactly when a token is stored |
| Api.BooksEndpoint | js/api.js:112-115 | the endpoint is `/books` exactly when the query is empty |
| Api.BooksEndpointQuery | js/api.js:113-114 | the query can be read back from the endpoint after the first `?` |
| Api.AdminBooksEndpoint | js/api.js:209-210 | the endpoint is `/admin/books` exactly when no status is given |
| Api.AdminBooksEndpointQuery | js/api.js:209-210 | the query read back is `status=<status>`, or empty without a status |
| Auth.CheckAuthenticated | js/auth.js:2-4 | true exactly when a non-empty token is stored |
| Auth.RequireAuth | js/auth.js:13-19 | returns whether a token is stored; the location is unchanged if so, and is the redirect target otherwise |
| Auth.RequireRole | js/auth.js:22-28 | returns whether the current user has the role; it redirects exactly when not, and reading the user may drop an unparsable entry |
| Auth.Logout | js/auth.js:31-35 | removes exactly the `token` and `user` keys, leaves no token and no user, and goes to `index.html` |
| Auth.DashboardLinkFor | js/auth.js:53-60 | exactly the roles customer, author and admin get a link, and it leads to `<role>-dashboard.html` |
| Auth.NavItems | js/auth.js:38-82 | no user gives exactly Login and Register; a user gets a greeting, a logout link and, exactly for the three roles, that role's dashboard link |
| Books.FallbackFileUrl | js/books.js:16-21 | a blank path gives `""`; a trimmed http(s) URL is returned trimmed; otherwise it is the base without its trailing slash, `/`, then the trimmed path without leading slashes, where the base is the window's when set and the fixed host otherwise |
| Books.SafeFileUrl | js/books.js:11-22 | a loaded `fileUrl` decides, otherwise the fallback |
| Books.RepeatCount | js/books.js:55 | `c.repeat(n)` holds `n` copies of `c` and nothing else |
| Books.StarString | js/books.js:55 | defined exactly for ratings 0..5; then 5 characters, the first `rating` of them filled stars and the rest empty |
| Books.StarCounts | js/books.js:55 | a star string has exactly `rating` filled and `5 - rating` empty stars |
| Books.RatingStars | js/books.js:44 | a missing rating shows five empty stars, a numeric rating shows its star string, and NaN shows none |
| Books.PurchaseControlFor | js/books.js:98-147 | not available exactly when there is no positive price or no PDF; otherwise a login prompt exactly for no user, buttons exactly for a customer, and nothing for other users |
| Books.CartLabel | js/books.js:187-188 | the label is `Cart` exactly for 0, and `Cart (<n>)` otherwise, where the number shown reads back as the count |
| Books.CartLabelInjective | js/books.js:187-188 | different cart sizes show different labels |
| Books.CartLinkText | js/books.js:182-189 | the label of the stored cart's length, and none when the stored cart is unreadable |
| Books.Insert | js/books.js:159-165 | the id ends up in the cart: unchanged if present, appended at the end otherwise |
| Books.InsertKeepsNoDuplicates | js/books.js:157-165 | a duplicate-free cart stays duplicate-free, and holds the id exactly once |
| Books.InsertCountsOneMore | js/books.js:164-167 | after a new id is written, the cart label counts one more |
| Books.AddToCart | js/books.js:156-168 | an unreadable cart changes nothing; a present id only alerts; an absent id is appended, written and announced |
| Books.BuyNow | js/books.js:170-180 | the id is inserted (storage unchanged if present), and the page goes to `checkout.html` |
| Cart.FileUrl | js/cart.js:3-7 | `""` stays `""`, an http(s) URL is kept, and anything else goes under the file host with its leading slashes removed |
| Cart.FileUrlIdempotent | js/cart.js:3-7 | applying `fileUrl` to its own result changes nothing |
| Cart.FileUrlMatchesFallback | js/cart.js:3-7 | on an already trimmed path, `safeFileUrl`'s fallback with the same base gives the same URL |
| Cart.ReturnedIds | js/cart.js:49 | the `_id` of each returned book, in order |
| Cart.Reconcile | js/cart.js:10-64 | an empty cart makes no request and shows nothing; a failed or non-array reply writes nothing; an empty reply clears the cart; otherwise the books are shown, and only then can a write and the single alert happen |
| Cart.ReconcileKeepsReturnedIds | js/cart.js:49-55 | the cart written back is a subsequence of the stored one, keeps each returned id as often as before and drops every other id, and stays duplicate-free |
| Cart.ReconcileWritesIffSomeUnavailable | js/cart.js:49-55 | on a non-empty reply the cart is written, and the alert raised, exactly when some stored id was not returned, and what is written differs from what was stored |
| Cart.ReconcileStable | js/cart.js:49-55 | loading again with the same reply after a clean-up writes nothing |
| Cart.Without | js/cart.js:92 | removing never lengthens the cart |
| Cart.WithoutContents | js/cart.js:91-93 | every copy of the id is removed, every other id keeps its count and order, and no duplicate appears |
| Cart.RemoveUndoesInsert | js/cart.js:92 | adding an id and then removing it equals removing it alone |
| Cart.InsertRestoresRemoved | js/cart.js:92 | removing a stored id and adding it back keeps the same ids |
| Cart.PriceOf | js/cart.js:100 | a missing price counts as 0, and a numeric price as itself |
| Cart.Total | js/cart.js:100 | the total of no books is 0 and of one book its price; NaN exactly when some price is NaN; non-negative when every price is |
| Cart.Sum | js/cart.js:100 | a single price sums to itself |
| Cart.SumNaN | js/cart.js:100 | a sum is NaN exactly when one of its prices is, and is non-negative when every price is |
| Cart.SumAppend | js/cart.js:100 | the sum of two lists of prices is the sum of their sums, NaN when either is |
| Cart.TotalAppend | js/cart.js:100 | the total of two lists is the sum of their totals, so with the one-book case every total is the sum of its prices |
| Cart.ProceedToCheckout | js/cart.js:107-122 | an empty cart only alerts; an unauthenticated user is alerted and sent to `login.html`; otherwise the page goes to `checkout.html` |
| Cart.CartPage.constructor | js/cart.js:1 | `currentCartBooks` starts empty |
| Cart.CartPage.LoadCart | js/cart.js:10-64 | an unreadable cart changes nothing; otherwise the id list is posted exactly when it is non-empty, and the outcome, `currentCartBooks`, the stored cart and the alerts are those `Reconcile` gives |
| Cart.RemoveFromCart | js/cart.js:90-96 | writes the stored cart without the id, after which the id is gone |
| Dashboard.FileUrl | js/dashboard.js:9-19 | `""` stays `""`, an http(s) URL is kept, an undefined `FILE_BASE_URL` keeps the path, and otherwise the path goes under the base without leading slashes |
| Dashboard.FileUrlAgreesWithCart | js/dashboard.js:9-19 | with api.js's `FILE_BASE_URL` defined, it agrees with the cart page's `fileUrl` |
| Dashboard.PageFor | js/dashboard.js:37-46 | the lower-cased path is tested for customer, author and admin dashboard names in that order |
| Dashboard.DashboardLinkOpensOwnPage | js/dashboard.js:38-46 | the navigation's dashboard link for a role opens that role's dashboard |
| Dashboard.GuardLocation | js/dashboard.js:69-70 | no token goes to `login.html`, a missing role to `index.html`, and an admitted visitor stays |
| Dashboard.GuardStorage | js/dashboard.js:69-70 | the user entry is read, and possibly dropped, only after the token check passed |
| Dashboard.StaysIffAdmitted | js/dashboard.js:69-70 | a page other than the redirect targets stays put exactly when the visitor passes both guards |
| Dashboard.DashboardPage.constructor | js/dashboard.js:31-34 | the caches start empty and the view mode is the current one |
| Dashboard.DashboardPage.Guard | js/dashboard.js:69-70 | admits exactly the authenticated visitors with the role, with the storage and location the two guards leave |
| Dashboard.DashboardPage.LoadCustomerDashboard | js/dashboard.js:68-81 | orders are fetched exactly when the guards pass; a successful reply is cached (an array, else `[]`), and a failure leaves the cache |
| Dashboard.DashboardPage.LoadAuthorDashboard | js/dashboard.js:185-198 | fetched exactly when the guards pass; a successful reply is cached (`{}` when falsy), and a failure leaves the cache |
| Dashboard.DashboardPage.LoadAdminDashboard | js/dashboard.js:635-660 | fetched exactly when the guards pass; four successful replies are cached with their defaults, and any failure leaves the cache |
| Dashboard.DashboardPage.OnResize | js/dashboard.js:49-62 | an unchanged mode does nothing; a changed mode is recorded, and the page's cached data is re-rendered |
| Dashboard.ResizeRender | js/dashboard.js:54-61 | what is re-rendered always comes from the cache it names, and nothing is re-rendered with all caches empty |
| Dashboard.ResizeRendersOwnPage | js/dashboard.js:54-61 | on a dashboard page with its own data cached, that data is re-rendered; on any other page nothing is |
| Dashboard.ItemsOf | js/dashboard.js:90 | an order's item array, or none when it has no items |
| Dashboard.Tag | js/dashboard.js:92-96 | a library entry has exactly the book's fields plus `purchaseDate` and `orderId`; those two are taken from the order, and every other field keeps the book's value |
| Dashboard.Tagged | js/dashboard.js:90-97 | each item is tagged with its order, in order |
| Dashboard.PushOrderBooks | js/dashboard.js:88-98 | the inner loop appends exactly the order's contribution to the library |
| Dashboard.CollectPurchasedBooks | js/dashboard.js:87-99 | the nested loops build exactly `Purchased(orders)` |
| Dashboard.PurchasedAppend | js/dashboard.js:87-99 | the library of two runs of orders is the first library followed by the second, so order is preserved |
| Dashboard.TaggedMembership | js/dashboard.js:90-97 | a tagged list holds exactly the tagged copies of its items |
| Dashboard.ContributionMembership | js/dashboard.js:89-98 | an order contributes exactly its items that have a book, tagged, and only when it is completed |
| Dashboard.PurchasedMembership | js/dashboard.js:87-99 | the library holds exactly the tagged items with a book of the completed orders |
| Dashboard.OrderStatus | js/dashboard.js:109 | a missing status shows as `pending`, and a string status is shown lower-cased |
| Dashboard.OrderBadge | js/dashboard.js:110 | success exactly for completed, danger exactly for failed, and warning for anything else |
| Dashboard.CompletedOrdersShowSuccess | js/dashboard.js:89-110 | an order that reaches the library shows as completed, with the success badge |
| Dashboard.CapitalisedCompletedNotInLibrary | js/dashboard.js:89-110 | the converse fails: a "Completed" order shows as completed but contributes no books |
| Dashboard.AuthorBookLabel | js/dashboard.js:507-511 | a deleted book shows "Deleted by admin", an empty status shows "Unknown", and otherwise the status is shown with its first letter upper-cased |
| Dashboard.AuthorBookLabelLowersToStatus | js/dashboard.js:508-511 | lower-casing a live book's label gives back its status |
| Dashboard.AuthorBookBadge | js/dashboard.js:513-519 | deleted, or neither approved nor pending, gives danger; approved gives success; pending gives warning |
| Dashboard.PendingBooks | js/dashboard.js:666-668 | a non-array gives none, and the list is never longer than the books |
| Dashboard.PendingBooksExactly | js/dashboard.js:668 | the pending list holds exactly the pending books, in order; a live pending book shows the warning badge |
| Dashboard.PendingCount | js/dashboard.js:668-678 | the pending list holds each pending book as often as the books do, and no other book |
| Dashboard.ReportRequestFor | js/dashboard.js:412-440 | a request exactly when both selects parse to a number other than 0, for path `/authors/reports/monthly/<year>/<month>` and file `blueleafbooks-earnings-<year>-<MM>.pdf` |
| Dashboard.MonthOptions | js/dashboard.js:379-389 | a filled select is kept; an empty one gets months 1..12 with two-digit text, and exactly the current month is selected |
| Dashboard.YearOptions | js/dashboard.js:391-400 | a filled select is kept; an empty one gets this year and the five before it, and exactly this year is selected |
| Dashboard.OfferedMonthsRequestReports | js/dashboard.js:382-440 | every offered month with a non-zero year makes a request, and the month in the file name reads back as the month |
| Dashboard.ValidEmailHasShape | js/dashboard.js:464-465 | every text the computed email check accepts matches `^[^\s@]+@[^\s@]+\.[^\s@]+$` |
| Dashboard.ShapeIsValidEmail | js/dashboard.js:464-465 | every text of that shape is accepted |
| Dashboard.ValidEmailIffShape | js/dashboard.js:464-465 | the computed check accepts exactly the pattern's language |
| Dashboard.PayoutDecisionFor | js/dashboard.js:459-469 | the input is rejected exactly when, once trimmed, it is non-empty and fails the pattern; otherwise the trimmed text is saved |
| Dashboard.SavedPayoutEmailShape | js/dashboard.js:459-469 | a saved payout email is empty or an email shape, and has no white space at either end |
| Dashboard.FeaturedOrder | js/dashboard.js:935 | an unparsable value counts as 0, and a parsed one is clamped below at 0 |
| Dashboard.FeaturedOrderRoundTrip | js/dashboard.js:935 | any natural number typed in is kept, and writing the order back and re-reading it changes nothing |
| Dashboard.FeaturedReplyAlert | js/dashboard.js:946-953 | no alert exactly for an OK reply; for any other reply: the fixed failure text when the body is empty or not JSON (read as `{}`); the fixed error text of the outer `catch` when the body is JSON `null`, because `data.message` throws; otherwise the body's truthy `message`, or the failure text when it has none |
| Dashboard.UpdateFeatured | js/dashboard.js:923-955 | without a token it only alerts; otherwise it sends the PATCH to `/admin/books/<id>/featured` with the bearer token, the checkbox and the clamped order, then alerts the error text on a failed `fetch`, alerts as `FeaturedReplyAlert` says on a reply that is not OK (including the error text for a `null` body), and stays silent on success |

## Left out

- DOM rendering, the HTML templates and the mobile toggles. Only the decisions that pick
  what is rendered are modelled.
- `fetch`, `res.json()`, blob downloads and object URLs. Each reply is an input value,
  and a failed call is an error value.
- Concurrency: the admin loader's `Promise.all` becomes four replies that must all
  succeed. Interleavings of asynchronous handlers are not modelled.
- `JSON.parse` and `JSON.stringify` are an opaque `Codec`. A stored cart that parses to
  anything other than an array of strings is treated as unreadable (`None`), as if
  `JSON.parse` had thrown.
- Numbers are integers, with prices in cents. `toFixed`, floating-point sums, `Date` and
  locale formatting are left out.
- Json.NumberOf: reads only integer text (an optional sign and decimal digits, white
  space around it). Decimal, hexadecimal and exponent forms and `Infinity` read as NaN
  (`None`), because their values are not integers or are not held by this model. The
  prices and ratings the server sends are numbers.
- Text.ToLower: maps ASCII letters only; JavaScript's `toLowerCase` also maps the rest of
  Unicode.
- Dashboard.AuthorBookLabel: upper-cases the first character with the ASCII-only
  `Text.UpperChar`; JavaScript's `toUpperCase` also maps the rest of Unicode.
- Strings are sequences of Unicode scalar values. JavaScript counts UTF-16 code units, so
  `body.slice(0, 250)` in `Api.ErrorMessage` and `charAt(0)`/`slice(1)` in
  `Dashboard.AuthorBookLabel` differ from the model on text outside the Basic Multilingual
  Plane.
- Dashboard.AuthorBookLabel: a `null` element of the books array is read as a book with no
  status ("Unknown"). The script throws a TypeError at `book.isDeleted` there, and the
  loader's `catch` shows "Error loading dashboard".
- Dashboard.AuthorBookBadge: a `null` book gets `badge-danger`, where the script throws as
  for the label.
- Dashboard.PendingBooks: a `null` element of the books array is left out of the list,
  where the script throws at `b.status` and the admin loader's `catch` shows its error.
- Paths and ids are strings. `String(path)` applied to a non-string path is left out,
  with `""` standing for `null` and `undefined`.
- Dashboard.ItemsOf: a truthy `items` that is not an array counts as no items; in the
  script `forEach` would throw there.
- Dashboard.Tag: a book that is not an object contributes no fields to the spread, which
  matches JavaScript only for objects and primitives without own properties.
- `isMobileView`, `matchMedia` and the debounce timer. The new mode is a parameter of
  `OnResize`.
- `URLSearchParams` encoding. `booksAPI.getAll` takes the already encoded query string.
- The report's fetch, its error text and the download. `ReportRequestFor` stops at the
  request path and the file name.
- `removeFromCart`'s follow-up `loadCart()` and `updateCartCount()` are separate calls
  (`CartPage.LoadCart`, `Books.CartLinkText`), not part of `RemoveFromCart`.
- `safeFileUrl`'s `try`/`catch` around a loaded `fileUrl`. A loaded function is modelled
  as a total function.
- The admin actions (approve, reject, delete, block, unblock, edit), coupons, checkout
  and the order and author endpoints. They are thin wrappers over `apiRequest`, which is
  modelled.
- Which of the several `fileUrl` definitions wins at load time. Each definition is
  modelled separately (`Cart.FileUrl`, `Dashboard.FileUrl`, `Books.SafeFileUrl`).
