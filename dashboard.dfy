/**
  * js/dashboard.js: which dashboard a path shows, the guards the three loaders pass
  * before fetching, the caches kept for re-rendering on resize, the purchased books of
  * a customer, the status badges, the admin's pending list, the monthly report request,
  * the payout email check and the featured-order field.
  */
module Dashboard {
  import opened Wrappers
  import opened Json
  import opened Session
  import Text
  import Seqs
  import Api
  import Auth
  import Cart

  /** dashboard.js's `fileUrl(path)`. `fileBase` is `FILE_BASE_URL`, `None` when that
      name is not defined. */
  function FileUrl(path: string, fileBase: Option<string>): (r: string)
    ensures path == "" ==> r == ""
    ensures path != "" && Text.IsHttpUrl(path) ==> r == path
    ensures path != "" && fileBase.None? ==> r == path
    ensures path != "" && !Text.IsHttpUrl(path) && fileBase.Some? ==>
              r == fileBase.value + "/" + Text.StripLeadingSlashes(path)
  {
    if path == "" then ""
    else if Text.IsHttpUrl(path) then path
    else if fileBase.None? then path
    else fileBase.value + "/" + Text.StripLeadingSlashes(path)
  }

  /** With api.js loaded, the dashboard's `fileUrl` and the cart page's agree. */
  lemma FileUrlAgreesWithCart(path: string)
    ensures FileUrl(path, Some(Api.FileBaseUrl())) == Cart.FileUrl(path)
  {
  }

  /** The dashboard a page path shows. */
  datatype Page = CustomerPage | AuthorPage | AdminPage | OtherPage

  /** The dispatch of the page-load handler: the lower-cased path is tested for the
      three dashboard names in this order. */
  function PageFor(pathname: string): (r: Page)
    ensures var p := Text.ToLower(pathname);
            && (r == CustomerPage <==> Text.Contains(p, "customer-dashboard"))
            && (r == AuthorPage <==> !Text.Contains(p, "customer-dashboard") && Text.Contains(p, "author-dashboard"))
            && (r == AdminPage <==> (!Text.Contains(p, "customer-dashboard") && !Text.Contains(p, "author-dashboard")
                                     && Text.Contains(p, "admin-dashboard")))
  {
    var p := Text.ToLower(pathname);
    if Text.Contains(p, "customer-dashboard") then CustomerPage
    else if Text.Contains(p, "author-dashboard") then AuthorPage
    else if Text.Contains(p, "admin-dashboard") then AdminPage
    else OtherPage
  }

  /** A text in which some character of `sub` does not occur does not contain `sub`. */
  lemma NotContainsMissingChar(s: string, sub: string, k: nat)
    requires k < |sub| && sub[k] !in s
    ensures !Text.Contains(s, sub)
  {
    forall i | 0 <= i <= |s| - |sub|
      ensures !Text.OccursAt(s, sub, i)
    {
      assert s[i..i + |sub|][k] == s[i + k];
    }
  }

  /** The page a role's navigation link leads to. */
  function PageOfRole(role: string): Page {
    if role == "customer" then CustomerPage
    else if role == "author" then AuthorPage
    else if role == "admin" then AdminPage
    else OtherPage
  }

  /** The roles that have a dashboard. */
  predicate IsDashboardRole(role: string) {
    role == "customer" || role == "author" || role == "admin"
  }

  /** The path of a role's dashboard link. */
  function LinkPath(role: string): string {
    "/" + role + "-dashboard.html"
  }

  /** `y` occurs in `x + y + z` right after `x`. */
  lemma OccursInMiddle(x: string, y: string, z: string)
    ensures Text.OccursAt(x + y + z, y, |x|)
  {
    assert (x + y + z)[|x|..|x| + |y|] == y;
  }

  /** The link paths are already lower case. */
  lemma LinkPathIsLowerCase(role: string)
    requires IsDashboardRole(role)
    ensures Text.ToLower(LinkPath(role)) == LinkPath(role)
  {
    Text.ToLowerOfLowercase(LinkPath(role));
  }

  /** Only the customer's link names the customer dashboard (the others have no "c"). */
  lemma LinkPathLacksCustomer(role: string)
    requires role == "author" || role == "admin"
    ensures !Text.Contains(LinkPath(role), "customer-dashboard")
  {
    assert 'c' !in LinkPath(role);
    NotContainsMissingChar(LinkPath(role), "customer-dashboard", 0);
  }

  /** The admin link does not name the author dashboard (it has no "u"). */
  lemma AdminPathLacksAuthor()
    ensures !Text.Contains(LinkPath("admin"), "author-dashboard")
  {
    assert 'u' !in LinkPath("admin");
    NotContainsMissingChar(LinkPath("admin"), "author-dashboard", 1);
  }

  /** A role's link path names that role's dashboard. */
  lemma LinkPathNamesRole(role: string)
    ensures Text.Contains(LinkPath(role), role + "-dashboard")
  {
    var name := role + "-dashboard";
    assert LinkPath(role) == "/" + name + ".html";
    OccursInMiddle("/", name, ".html");
  }

  lemma CustomerLinkPage(role: string)
    requires role == "customer"
    ensures PageFor(LinkPath(role)) == CustomerPage
  {
    LinkPathNamesRole(role);
    assert role + "-dashboard" == "customer-dashboard";
    LinkPathIsLowerCase(role);
  }

  lemma AuthorLinkPage(role: string)
    requires role == "author"
    ensures PageFor(LinkPath(role)) == AuthorPage
  {
    LinkPathNamesRole(role);
    assert role + "-dashboard" == "author-dashboard";
    LinkPathIsLowerCase(role);
    LinkPathLacksCustomer(role);
  }

  lemma AdminLinkPage(role: string)
    requires role == "admin"
    ensures PageFor(LinkPath(role)) == AdminPage
  {
    LinkPathNamesRole(role);
    assert role + "-dashboard" == "admin-dashboard";
    LinkPathIsLowerCase(role);
    LinkPathLacksCustomer(role);
    AdminPathLacksAuthor();
  }

  /** Each link path opens the dashboard of its role. */
  lemma LinkPathPage(role: string)
    requires IsDashboardRole(role)
    ensures PageFor(LinkPath(role)) == PageOfRole(role)
  {
    if role == "customer" {
      CustomerLinkPage(role);
    } else if role == "author" {
      AuthorLinkPage(role);
    } else {
      AdminLinkPage(role);
    }
  }

  /** The dashboard link `updateNavigation()` shows for a role opens the dashboard of that
      same role. */
  lemma DashboardLinkOpensOwnPage(role: string)
    requires Auth.DashboardLinkFor(role).Some?
    ensures PageFor("/" + Auth.DashboardLinkFor(role).value.href) == PageOfRole(role)
  {
    assert "/" + Auth.DashboardLinkFor(role).value.href == LinkPath(role);
    LinkPathPage(role);
  }

  /** The guard sequence of a loader: `requireAuth()` then `requireRole(role)`. */
  predicate Admitted(st: Storage, c: Codec, role: string) {
    Auth.IsAuthenticated(Token(st)) && Auth.HasRole(CurrentUser(st, c), role)
  }

  /** Where the guards leave the page: the login page without a token, the index page
      without the role, and where it was otherwise. */
  function GuardLocation(st: Storage, c: Codec, role: string, location: string): (r: string)
    ensures !Auth.IsAuthenticated(Token(st)) ==> r == Auth.LoginPage
    ensures Auth.IsAuthenticated(Token(st)) && !Auth.HasRole(CurrentUser(st, c), role) ==> r == Auth.IndexPage
    ensures Admitted(st, c, role) ==> r == location
  {
    if !Auth.IsAuthenticated(Token(st)) then Auth.LoginPage
    else if !Auth.HasRole(CurrentUser(st, c), role) then Auth.IndexPage
    else location
  }

  /** The storage after the guards: the user is read only once the token check passed. */
  function GuardStorage(st: Storage, c: Codec): (r: Storage)
    ensures !Auth.IsAuthenticated(Token(st)) ==> r == st
    ensures Auth.IsAuthenticated(Token(st)) ==> r == AfterUserRead(st, c)
  {
    if Auth.IsAuthenticated(Token(st)) then AfterUserRead(st, c) else st
  }

  /** A page that is not one of the two redirect targets stays put exactly when the
      guards admit the visitor. */
  lemma StaysIffAdmitted(st: Storage, c: Codec, role: string, location: string)
    requires location != Auth.LoginPage && location != Auth.IndexPage
    ensures GuardLocation(st, c, role, location) == location <==> Admitted(st, c, role)
  {
  }

  /** `isMobileView()`, as the mode the resize handler compares. */
  datatype ViewMode = Mobile | Desktop

  /** `_adminCache`: the four admin lists, each defaulted. */
  datatype AdminData = AdminData(books: Value, authors: Value, orders: Value, earnings: Value)

  /** What a resize re-renders. */
  datatype Render = NoRender | RenderLibrary(orders: seq<Value>) | RenderAuthor(dashboard: Value) | RenderAdmin(lists: AdminData)

  /** The resize handler's choice once the mode changed: the first page name in the path
      whose cache is filled. */
  function ResizeRender(pathname: string, customer: Option<seq<Value>>, author: Option<Value>, admin: Option<AdminData>): (r: Render)
    ensures r.RenderLibrary? ==> customer == Some(r.orders)
    ensures r.RenderAuthor? ==> author == Some(r.dashboard)
    ensures r.RenderAdmin? ==> admin == Some(r.lists)
    ensures customer.None? && author.None? && admin.None? ==> r == NoRender
  {
    var p := Text.ToLower(pathname);
    if Text.Contains(p, "customer-dashboard") && customer.Some? then RenderLibrary(customer.value)
    else if Text.Contains(p, "author-dashboard") && author.Some? then RenderAuthor(author.value)
    else if Text.Contains(p, "admin-dashboard") && admin.Some? then RenderAdmin(admin.value)
    else NoRender
  }

  /** On a dashboard page whose own data is cached, a resize re-renders that data. */
  lemma ResizeRendersOwnPage(pathname: string, customer: Option<seq<Value>>, author: Option<Value>, admin: Option<AdminData>)
    ensures PageFor(pathname) == CustomerPage && customer.Some? ==>
              ResizeRender(pathname, customer, author, admin) == RenderLibrary(customer.value)
    ensures PageFor(pathname) == AuthorPage && author.Some? ==>
              ResizeRender(pathname, customer, author, admin) == RenderAuthor(author.value)
    ensures PageFor(pathname) == AdminPage && admin.Some? ==>
              ResizeRender(pathname, customer, author, admin) == RenderAdmin(admin.value)
    ensures PageFor(pathname) == OtherPage ==> ResizeRender(pathname, customer, author, admin) == NoRender
  {
  }

  /** The module state of dashboard.js. */
  class DashboardPage {
    var lastViewMode: ViewMode
    var customerCache: Option<seq<Value>>
    var authorCache: Option<Value>
    var adminCache: Option<AdminData>

    constructor (mode: ViewMode)
      ensures lastViewMode == mode
      ensures customerCache.None? && authorCache.None? && adminCache.None?
    {
      lastViewMode := mode;
      customerCache := None;
      authorCache := None;
      adminCache := None;
    }

    /** `requireAuth()` and, when it passes, `requireRole(role)`. */
    static method Guard(b: Browser, role: string) returns (admitted: bool)
      modifies b`storage, b`location
      ensures admitted == Admitted(old(b.storage), b.codec, role)
      ensures b.storage == GuardStorage(old(b.storage), b.codec)
      ensures b.location == GuardLocation(old(b.storage), b.codec, role, old(b.location))
    {
      admitted := Auth.RequireAuth(b, Auth.LoginPage);
      if !admitted {
        return;
      }
      admitted := Auth.RequireRole(b, role, Auth.IndexPage);
    }

    /** `loadCustomerDashboard()` with the orders reply as a parameter; `fetched` tells
        whether the orders were requested at all. */
    method LoadCustomerDashboard(b: Browser, reply: Result<Value, string>) returns (fetched: bool)
      modifies this`customerCache, b`storage, b`location
      ensures fetched == Admitted(old(b.storage), b.codec, "customer")
      ensures b.storage == GuardStorage(old(b.storage), b.codec)
      ensures b.location == GuardLocation(old(b.storage), b.codec, "customer", old(b.location))
      ensures fetched && reply.Ok? ==>
                customerCache == Some(if reply.value.JArr? then reply.value.items else [])
      ensures !fetched || reply.Err? ==> customerCache == old(customerCache)
    {
      fetched := Guard(b, "customer");
      if fetched && reply.Ok? {
        customerCache := Some(if reply.value.JArr? then reply.value.items else []);
      }
    }

    /** `loadAuthorDashboard()`: the dashboard object, `{}` when the reply is falsy. */
    method LoadAuthorDashboard(b: Browser, reply: Result<Value, string>) returns (fetched: bool)
      modifies this`authorCache, b`storage, b`location
      ensures fetched == Admitted(old(b.storage), b.codec, "author")
      ensures b.storage == GuardStorage(old(b.storage), b.codec)
      ensures b.location == GuardLocation(old(b.storage), b.codec, "author", old(b.location))
      ensures fetched && reply.Ok? ==> authorCache == Some(Or(reply.value, JObj(map[])))
      ensures !fetched || reply.Err? ==> authorCache == old(authorCache)
    {
      fetched := Guard(b, "author");
      if fetched && reply.Ok? {
        authorCache := Some(Or(reply.value, JObj(map[])));
      }
    }

    /** `loadAdminDashboard()`: the four replies are awaited together, so one failure
        leaves the cache as it was. */
    method LoadAdminDashboard(b: Browser, books: Result<Value, string>, authors: Result<Value, string>,
                              orders: Result<Value, string>, earnings: Result<Value, string>)
      returns (fetched: bool)
      modifies this`adminCache, b`storage, b`location
      ensures fetched == Admitted(old(b.storage), b.codec, "admin")
      ensures b.storage == GuardStorage(old(b.storage), b.codec)
      ensures b.location == GuardLocation(old(b.storage), b.codec, "admin", old(b.location))
      ensures fetched && books.Ok? && authors.Ok? && orders.Ok? && earnings.Ok? ==>
                adminCache == Some(AdminData(Or(books.value, JArr([])), Or(authors.value, JArr([])),
                                             Or(orders.value, JArr([])), Or(earnings.value, JObj(map[]))))
      ensures !fetched || books.Err? || authors.Err? || orders.Err? || earnings.Err? ==> adminCache == old(adminCache)
    {
      fetched := Guard(b, "admin");
      if fetched && books.Ok? && authors.Ok? && orders.Ok? && earnings.Ok? {
        adminCache := Some(AdminData(Or(books.value, JArr([])), Or(authors.value, JArr([])),
                                     Or(orders.value, JArr([])), Or(earnings.value, JObj(map[]))));
      }
    }

    /** The debounced resize handler: nothing happens unless the mode changed; then the
        mode is recorded and the cached data of the page is re-rendered. */
    method OnResize(mode: ViewMode, pathname: string) returns (render: Render)
      modifies this`lastViewMode
      ensures mode == old(lastViewMode) ==> render == NoRender && lastViewMode == old(lastViewMode)
      ensures mode != old(lastViewMode) ==>
                lastViewMode == mode && render == ResizeRender(pathname, customerCache, authorCache, adminCache)
    {
      if mode == lastViewMode {
        return NoRender;
      }
      lastViewMode := mode;
      var p := Text.ToLower(pathname);
      if Text.Contains(p, "customer-dashboard") && customerCache.Some? {
        render := RenderLibrary(customerCache.value);
      } else if Text.Contains(p, "author-dashboard") && authorCache.Some? {
        render := RenderAuthor(authorCache.value);
      } else if Text.Contains(p, "admin-dashboard") && adminCache.Some? {
        render := RenderAdmin(adminCache.value);
      } else {
        render := NoRender;
      }
    }
  }

  /** `order?.paymentStatus === 'completed'` */
  predicate Completed(order: Value) {
    Get(order, "paymentStatus") == JStr("completed")
  }

  /** `!item?.book` fails */
  predicate HasBook(item: Value) {
    Truthy(Get(item, "book"))
  }

  /** `order.items || []` */
  function ItemsOf(order: Value): (items: seq<Value>)
    ensures Get(order, "items").JArr? ==> items == Get(order, "items").items
    ensures !Truthy(Get(order, "items")) ==> items == []
  {
    var v := Or(Get(order, "items"), JArr([]));
    if v.JArr? then v.items else []
  }

  /** `{ ...item.book, purchaseDate: order.createdAt, orderId: order._id }` */
  function Tag(item: Value, order: Value): (r: Value)
    ensures r.JObj? && "purchaseDate" in r.fields && "orderId" in r.fields
    ensures r.fields["purchaseDate"] == Get(order, "createdAt") && r.fields["orderId"] == Get(order, "_id")
    ensures r.fields.Keys == FieldsOf(Get(item, "book")).Keys + {"purchaseDate", "orderId"}
    ensures forall k :: k in FieldsOf(Get(item, "book")) && k != "purchaseDate" && k != "orderId" ==>
              r.fields[k] == FieldsOf(Get(item, "book"))[k]
  {
    JObj(FieldsOf(Get(item, "book"))["purchaseDate" := Get(order, "createdAt")]["orderId" := Get(order, "_id")])
  }

  /** Every item tagged with its order. */
  function Tagged(order: Value, items: seq<Value>): (r: seq<Value>)
    ensures |r| == |items|
    ensures forall k :: 0 <= k < |items| ==> r[k] == Tag(items[k], order)
  {
    seq(|items|, k requires 0 <= k < |items| => Tag(items[k], order))
  }

  /** What one order adds to the library: for a completed order, its items that have a
      book, each tagged, in item order. */
  function Contribution(order: Value): seq<Value> {
    if Completed(order) then Tagged(order, Seqs.Filter(ItemsOf(order), HasBook)) else []
  }

  /** `purchasedBooks`: the contributions of the orders, in order. */
  function Purchased(orders: seq<Value>): seq<Value> {
    Seqs.FlatMap(orders, Contribution)
  }

  /** One more item adds its tagged copy at the end when it has a book. */
  lemma TaggedSnoc(order: Value, items: seq<Value>, j: nat)
    requires j < |items|
    ensures Tagged(order, Seqs.Filter(items[..j + 1], HasBook))
            == Tagged(order, Seqs.Filter(items[..j], HasBook)) + (if HasBook(items[j]) then [Tag(items[j], order)] else [])
  {
    assert items[..j + 1] == items[..j] + [items[j]];
    Seqs.FilterAppend(items[..j], [items[j]], HasBook);
    var f := Seqs.Filter(items[..j], HasBook);
    if HasBook(items[j]) {
      assert Seqs.Filter([items[j]], HasBook) == [items[j]];
      var t := Tagged(order, f + [items[j]]);
      assert t == Tagged(order, f) + [Tag(items[j], order)];
    } else {
      assert Seqs.Filter([items[j]], HasBook) == [];
      assert f + [] == f;
    }
  }

  /** The callback of the outer `forEach` in `displayMyLibrary`: a completed order's items
      that have a book are pushed, tagged, by the inner `forEach`. */
  method PushOrderBooks(order: Value, purchased: seq<Value>) returns (extended: seq<Value>)
    ensures extended == purchased + Contribution(order)
  {
    extended := purchased;
    if Get(order, "paymentStatus") == JStr("completed") {
      var items := ItemsOf(order);
      var j := 0;
      assert Seqs.Filter(items[..0], HasBook) == [];
      while j < |items|
        invariant 0 <= j <= |items|
        invariant extended == purchased + Tagged(order, Seqs.Filter(items[..j], HasBook))
      {
        var item := items[j];
        TaggedSnoc(order, items, j);
        if Truthy(Get(item, "book")) {
          extended := extended + [Tag(item, order)];
        }
        j := j + 1;
      }
      assert items[..j] == items;
    } else {
      assert Contribution(order) == [];
    }
  }

  /** `purchasedBooks` of `displayMyLibrary`, built order by order. */
  method CollectPurchasedBooks(orders: seq<Value>) returns (purchased: seq<Value>)
    ensures purchased == Purchased(orders)
  {
    purchased := [];
    var i := 0;
    while i < |orders|
      invariant 0 <= i <= |orders|
      invariant purchased == Purchased(orders[..i])
    {
      Seqs.FlatMapSnoc(orders, i, Contribution);
      purchased := PushOrderBooks(orders[i], purchased);
      i := i + 1;
    }
    assert orders[..i] == orders;
  }

  /** The library of two runs of orders is the library of the first followed by that of
      the second. */
  lemma PurchasedAppend(a: seq<Value>, b: seq<Value>)
    ensures Purchased(a + b) == Purchased(a) + Purchased(b)
  {
    Seqs.FlatMapAppend(a, b, Contribution);
  }

  /** A tagged list holds exactly the tagged copies of its items. */
  lemma TaggedMembership(order: Value, items: seq<Value>, x: Value)
    ensures x in Tagged(order, items) <==> exists item :: item in items && x == Tag(item, order)
  {
    var t := Tagged(order, items);
    if x in t {
      var k :| 0 <= k < |t| && t[k] == x;
      assert items[k] in items;
    }
    if exists item :: item in items && x == Tag(item, order) {
      var item :| item in items && x == Tag(item, order);
      var k :| 0 <= k < |items| && items[k] == item;
      assert t[k] == x;
    }
  }

  /** A library entry comes from a completed order and one of its items that has a book,
      and every such item gives one. */
  lemma ContributionMembership(order: Value, x: Value)
    ensures x in Contribution(order) <==>
              Completed(order) && exists item :: item in ItemsOf(order) && HasBook(item) && x == Tag(item, order)
  {
    if Completed(order) {
      var items := ItemsOf(order);
      var kept := Seqs.Filter(items, HasBook);
      assert Contribution(order) == Tagged(order, kept);
      TaggedMembership(order, kept, x);
      forall item ensures item in kept <==> item in items && HasBook(item) {
        Seqs.FilterMembership(items, HasBook, item);
      }
    } else {
      assert Contribution(order) == [];
    }
  }

  /** The library holds exactly the tagged items with a book of the completed orders. */
  lemma PurchasedMembership(orders: seq<Value>, x: Value)
    ensures x in Purchased(orders) <==>
              exists i :: 0 <= i < |orders| && Completed(orders[i])
                          && exists item :: item in ItemsOf(orders[i]) && HasBook(item) && x == Tag(item, orders[i])
  {
    Seqs.FlatMapMembership(orders, Contribution, x);
    forall i | 0 <= i < |orders|
      ensures x in Contribution(orders[i]) <==>
                Completed(orders[i]) && exists item :: item in ItemsOf(orders[i]) && HasBook(item) && x == Tag(item, orders[i])
    {
      ContributionMembership(orders[i], x);
    }
  }

  /** An order's displayed status: `(o.paymentStatus || 'pending').toLowerCase()`. A
      truthy status that is not a string has no `toLowerCase` (`None`). */
  function OrderStatus(order: Value): (s: Option<string>)
    ensures !Truthy(Get(order, "paymentStatus")) ==> s == Some("pending")
    ensures Get(order, "paymentStatus").JStr? && Get(order, "paymentStatus").s != "" ==>
              s == Some(Text.ToLower(Get(order, "paymentStatus").s))
  {
    var v := Or(Get(order, "paymentStatus"), JStr("pending"));
    Text.ToLowerOfLowercase("pending");
    if v.JStr? then Some(Text.ToLower(v.s)) else None
  }

  /** The badge class of an order status. */
  function OrderBadge(status: string): (c: string)
    ensures c == "badge-success" <==> status == "completed"
    ensures c == "badge-danger" <==> status == "failed"
    ensures c == "badge-warning" <==> status != "completed" && status != "failed"
  {
    if status == "completed" then "badge-success"
    else if status == "failed" then "badge-danger"
    else "badge-warning"
  }

  /** An order that reaches the library is shown with the success badge. */
  lemma CompletedOrdersShowSuccess(order: Value)
    requires Completed(order)
    ensures OrderStatus(order) == Some("completed") && OrderBadge(OrderStatus(order).value) == "badge-success"
  {
    assert Get(order, "paymentStatus") == JStr("completed");
    Text.ToLowerOfLowercase("completed");
    assert OrderStatus(order) == Some(Text.ToLower("completed"));
  }

  /** "Completed" lower-cases to "completed". */
  lemma CapitalisedCompletedLowers(s: string)
    requires s == "Completed"
    ensures Text.ToLower(s) == "completed"
  {
    assert forall i :: 0 <= i < |s| ==> Text.ToLower(s)[i] == "completed"[i];
  }

  /** The converse does not hold: the badge lower-cases the status but the library
      compares it exactly, so an order marked "Completed" shows as completed while
      contributing no books. */
  lemma CapitalisedCompletedNotInLibrary(order: Value)
    requires Get(order, "paymentStatus") == JStr("Completed")
    ensures OrderStatus(order) == Some("completed")
    ensures Contribution(order) == []
  {
    CapitalisedCompletedLowers("Completed");
    assert "Completed"[0] != "completed"[0];
  }

  /** `String(book.status || '').toLowerCase()` */
  function BookStatus(book: Value): string {
    Text.ToLower(ToText(Or(Get(book, "status"), JStr(""))))
  }

  /** `!!book.isDeleted` */
  predicate IsDeleted(book: Value) {
    Truthy(Get(book, "isDeleted"))
  }

  /** The status label of an author's book. */
  function AuthorBookLabel(book: Value): (l: string)
    ensures IsDeleted(book) ==> l == "Deleted by admin"
    ensures !IsDeleted(book) && BookStatus(book) == "" ==> l == "Unknown"
    ensures !IsDeleted(book) && BookStatus(book) != "" ==>
              |l| == |BookStatus(book)| && l[1..] == BookStatus(book)[1..]
              && l[0] == Text.UpperChar(BookStatus(book)[0])
  {
    var status := BookStatus(book);
    if IsDeleted(book) then "Deleted by admin"
    else if status != "" then [Text.UpperChar(status[0])] + status[1..]
    else "Unknown"
  }

  /** The label of a live book with a status is that status, capitalised: lower-casing it
      gives the status back. */
  lemma AuthorBookLabelLowersToStatus(book: Value)
    requires !IsDeleted(book) && BookStatus(book) != ""
    ensures Text.ToLower(AuthorBookLabel(book)) == BookStatus(book)
  {
    var status := BookStatus(book);
    var shown := AuthorBookLabel(book);
    var raw := ToText(Or(Get(book, "status"), JStr("")));
    Text.ToLowerIdempotent(raw);
    forall i | 0 <= i < |shown|
      ensures Text.ToLower(shown)[i] == status[i]
    {
      if i == 0 {
        assert Text.LowerChar(Text.UpperChar(status[0])) == Text.LowerChar(raw[0]);
      }
    }
  }

  /** The badge class of an author's book. */
  function AuthorBookBadge(book: Value): (c: string)
    ensures c == "badge-success" <==> !IsDeleted(book) && BookStatus(book) == "approved"
    ensures c == "badge-warning" <==> !IsDeleted(book) && BookStatus(book) == "pending"
    ensures c == "badge-danger" <==> IsDeleted(book) || (BookStatus(book) != "approved" && BookStatus(book) != "pending")
  {
    var status := BookStatus(book);
    if IsDeleted(book) then "badge-danger"
    else if status == "approved" then "badge-success"
    else if status == "pending" then "badge-warning"
    else "badge-danger"
  }

  /** `String(b.status || '').toLowerCase() === 'pending'` */
  predicate IsPending(book: Value) {
    BookStatus(book) == "pending"
  }

  /** `pendingBooks` of the admin dashboard: the books (an array, else none) whose
      lower-cased status is "pending". */
  function PendingBooks(books: Value): (r: seq<Value>)
    ensures books.JArr? ==> |r| <= |books.items|
    ensures !books.JArr? ==> r == []
  {
    if books.JArr? then Seqs.Filter(books.items, IsPending) else []
  }

  /** The pending list holds exactly the pending books, in their order, and a pending book
      that is not deleted carries the warning badge on the author's side too. */
  lemma PendingBooksExactly(books: seq<Value>, x: Value)
    ensures x in PendingBooks(JArr(books)) <==> x in books && IsPending(x)
    ensures Seqs.IsSubsequence(PendingBooks(JArr(books)), books)
    ensures x in PendingBooks(JArr(books)) && !IsDeleted(x) ==> AuthorBookBadge(x) == "badge-warning"
  {
    Seqs.FilterMembership(books, IsPending, x);
    Seqs.FilterIsSubsequence(books, IsPending);
  }

  /** The pending count shown is the number of pending books, with repetitions. */
  lemma PendingCount(books: seq<Value>)
    ensures forall x :: multiset(PendingBooks(JArr(books)))[x] == if IsPending(x) then multiset(books)[x] else 0
  {
    forall x ensures multiset(PendingBooks(JArr(books)))[x] == if IsPending(x) then multiset(books)[x] else 0 {
      Seqs.FilterCount(books, IsPending, x);
    }
  }

  /** The monthly report download: the API path and the file name. */
  datatype ReportRequest = ReportRequest(path: string, filename: string)

  /** `downloadAuthorMonthlyReport()` up to the request: both selects must parse to a
      number other than 0. */
  function ReportRequestFor(monthText: string, yearText: string): (r: Option<ReportRequest>)
    ensures r.Some? <==> (Text.ParseInt(monthText).Some? && Text.ParseInt(monthText).value != 0
                          && Text.ParseInt(yearText).Some? && Text.ParseInt(yearText).value != 0)
    ensures r.Some? ==>
              var month := Text.ParseInt(monthText).value;
              var year := Text.ParseInt(yearText).value;
              && r.value.path == "/authors/reports/monthly/" + Text.IntToString(year) + "/" + Text.IntToString(month)
              && r.value.filename == "blueleafbooks-earnings-" + Text.IntToString(year) + "-"
                                     + Text.PadStart2(Text.IntToString(month)) + ".pdf"
  {
    var month := Text.ParseInt(monthText);
    var year := Text.ParseInt(yearText);
    if month.None? || month.value == 0 || year.None? || year.value == 0 then None
    else
      var m := Text.IntToString(month.value);
      var y := Text.IntToString(year.value);
      Some(ReportRequest("/authors/reports/monthly/" + y + "/" + m,
                         "blueleafbooks-earnings-" + y + "-" + Text.PadStart2(m) + ".pdf"))
  }

  /** An option of the month and year selects. */
  datatype SelectOption = SelectOption(value: string, text: string, selected: bool)

  /** The month select: filled with the twelve months only when it is empty; the current
      month is selected. */
  method MonthOptions(existing: seq<SelectOption>, currentMonth: int) returns (options: seq<SelectOption>)
    ensures existing != [] ==> options == existing
    ensures existing == [] ==> |options| == 12
    ensures existing == [] ==> forall k :: 0 <= k < 12 ==>
              && options[k].value == Text.IntToString(k + 1)
              && options[k].text == Text.PadStart2(Text.IntToString(k + 1))
              && (options[k].selected <==> k + 1 == currentMonth)
  {
    if existing != [] {
      return existing;
    }
    options := [];
    var m := 1;
    while m <= 12
      invariant 1 <= m <= 13 && |options| == m - 1
      invariant forall k :: 0 <= k < m - 1 ==>
                  && options[k].value == Text.IntToString(k + 1)
                  && options[k].text == Text.PadStart2(Text.IntToString(k + 1))
                  && (options[k].selected <==> k + 1 == currentMonth)
    {
      options := options + [SelectOption(Text.IntToString(m), Text.PadStart2(Text.IntToString(m)), m == currentMonth)];
      m := m + 1;
    }
  }

  /** The year select: filled with this year and the five before it only when it is
      empty; this year is selected. */
  method YearOptions(existing: seq<SelectOption>, year: int) returns (options: seq<SelectOption>)
    ensures existing != [] ==> options == existing
    ensures existing == [] ==> |options| == 6
    ensures existing == [] ==> forall k :: 0 <= k < 6 ==>
              && options[k].value == Text.IntToString(year - k)
              && options[k].text == options[k].value
              && (options[k].selected <==> k == 0)
  {
    if existing != [] {
      return existing;
    }
    options := [];
    var i := 0;
    while i < 6
      invariant 0 <= i <= 6 && |options| == i
      invariant forall k :: 0 <= k < i ==>
                  && options[k].value == Text.IntToString(year - k)
                  && options[k].text == options[k].value
                  && (options[k].selected <==> k == 0)
    {
      options := options + [SelectOption(Text.IntToString(year - i), Text.IntToString(year - i), i == 0)];
      i := i + 1;
    }
  }

  /** Every month offered, with any year other than 0, makes a request for that month and
      year, and the month in the file name reads back as the month. */
  lemma OfferedMonthsRequestReports(m: int, year: int)
    requires 1 <= m <= 12 && year != 0
    ensures var r := ReportRequestFor(Text.IntToString(m), Text.IntToString(year));
            && r.Some?
            && r.value.path == "/authors/reports/monthly/" + Text.IntToString(year) + "/" + Text.IntToString(m)
            && |r.value.filename| == |"blueleafbooks-earnings-" + Text.IntToString(year) + "-"| + 6
            && Text.ParseInt(r.value.filename[|"blueleafbooks-earnings-" + Text.IntToString(year) + "-"|..][..2]) == Some(m)
  {
    Text.ParseIntOfIntToString(m);
    Text.ParseIntOfIntToString(year);
    Text.PaddedMonthParses(m);
    var prefix := "blueleafbooks-earnings-" + Text.IntToString(year) + "-";
    var padded := Text.PadStart2(Text.IntToString(m));
    var name := prefix + padded + ".pdf";
    assert name[|prefix|..][..2] == padded;
  }

  /** No character of `s` is white space (`\s`). */
  predicate NoSpace(s: string) {
    forall k :: 0 <= k < |s| ==> !Text.IsSpace(s[k])
  }

  /** A run of characters none of which is white space or "@": `[^\s@]+` without the
      length condition. */
  predicate Plain(x: string) {
    NoSpace(x) && '@' !in x
  }

  /** The shape `^[^\s@]+@[^\s@]+\.[^\s@]+$` describes. */
  ghost predicate EmailShape(s: string) {
    exists a: string, b: string, c: string ::
      && s == a + "@" + b + "." + c
      && a != "" && b != "" && c != ""
      && Plain(a) && Plain(b) && Plain(c)
  }

  /** The payout email test, computed: no white space, exactly one "@" with something
      before it, and after it a "." with at least one character on each side. */
  predicate ValidEmail(s: string) {
    && NoSpace(s)
    && match Text.IndexOf(s, '@')
       case None => false
       case Some(i) => i > 0 && '@' !in s[i + 1..] && exists j :: i + 2 <= j <= |s| - 2 && s[j] == '.'
  }

  /** A text without white space has none in any slice. */
  lemma NoSpaceSlice(s: string, lo: nat, hi: nat)
    requires lo <= hi <= |s| && NoSpace(s)
    ensures NoSpace(s[lo..hi])
  {
    forall k | 0 <= k < hi - lo
      ensures !Text.IsSpace(s[lo..hi][k])
    {
      assert s[lo..hi][k] == s[lo + k];
    }
  }

  /** Joining texts without white space by a character that is not white space. */
  lemma NoSpaceJoin(x: string, ch: char, y: string)
    requires NoSpace(x) && NoSpace(y) && !Text.IsSpace(ch)
    ensures NoSpace(x + [ch] + y)
  {
    var s := x + [ch] + y;
    forall k | 0 <= k < |s|
      ensures !Text.IsSpace(s[k])
    {
      if k > |x| {
        assert s[k] == y[k - |x| - 1];
      }
    }
  }

  /** A slice of `t` that lies within `t[lo..]` has no "@" when `t[lo..]` has none. */
  lemma NoAtInSlice(t: string, lo: nat, m: nat, hi: nat)
    requires lo <= m <= hi <= |t| && '@' !in t[lo..]
    ensures '@' !in t[m..hi]
  {
    forall k | 0 <= k < hi - m
      ensures t[m..hi][k] != '@'
    {
      assert t[m..hi][k] == t[lo..][k + m - lo];
    }
  }

  /** Every text the computed test accepts has the pattern's shape. */
  lemma ValidEmailHasShape(s: string)
    requires ValidEmail(s)
    ensures EmailShape(s)
  {
    var i := Text.IndexOf(s, '@').value;
    var j :| i + 2 <= j <= |s| - 2 && s[j] == '.';
    var a, b, c := s[..i], s[i + 1..j], s[j + 1..];
    assert s == a + "@" + b + "." + c;
    NoSpaceSlice(s, 0, i);
    NoSpaceSlice(s, i + 1, j);
    NoSpaceSlice(s, j + 1, |s|);
    NoAtInSlice(s, i + 1, i + 1, j);
    NoAtInSlice(s, i + 1, j + 1, |s|);
    assert s[j + 1..|s|] == c;
    assert Plain(a) && Plain(b) && Plain(c);
  }

  /** Every text of the pattern's shape passes the computed test. */
  lemma ShapeIsValidEmail(a: string, b: string, c: string)
    requires a != "" && b != "" && c != ""
    requires Plain(a) && Plain(b) && Plain(c)
    ensures ValidEmail(a + "@" + b + "." + c)
  {
    var s := a + "@" + b + "." + c;
    var rest := b + "." + c;
    assert s == a + ['@'] + rest;
    Text.IndexOfAfter(a, '@', rest);
    assert s[|a| + 1..] == rest;
    NoSpaceJoin(b, '.', c);
    NoSpaceJoin(a, '@', rest);
    var j := |a| + 1 + |b|;
    assert s[j] == '.';
  }

  /** The computed test accepts exactly the strings of the pattern's shape. */
  lemma ValidEmailIffShape(s: string)
    ensures ValidEmail(s) <==> EmailShape(s)
  {
    if ValidEmail(s) {
      ValidEmailHasShape(s);
    }
    if EmailShape(s) {
      var a: string, b: string, c: string :|
        && s == a + "@" + b + "." + c
        && a != "" && b != "" && c != ""
        && Plain(a) && Plain(b) && Plain(c);
      ShapeIsValidEmail(a, b, c);
    }
  }

  /** What `savePayoutSettings()` does with the input. */
  datatype PayoutDecision = InvalidEmail | SavePayout(email: string)

  /** The trimmed input is saved when it is empty or has the shape of an email;
      otherwise no update is sent. */
  function PayoutDecisionFor(input: string): (r: PayoutDecision)
    ensures r == InvalidEmail <==> Text.Trim(input) != "" && !ValidEmail(Text.Trim(input))
    ensures r.SavePayout? ==> r.email == Text.Trim(input)
  {
    var email := Text.Trim(input);
    if email != "" && !ValidEmail(email) then InvalidEmail else SavePayout(email)
  }

  /** A saved payout email is empty or has the pattern's shape, and never has white
      space at either end. */
  lemma SavedPayoutEmailShape(input: string)
    requires PayoutDecisionFor(input).SavePayout?
    ensures var e := PayoutDecisionFor(input).email;
            (e == "" || EmailShape(e)) && (e == [] || (!Text.IsSpace(e[0]) && !Text.IsSpace(e[|e| - 1])))
  {
    ValidEmailIffShape(Text.Trim(input));
  }

  /** `Math.max(0, parseInt(value || '0', 10) || 0)` */
  function FeaturedOrder(value: string): (n: nat)
    ensures Text.ParseInt(if value == "" then "0" else value).None? ==> n == 0
    ensures Text.ParseInt(if value == "" then "0" else value).Some? ==>
              n == if Text.ParseInt(if value == "" then "0" else value).value > 0
                   then Text.ParseInt(if value == "" then "0" else value).value else 0
  {
    var parsed := Text.ParseInt(if value == "" then "0" else value);
    if parsed.None? || parsed.value <= 0 then 0 else parsed.value
  }

  /** Writing a featured order back into the field and reading it again gives the same
      order, and any natural number typed in is taken as it is. */
  lemma FeaturedOrderRoundTrip(value: string, n: nat)
    ensures FeaturedOrder(Text.NatToString(n)) == n
    ensures FeaturedOrder(Text.NatToString(FeaturedOrder(value))) == FeaturedOrder(value)
  {
    Text.ParseIntOfIntToString(n);
    assert Text.IntToString(n) == Text.NatToString(n);
    Text.ParseIntOfIntToString(FeaturedOrder(value));
    assert Text.IntToString(FeaturedOrder(value)) == Text.NatToString(FeaturedOrder(value));
  }

  /** The PATCH `updateFeatured(bookId)` sends. */
  datatype FeaturedRequest = FeaturedRequest(url: string, authorization: string, isFeatured: bool, featuredOrder: nat)

  const LoginAgainMessage := "Please login again."
  const FeaturedFailedMessage := "Failed to update featured settings"
  const FeaturedErrorMessage := "Error updating featured settings"

  /** The alert for the PATCH reply: none when it is OK. Otherwise `res.json()` is read,
      with a rejection (an empty body or one that is not JSON) caught as `{}`; a body that
      is JSON `null` makes `data.message` throw, and the outer `catch` shows its fixed
      error text; any other body gives its truthy `message`, else the fixed failure text. */
  function FeaturedReplyAlert(res: Api.Response, c: Codec): (alert: Option<string>)
    ensures alert.None? <==> Api.IsOk(res)
    ensures !Api.IsOk(res) && (res.body == "" || c.parse(res.body).None?) ==>
              alert == Some(FeaturedFailedMessage)
    ensures !Api.IsOk(res) && res.body != "" && c.parse(res.body) == Some(JNull) ==>
              alert == Some(FeaturedErrorMessage)
    ensures !Api.IsOk(res) && res.body != "" && c.parse(res.body).Some? && c.parse(res.body).value != JNull &&
            Truthy(Get(c.parse(res.body).value, "message")) ==>
              alert == Some(ToText(Get(c.parse(res.body).value, "message")))
    ensures !Api.IsOk(res) && res.body != "" && c.parse(res.body).Some? && c.parse(res.body).value != JNull &&
            !Truthy(Get(c.parse(res.body).value, "message")) ==>
              alert == Some(FeaturedFailedMessage)
  {
    var data := if res.body == "" then JObj(map[])
                else match c.parse(res.body) case Some(v) => v case None => JObj(map[]);
    if Api.IsOk(res) then None
    else if data == JNull then Some(FeaturedErrorMessage)
    else Some(ToText(Or(Get(data, "message"), JStr(FeaturedFailedMessage))))
  }

  /** `updateFeatured(bookId)`: without a token it only alerts; otherwise it sends the
      PATCH and alerts when `fetch` fails (`reply` is `None`) or the reply is not OK. */
  method UpdateFeatured(b: Browser, bookId: string, checked: bool, orderText: string, reply: Option<Api.Response>)
    returns (request: Option<FeaturedRequest>)
    modifies b`alerts
    ensures !Auth.IsAuthenticated(Token(b.storage)) ==> request.None? && b.alerts == old(b.alerts) + [LoginAgainMessage]
    ensures Auth.IsAuthenticated(Token(b.storage)) ==>
              request == Some(FeaturedRequest(Api.ApiBaseUrl + "/admin/books/" + bookId + "/featured",
                                              "Bearer " + Token(b.storage).value, checked, FeaturedOrder(orderText)))
    ensures Auth.IsAuthenticated(Token(b.storage)) && reply.None? ==> b.alerts == old(b.alerts) + [FeaturedErrorMessage]
    ensures Auth.IsAuthenticated(Token(b.storage)) && reply.Some? ==>
              b.alerts == old(b.alerts) + match FeaturedReplyAlert(reply.value, b.codec) case None => [] case Some(m) => [m]
  {
    var token := b.GetAuthToken();
    if token.None? || token.value == "" {
      b.Alert(LoginAgainMessage);
      return None;
    }
    request := Some(FeaturedRequest(Api.ApiBaseUrl + "/admin/books/" + bookId + "/featured",
                                    "Bearer " + token.value, checked, FeaturedOrder(orderText)));
    match reply {
      case None =>
        b.Alert(FeaturedErrorMessage);
      case Some(res) =>
        var alert := FeaturedReplyAlert(res, b.codec);
        if alert.Some? {
          b.Alert(alert.value);
        }
    }
  }
}
