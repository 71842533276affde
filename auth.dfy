/**
  * js/auth.js: session predicates over the stored token and user, the guards that
  * redirect, logout, and the navigation links chosen by role.
  */
module Auth {
  import opened Wrappers
  import opened Json
  import opened Session

  const LoginPage := "login.html"
  const IndexPage := "index.html"

  /** `isAuthenticated()`: a token is stored and it is not empty. */
  predicate IsAuthenticated(token: Option<string>) {
    token.Some? && token.value != ""
  }

  /** `hasRole(role)`: there is a current user and its `role` is exactly `role`. */
  predicate HasRole(user: Value, role: string) {
    Truthy(user) && Get(user, "role") == JStr(role)
  }

  /** `isAuthenticated()` as the browser evaluates it. */
  method CheckAuthenticated(b: Browser) returns (ok: bool)
    ensures ok <==> Token(b.storage).Some? && Token(b.storage).value != ""
  {
    var token := b.GetAuthToken();
    ok := token.Some? && token.value != "";
  }

  /** `requireAuth(redirectTo)`: true and no navigation when authenticated; otherwise
      navigate to `redirectTo` and return false. */
  method RequireAuth(b: Browser, redirectTo: string) returns (ok: bool)
    modifies b`location
    ensures ok == IsAuthenticated(Token(b.storage))
    ensures b.location == if ok then old(b.location) else redirectTo
  {
    ok := CheckAuthenticated(b);
    if !ok {
      b.Navigate(redirectTo);
    }
  }

  /** `requireRole(role, redirectTo)`: true and no navigation when the current user has
      the role; otherwise navigate to `redirectTo` and return false. Reading the user
      removes an unparsable `user` entry. */
  method RequireRole(b: Browser, role: string, redirectTo: string) returns (ok: bool)
    modifies b`storage, b`location
    ensures ok == HasRole(CurrentUser(old(b.storage), b.codec), role)
    ensures b.storage == AfterUserRead(old(b.storage), b.codec)
    ensures b.location == if ok then old(b.location) else redirectTo
  {
    var user := b.GetCurrentUser();
    ok := Truthy(user) && Get(user, "role") == JStr(role);
    if !ok {
      b.Navigate(redirectTo);
    }
  }

  /** `logout()`: token and user removed, back to the index page. */
  method Logout(b: Browser)
    modifies b`storage, b`location
    ensures b.storage == old(b.storage) - {TokenKey, UserKey}
    ensures !IsAuthenticated(Token(b.storage)) && CurrentUser(b.storage, b.codec) == JNull
    ensures b.location == IndexPage
  {
    b.RemoveAuthToken();
    b.RemoveCurrentUser();
    b.Navigate(IndexPage);
  }

  /** An entry of the navigation bar's authentication part. */
  datatype NavItem = Greeting(name: Value) | Link(href: string, text: string) | LogoutLink

  /** The dashboard a role is sent to, with its link label. */
  function DashboardLinkFor(role: string): (r: Option<NavItem>)
    ensures r.Some? <==> role in {"customer", "author", "admin"}
    ensures r.Some? ==> r.value.Link? && r.value.href == role + "-dashboard.html"
  {
    var href := role + "-dashboard.html";
    if role == "customer" then Some(Link(href, "My Library"))
    else if role == "author" then Some(Link(href, "Author Dashboard"))
    else if role == "admin" then Some(Link(href, "Admin Dashboard"))
    else None
  }

  /** The links `updateNavigation()` adds: for a current user a greeting, the dashboard
      of its role (if it has one of the three roles) and a logout link; otherwise a login
      and a register link. */
  function NavItems(user: Value): (items: seq<NavItem>)
    ensures !Truthy(user) ==> items == [Link("login.html", "Login"), Link("register.html", "Register")]
    ensures Truthy(user) ==> 2 <= |items| <= 3 && items[0] == Greeting(Get(user, "name"))
                             && items[|items| - 1] == LogoutLink
    ensures Truthy(user) ==>
              (|items| == 3 <==> HasRole(user, "customer") || HasRole(user, "author") || HasRole(user, "admin"))
    ensures forall role :: HasRole(user, role) && DashboardLinkFor(role).Some? ==> DashboardLinkFor(role).value in items
  {
    if !Truthy(user) then [Link("login.html", "Login"), Link("register.html", "Register")]
    else
      var role := Get(user, "role");
      var dashboard := if role.JStr? then DashboardLinkFor(role.s) else None;
      [Greeting(Get(user, "name"))] + (if dashboard.Some? then [dashboard.value] else []) + [LogoutLink]
  }
}
