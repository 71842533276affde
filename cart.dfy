/**
  * js/cart.js: the cart page. Loading the cart asks the server which of the stored ids
  * are still books, and drops the others from storage; removing an id, the total, and
  * the checkout button.
  */
module Cart {
  import opened Wrappers
  import opened Json
  import opened Session
  import Text
  import Seqs
  import Api
  import Auth
  import Books

  /** cart.js's `fileUrl(path)`: "" stays "", an absolute http(s) URL is kept, anything
      else is put under `FILE_BASE_URL` with its leading slashes removed. */
  function FileUrl(path: string): (r: string)
    ensures path == "" ==> r == ""
    ensures path != "" && Text.IsHttpUrl(path) ==> r == path
    ensures path != "" && !Text.IsHttpUrl(path) ==>
              r == Api.FileBaseUrl() + "/" + Text.StripLeadingSlashes(path)
  {
    if path == "" then ""
    else if Text.IsHttpUrl(path) then path
    else Api.FileBaseUrl() + "/" + Text.StripLeadingSlashes(path)
  }

  /** A URL `FileUrl` built is kept as it is by a second `FileUrl`. */
  lemma FileUrlIdempotent(path: string)
    ensures FileUrl(FileUrl(path)) == FileUrl(path)
  {
    var r := FileUrl(path);
    if path != "" && !Text.IsHttpUrl(path) {
      Api.FileBaseUrlIsHttps();
      Text.StartsWithAppend(Api.FileBaseUrl(), "/" + Text.StripLeadingSlashes(path), "https://");
      assert r == Api.FileBaseUrl() + ("/" + Text.StripLeadingSlashes(path));
      Text.HttpsPrefixIsHttpUrl(r);
    }
  }

  /** On a path without surrounding white space, `safeFileUrl`'s fallback computes the
      same URL as `fileUrl` when it is given the same base. */
  lemma FileUrlMatchesFallback(path: string)
    requires Text.Trim(path) == path
    ensures FileUrl(path) == Books.FallbackFileUrl(path, Api.FileBaseUrl())
  {
    var base := Api.FileBaseUrl();
    Api.FileBaseUrlIsApiHost();
    assert |base| >= |"https://"|;
    assert Text.StripTrailingSlash(base) == base;
    if path != "" && !Text.IsHttpUrl(path) {
      assert Books.FallbackFileUrl(path, base) == base + "/" + Text.StripLeadingSlashes(path);
    }
  }

  /** What the validation request gave back: no usable reply (the request failed or the
      body was not JSON), or the parsed body. */
  datatype ValidateReply = FetchFailed | Body(value: Value)

  /** How a load of the cart page ended. */
  datatype LoadOutcome =
    | CartUnreadable        // `JSON.parse` of the stored cart threw; nothing changed
    | EmptyCart             // nothing stored: no request made
    | LoadError             // the error message is shown
    | ClearedStale          // the server knew none of the ids: the cart was emptied
    | Shown(books: seq<Value>)

  /** `books.map(b => b._id)` */
  function ReturnedIds(books: seq<Value>): (ids: seq<Value>)
    ensures |ids| == |books|
    ensures forall i :: 0 <= i < |books| ==> ids[i] == Get(books[i], "_id")
  {
    seq(|books|, i requires 0 <= i < |books| => Get(books[i], "_id"))
  }

  /** `id => returnedIds.includes(id)` */
  function Available(books: seq<Value>): string -> bool {
    id => JStr(id) in ReturnedIds(books)
  }

  /** `id => !returnedIds.includes(id)` */
  function Unavailable(books: seq<Value>): string -> bool {
    id => JStr(id) !in ReturnedIds(books)
  }

  /** The effect of one load of a readable cart: the outcome, the new `currentCartBooks`
      (`None`: left as it was), the cart written back (`None`: nothing written), and
      whether the "no longer available" alert is raised. */
  datatype Reconciled = Reconciled(outcome: LoadOutcome, books: Option<seq<Value>>, write: Option<seq<string>>, alert: bool)

  const RemovedMessage := "This book is no longer available and was removed from your cart."

  /** `loadCart()` after the stored cart has been read. The reply is used only when the
      cart is not empty. A `null` element of the reply makes `b._id` throw after
      `currentCartBooks` has been set. */
  function Reconcile(cart: seq<string>, reply: ValidateReply): (r: Reconciled)
    ensures r.outcome == EmptyCart <==> cart == []
    ensures cart == [] ==> r.books == Some([]) && r.write.None? && !r.alert
    ensures r.outcome.LoadError? ==> r.write.None? && !r.alert
    ensures r.outcome == ClearedStale <==> cart != [] && reply == Body(JArr([]))
    ensures r.outcome == ClearedStale ==> r.write == Some([]) && r.books == Some([]) && !r.alert
    ensures r.outcome.Shown? ==> reply == Body(JArr(r.outcome.books)) && r.outcome.books != []
                                 && r.books == Some(r.outcome.books)
    ensures r.alert ==> r.outcome.Shown? && r.write.Some?
    ensures cart != [] && (reply.FetchFailed? || !reply.value.JArr?) ==> r.outcome == LoadError && r.books.None?
  {
    if cart == [] then Reconciled(EmptyCart, Some([]), None, false)
    else if reply.FetchFailed? || !reply.value.JArr? then Reconciled(LoadError, None, None, false)
    else
      var books := reply.value.items;
      if books == [] then Reconciled(ClearedStale, Some([]), Some([]), false)
      else if JNull in books then Reconciled(LoadError, Some(books), None, false)
      else
        var removed := Seqs.Filter(cart, Unavailable(books)) != [];
        Reconciled(Shown(books), Some(books), if removed then Some(Seqs.Filter(cart, Available(books))) else None, removed)
  }

  /** A cart written back after a shown reply holds exactly the stored ids the server
      returned, each as often as before and in the same order. */
  lemma ReconcileKeepsReturnedIds(cart: seq<string>, reply: ValidateReply)
    requires Reconcile(cart, reply).outcome.Shown? && Reconcile(cart, reply).write.Some?
    ensures var books := Reconcile(cart, reply).outcome.books;
            var w := Reconcile(cart, reply).write.value;
            && Seqs.IsSubsequence(w, cart)
            && (forall id :: multiset(w)[id] == if JStr(id) in ReturnedIds(books) then multiset(cart)[id] else 0)
            && (Seqs.NoDuplicates(cart) ==> Seqs.NoDuplicates(w))
  {
    var books := Reconcile(cart, reply).outcome.books;
    var w := Reconcile(cart, reply).write.value;
    assert w == Seqs.Filter(cart, Available(books));
    Seqs.FilterIsSubsequence(cart, Available(books));
    forall id ensures multiset(w)[id] == if JStr(id) in ReturnedIds(books) then multiset(cart)[id] else 0 {
      Seqs.FilterCount(cart, Available(books), id);
    }
    if Seqs.NoDuplicates(cart) {
      Seqs.FilterNoDuplicates(cart, Available(books));
    }
  }

  /** On a non-empty reply without `null` elements the cart is written back, and the alert
      raised, exactly when some stored id was not returned; what is written then differs
      from what was stored. */
  lemma ReconcileWritesIffSomeUnavailable(cart: seq<string>, books: seq<Value>)
    requires cart != [] && books != [] && JNull !in books
    ensures var r := Reconcile(cart, Body(JArr(books)));
            && r.outcome == Shown(books)
            && (r.write.Some? <==> exists i :: 0 <= i < |cart| && JStr(cart[i]) !in ReturnedIds(books))
            && (r.alert <==> r.write.Some?)
            && (r.write.Some? ==> r.write.value != cart)
  {
    var r := Reconcile(cart, Body(JArr(books)));
    var removed := Seqs.Filter(cart, Unavailable(books));
    if exists i :: 0 <= i < |cart| && JStr(cart[i]) !in ReturnedIds(books) {
      var i :| 0 <= i < |cart| && JStr(cart[i]) !in ReturnedIds(books);
      Seqs.FilterMembership(cart, Unavailable(books), cart[i]);
      assert removed != [];
      Seqs.FilterUnchangedIff(cart, Available(books));
      assert !Available(books)(cart[i]);
    } else {
      if removed != [] {
        Seqs.FilterMembership(cart, Unavailable(books), removed[0]);
      }
    }
  }

  /** Loading again with the same reply after a clean-up writes nothing more. */
  lemma ReconcileStable(cart: seq<string>, reply: ValidateReply)
    requires Reconcile(cart, reply).write.Some?
    ensures Reconcile(Reconcile(cart, reply).write.value, reply).write.None?
  {
    var r := Reconcile(cart, reply);
    var w := r.write.value;
    if r.outcome.Shown? && w != [] {
      var books := r.outcome.books;
      assert w == Seqs.Filter(cart, Available(books));
      if Seqs.Filter(w, Unavailable(books)) != [] {
        var x := Seqs.Filter(w, Unavailable(books))[0];
        Seqs.FilterMembership(w, Unavailable(books), x);
        Seqs.FilterMembership(cart, Available(books), x);
        assert false;
      }
    }
  }

  /** `cart.filter(id => id !== bookId)` */
  function Without(cart: seq<string>, id: string): (r: seq<string>)
    ensures |r| <= |cart|
  {
    Seqs.Filter(cart, x => x != id)
  }

  /** Removing an id takes away every copy of it and nothing else, in order. */
  lemma WithoutContents(cart: seq<string>, id: string)
    ensures id !in Without(cart, id)
    ensures forall x :: x != id ==> multiset(Without(cart, id))[x] == multiset(cart)[x]
    ensures Seqs.IsSubsequence(Without(cart, id), cart)
    ensures Seqs.NoDuplicates(cart) ==> Seqs.NoDuplicates(Without(cart, id))
  {
    Seqs.FilterMembership(cart, x => x != id, id);
    forall x | x != id ensures multiset(Without(cart, id))[x] == multiset(cart)[x] {
      Seqs.FilterCount(cart, x => x != id, x);
    }
    Seqs.FilterIsSubsequence(cart, x => x != id);
    if Seqs.NoDuplicates(cart) {
      Seqs.FilterNoDuplicates(cart, x => x != id);
    }
  }

  /** Adding an id on the book page and then removing it on the cart page leaves the cart
      as removing alone would. */
  lemma RemoveUndoesInsert(cart: seq<string>, id: string)
    ensures Without(Books.Insert(cart, id), id) == Without(cart, id)
  {
    if id !in cart {
      Seqs.FilterAppend(cart, [id], x => x != id);
      assert Seqs.Filter([id], x => x != id) == [];
    }
  }

  /** Removing a stored id and adding it back gives a cart with the same ids (the id
      moves to the end). */
  lemma InsertRestoresRemoved(cart: seq<string>, id: string)
    requires id in cart && Seqs.NoDuplicates(cart)
    ensures multiset(Books.Insert(Without(cart, id), id)) == multiset(cart)
  {
    WithoutContents(cart, id);
    Seqs.DistinctCountAtMostOne(cart, id);
    var r := Books.Insert(Without(cart, id), id);
    assert r == Without(cart, id) + [id];
    forall x ensures multiset(r)[x] == multiset(cart)[x] {
      assert multiset(r) == multiset(Without(cart, id)) + multiset{id};
      if x == id {
        assert multiset(Without(cart, id))[id] == 0;
      }
    }
  }

  /** `Number(book.price || 0)`; `None` is NaN. */
  function PriceOf(book: Value): (p: Option<int>)
    ensures !Truthy(Get(book, "price")) ==> p == Some(0)
    ensures Get(book, "price").JNum? ==> p == Some(Get(book, "price").n)
  {
    NumberOf(Or(Get(book, "price"), JNum(0)))
  }

  /** `books.reduce((sum, book) => sum + Number(book.price || 0), 0)`; a single NaN price
      makes the total NaN (`None`). */
  function Total(books: seq<Value>): (t: Option<int>)
    ensures t.None? <==> exists i :: 0 <= i < |books| && PriceOf(books[i]).None?
    ensures (forall i :: 0 <= i < |books| ==> PriceOf(books[i]).Some? && PriceOf(books[i]).value >= 0) ==>
              t.Some? && t.value >= 0
    ensures books == [] ==> t == Some(0)
    ensures |books| == 1 ==> t == PriceOf(books[0])
  {
    SumNaN(Prices(books));
    Sum(Prices(books))
  }

  /** The price of each book, in order. */
  function Prices(books: seq<Value>): (ps: seq<Option<int>>)
    ensures |ps| == |books| && forall i :: 0 <= i < |books| ==> ps[i] == PriceOf(books[i])
  {
    seq(|books|, i requires 0 <= i < |books| => PriceOf(books[i]))
  }

  /** The sum of a list of prices, NaN as soon as one of them is. */
  function Sum(ps: seq<Option<int>>): (t: Option<int>)
    ensures |ps| == 1 ==> t == ps[0]
  {
    if ps == [] then Some(0)
    else
      var rest := Sum(ps[1..]);
      if ps[0].None? || rest.None? then None else Some(ps[0].value + rest.value)
  }

  /** A sum is NaN exactly when one of its prices is, and never negative when no price is. */
  lemma {:induction false} SumNaN(ps: seq<Option<int>>)
    ensures Sum(ps).None? <==> exists i :: 0 <= i < |ps| && ps[i].None?
    ensures (forall i :: 0 <= i < |ps| ==> ps[i].Some? && ps[i].value >= 0) ==> Sum(ps).Some? && Sum(ps).value >= 0
  {
    if ps != [] {
      SumNaN(ps[1..]);
      assert forall i :: 1 <= i < |ps| ==> ps[i] == ps[1..][i - 1];
    }
  }

  /** The sum of two lists of prices is the sum of their sums. */
  lemma {:induction false} SumAppend(p: seq<Option<int>>, q: seq<Option<int>>)
    ensures Sum(p + q) == if Sum(p).Some? && Sum(q).Some? then Some(Sum(p).value + Sum(q).value) else None
  {
    if p == [] {
      assert p + q == q;
    } else {
      assert (p + q)[1..] == p[1..] + q;
      SumAppend(p[1..], q);
    }
  }

  lemma PricesAppend(a: seq<Value>, b: seq<Value>)
    ensures Prices(a + b) == Prices(a) + Prices(b)
  {
  }

  /** The total of two lists of books is the sum of their totals. */
  lemma TotalAppend(a: seq<Value>, b: seq<Value>)
    ensures Total(a + b) == if Total(a).Some? && Total(b).Some? then Some(Total(a).value + Total(b).value) else None
  {
    PricesAppend(a, b);
    SumAppend(Prices(a), Prices(b));
  }

  /** How `proceedToCheckout()` ended. */
  datatype CheckoutOutcome = CheckoutUnreadable | CartIsEmpty | LoginFirst | ToCheckout

  const EmptyCartMessage := "Your cart is empty!"
  const LoginMessage := "Please login to checkout"

  /** `proceedToCheckout()`: an empty cart only alerts; a visitor is told to log in and
      sent to the login page; anyone else goes to checkout. */
  method ProceedToCheckout(b: Browser) returns (outcome: CheckoutOutcome)
    modifies b`alerts, b`location
    ensures ReadCart(b.storage, b.codec).None? ==>
              outcome == CheckoutUnreadable && b.alerts == old(b.alerts) && b.location == old(b.location)
    ensures ReadCart(b.storage, b.codec) == Some([]) ==>
              outcome == CartIsEmpty && b.alerts == old(b.alerts) + [EmptyCartMessage] && b.location == old(b.location)
    ensures ReadCart(b.storage, b.codec).Some? && ReadCart(b.storage, b.codec).value != [] ==>
              if Auth.IsAuthenticated(Token(b.storage)) then
                outcome == ToCheckout && b.alerts == old(b.alerts) && b.location == Books.CheckoutPage
              else
                outcome == LoginFirst && b.alerts == old(b.alerts) + [LoginMessage] && b.location == Auth.LoginPage
  {
    var cart := b.LoadCartIds();
    if cart.None? {
      return CheckoutUnreadable;
    }
    if cart.value == [] {
      b.Alert(EmptyCartMessage);
      return CartIsEmpty;
    }
    var ok := Auth.CheckAuthenticated(b);
    if !ok {
      b.Alert(LoginMessage);
      b.Navigate(Auth.LoginPage);
      return LoginFirst;
    }
    b.Navigate(Books.CheckoutPage);
    outcome := ToCheckout;
  }

  /** The page-level state of cart.js. */
  class CartPage {
    var currentCartBooks: seq<Value>

    constructor ()
      ensures currentCartBooks == []
    {
      currentCartBooks := [];
    }

    /** `loadCart()` with the server's reply to the validation request as a parameter.
        `sent` is the id list posted to `/cart/validate`, when a request is made. */
    method LoadCart(b: Browser, reply: ValidateReply) returns (outcome: LoadOutcome, sent: Option<seq<string>>)
      modifies this, b`storage, b`alerts
      ensures ReadCart(old(b.storage), b.codec).None? ==>
                && outcome == CartUnreadable && sent.None? && currentCartBooks == old(currentCartBooks)
                && b.storage == old(b.storage) && b.alerts == old(b.alerts)
      ensures ReadCart(old(b.storage), b.codec).Some? ==>
                var cart := ReadCart(old(b.storage), b.codec).value;
                var r := Reconcile(cart, reply);
                && outcome == r.outcome
                && sent == (if cart == [] then None else Some(cart))
                && currentCartBooks == (if r.books.Some? then r.books.value else old(currentCartBooks))
                && b.storage == (if r.write.Some? then WriteCart(old(b.storage), b.codec, r.write.value) else old(b.storage))
                && b.alerts == old(b.alerts) + (if r.alert then [RemovedMessage] else [])
    {
      var stored := b.LoadCartIds();
      if stored.None? {
        return CartUnreadable, None;
      }
      var cart := stored.value;
      if cart == [] {
        currentCartBooks := [];
        return EmptyCart, None;
      }
      sent := Some(cart);
      if reply.FetchFailed? || !reply.value.JArr? {
        return LoadError, sent;
      }
      var books := reply.value.items;
      if books == [] {
        b.StoreCartIds([]);
        currentCartBooks := [];
        return ClearedStale, sent;
      }
      currentCartBooks := books;
      if JNull in books {
        return LoadError, sent;
      }
      var removedIds := Seqs.Filter(cart, Unavailable(books));
      if removedIds != [] {
        b.StoreCartIds(Seqs.Filter(cart, Available(books)));
        b.Alert(RemovedMessage);
      }
      outcome := Shown(books);
    }
  }

  /** `removeFromCart(bookId)` up to the reload it starts: the id is filtered out of the
      stored cart. */
  method RemoveFromCart(b: Browser, id: string) returns (readable: bool)
    modifies b`storage
    ensures readable == ReadCart(old(b.storage), b.codec).Some?
    ensures !readable ==> b.storage == old(b.storage)
    ensures readable ==> b.storage == WriteCart(old(b.storage), b.codec, Without(ReadCart(old(b.storage), b.codec).value, id))
    ensures readable && Sound(b.codec) ==> ReadCart(b.storage, b.codec).Some? && id !in ReadCart(b.storage, b.codec).value
  {
    var cart := b.LoadCartIds();
    readable := cart.Some?;
    if readable {
      b.StoreCartIds(Seqs.Filter(cart.value, x => x != id));
      WithoutContents(cart.value, id);
    }
  }
}
