/**
  * js/books.js: the fallback file URL, the star rating, the purchase controls of the
  * book page, the cart label, and the two cart insertions (`addToCart`, `buyNow`).
  */
module Books {
  import opened Wrappers
  import opened Json
  import opened Session
  import Text
  import Seqs
  import Auth

  /** The host `safeFileUrl` falls back to when `window.FILE_BASE_URL` is not set. */
  const DefaultFileHost := "https://blueleafbooks-backend-geum.onrender.com"

  /** `safeFileUrl`'s own computation, used when no `fileUrl` function is loaded.
      `windowBase` is `window.FILE_BASE_URL`, "" when unset. */
  function FallbackFileUrl(path: string, windowBase: string): (r: string)
    ensures Text.Trim(path) == "" ==> r == ""
    ensures Text.Trim(path) != "" && Text.IsHttpUrl(Text.Trim(path)) ==> r == Text.Trim(path)
    ensures Text.Trim(path) != "" && !Text.IsHttpUrl(Text.Trim(path)) ==>
              r == Text.StripTrailingSlash(if windowBase != "" then windowBase else DefaultFileHost)
                   + "/" + Text.StripLeadingSlashes(Text.Trim(path))
  {
    if path == "" then ""
    else
      var p := Text.Trim(path);
      if p == "" then ""
      else if Text.IsHttpUrl(p) then p
      else
        var base := if windowBase != "" then windowBase else DefaultFileHost;
        Text.StripTrailingSlash(base) + "/" + Text.StripLeadingSlashes(p)
  }

  /** `safeFileUrl(path)`: a loaded `fileUrl` function decides when there is one. */
  function SafeFileUrl(path: string, loaded: Option<string -> string>, windowBase: string): (r: string)
    ensures loaded.Some? ==> r == loaded.value(path)
    ensures loaded.None? ==> r == FallbackFileUrl(path, windowBase)
  {
    if loaded.Some? then loaded.value(path) else FallbackFileUrl(path, windowBase)
  }

  const FullStar := '\U{2605}'
  const EmptyStar := '\U{2606}'

  /** `c.repeat(n)` */
  function Repeat(c: char, n: nat): (s: string)
    ensures |s| == n
    ensures forall i :: 0 <= i < n ==> s[i] == c
  {
    if n == 0 then [] else [c] + Repeat(c, n - 1)
  }

  lemma {:induction false} RepeatCount(c: char, n: nat, d: char)
    ensures multiset(Repeat(c, n))[d] == if c == d then n else 0
  {
    if n > 0 {
      RepeatCount(c, n - 1, d);
    }
  }

  /** `'★'.repeat(r) + '☆'.repeat(5 - r)`. `repeat` throws on a negative count, so a
      rating outside 0..5 has no star string (`None`). */
  function StarString(rating: int): (s: Option<string>)
    ensures s.Some? <==> 0 <= rating <= 5
    ensures s.Some? ==> |s.value| == 5
    ensures s.Some? ==> forall i :: 0 <= i < 5 ==> s.value[i] == if i < rating then FullStar else EmptyStar
  {
    if rating < 0 || rating > 5 then None
    else Some(Repeat(FullStar, rating) + Repeat(EmptyStar, 5 - rating))
  }

  /** A star string shows exactly `rating` filled stars and `5 - rating` empty ones. */
  lemma StarCounts(rating: int)
    requires 0 <= rating <= 5
    ensures multiset(StarString(rating).value)[FullStar] == rating
    ensures multiset(StarString(rating).value)[EmptyStar] == 5 - rating
  {
    var full, empty := Repeat(FullStar, rating), Repeat(EmptyStar, 5 - rating);
    assert StarString(rating).value == full + empty;
    assert multiset(full + empty) == multiset(full) + multiset(empty);
    RepeatCount(FullStar, rating, FullStar);
    RepeatCount(EmptyStar, 5 - rating, FullStar);
    RepeatCount(FullStar, rating, EmptyStar);
    RepeatCount(EmptyStar, 5 - rating, EmptyStar);
  }

  /** The star string of a book card: `Math.floor(Number(book.rating || 0))` stars. A
      rating that is not a number repeats nothing (""), one outside 0..5 makes `repeat`
      throw (`None`). */
  function RatingStars(book: Value): (r: Option<string>)
    ensures NumberOf(Or(Get(book, "rating"), JNum(0))).None? ==> r == Some("")
    ensures !Truthy(Get(book, "rating")) ==> r == StarString(0)
    ensures Get(book, "rating").JNum? ==> r == StarString(Get(book, "rating").n)
  {
    match NumberOf(Or(Get(book, "rating"), JNum(0)))
    case None => Some("")
    case Some(n) => StarString(n)
  }

  /** `book.price && Number(book.price) > 0` together with `book.pdfFile`. */
  predicate ForSale(book: Value) {
    var price := Get(book, "price");
    && Truthy(price)
    && NumberOf(price).Some? && NumberOf(price).value > 0
    && Truthy(Get(book, "pdfFile"))
  }

  /** What the book page offers under the description. */
  datatype PurchaseControl = NotAvailable | LoginPrompt | BuyButtons | NoControls

  /** The purchase-control choice of `displayBookDetails`: a book without a positive
      price or a PDF is not for sale; otherwise a visitor is asked to log in, a customer
      gets Buy Now and Add to Cart, and any other user gets nothing. */
  function PurchaseControlFor(book: Value, user: Value): (r: PurchaseControl)
    ensures r == NotAvailable <==> !ForSale(book)
    ensures r == LoginPrompt <==> ForSale(book) && !Truthy(user)
    ensures r == BuyButtons <==> ForSale(book) && Auth.HasRole(user, "customer")
    ensures r == NoControls <==> ForSale(book) && Truthy(user) && !Auth.HasRole(user, "customer")
  {
    var isCustomer := Truthy(user) && Get(user, "role") == JStr("customer");
    var price := Get(book, "price");
    var hasPrice := Truthy(price) && NumberOf(price).Some? && NumberOf(price).value > 0;
    var hasPdf := Truthy(Get(book, "pdfFile"));
    if !hasPrice || !hasPdf then NotAvailable
    else if !Truthy(user) then LoginPrompt
    else if isCustomer then BuyButtons
    else NoControls
  }

  /** The cart link's text for a cart of `count` ids. */
  function CartLabel(count: nat): (r: string)
    ensures r == "Cart" <==> count == 0
    ensures count > 0 ==> Text.StartsWith(r, "Cart (") && Text.EndsWith(r, ")")
    ensures count > 0 ==> 6 < |r| && Text.ParseInt(r[6..|r| - 1]) == Some(count as int)
  {
    if count > 0 then
      var digits := Text.NatToString(count);
      Text.DigitsValueOfNatToString(count);
      Text.ParseIntOfDigits(digits);
      CartLabelDigits(digits);
      "Cart (" + digits + ")"
    else "Cart"
  }

  /** `updateCartCount()`: the label for the stored cart; `None` when the stored cart is
      unreadable and `JSON.parse` throws. */
  function CartLinkText(st: Storage, c: Codec): (r: Option<string>)
    ensures r.Some? <==> ReadCart(st, c).Some?
    ensures r.Some? ==> r.value == CartLabel(|ReadCart(st, c).value|)
  {
    match ReadCart(st, c)
    case None => None
    case Some(cart) => Some(CartLabel(|cart|))
  }

  /** The digits of a `Cart (<n>)` label sit between its prefix and its closing parenthesis. */
  lemma CartLabelDigits(digits: string)
    ensures ("Cart (" + digits + ")")[6..|digits| + 6] == digits
  {
    var text := "Cart (" + digits + ")";
    assert |text| == |digits| + 7;
    forall i | 0 <= i < |digits|
      ensures text[6 + i] == digits[i]
    {
    }
  }

  /** Different cart sizes never show the same text. */
  lemma CartLabelInjective(m: nat, n: nat)
    requires CartLabel(m) == CartLabel(n)
    ensures m == n
  {
    if m > 0 && n > 0 {
      var a := Text.NatToString(m);
      var b := Text.NatToString(n);
      CartLabelDigits(a);
      CartLabelDigits(b);
      Text.NatToStringInjective(m, n);
    }
  }

  /** The cart after adding `id` the way `addToCart` and `buyNow` do: unchanged if the id
      is there, otherwise with the id at the end. */
  function Insert(cart: seq<string>, id: string): (r: seq<string>)
    ensures id in r
    ensures id in cart ==> r == cart
    ensures id !in cart ==> r == cart + [id]
  {
    if id in cart then cart else cart + [id]
  }

  /** Insertion keeps the cart free of duplicates, and puts the id there exactly once. */
  lemma InsertKeepsNoDuplicates(cart: seq<string>, id: string)
    requires Seqs.NoDuplicates(cart)
    ensures Seqs.NoDuplicates(Insert(cart, id))
    ensures multiset(Insert(cart, id))[id] == 1
  {
    Seqs.DistinctCountAtMostOne(cart, id);
    var r := Insert(cart, id);
    if id !in cart {
      assert r == cart + [id];
      assert multiset(r) == multiset(cart) + multiset{id};
    } else {
      assert multiset(cart)[id] >= 1;
    }
  }

  /** After a new id is written, the cart link counts one more book. */
  lemma InsertCountsOneMore(st: Storage, c: Codec, id: string)
    requires Sound(c) && ReadCart(st, c).Some? && id !in ReadCart(st, c).value
    ensures CartLinkText(WriteCart(st, c, Insert(ReadCart(st, c).value, id)), c)
            == Some(CartLabel(|ReadCart(st, c).value| + 1))
  {
    CartRoundTrip(st, c, Insert(ReadCart(st, c).value, id));
  }

  const AddedMessage := "Book added to cart!"
  const AlreadyInCartMessage := "This book is already in your cart!"
  const CheckoutPage := "checkout.html"

  /** How `addToCart` ended. `Unreadable`: the stored cart is not a JSON array of ids, and
      `JSON.parse` threw before anything changed. */
  datatype AddOutcome = Added | AlreadyInCart | Unreadable

  /** `addToCart(bookId)`: a present id only raises an alert; an absent one is appended
      and written back. */
  method AddToCart(b: Browser, id: string) returns (outcome: AddOutcome)
    modifies b`storage, b`alerts
    ensures ReadCart(old(b.storage), b.codec).None? ==>
              outcome == Unreadable && b.storage == old(b.storage) && b.alerts == old(b.alerts)
    ensures ReadCart(old(b.storage), b.codec).Some? && id in ReadCart(old(b.storage), b.codec).value ==>
              outcome == AlreadyInCart && b.storage == old(b.storage)
              && b.alerts == old(b.alerts) + [AlreadyInCartMessage]
    ensures ReadCart(old(b.storage), b.codec).Some? && id !in ReadCart(old(b.storage), b.codec).value ==>
              outcome == Added
              && b.storage == WriteCart(old(b.storage), b.codec, Insert(ReadCart(old(b.storage), b.codec).value, id))
              && b.alerts == old(b.alerts) + [AddedMessage]
  {
    var cart := b.LoadCartIds();
    if cart.None? {
      return Unreadable;
    }
    if id in cart.value {
      b.Alert(AlreadyInCartMessage);
      return AlreadyInCart;
    }
    b.StoreCartIds(cart.value + [id]);
    b.Alert(AddedMessage);
    outcome := Added;
  }

  /** `buyNow(bookId)`: the id is inserted (once) and the page goes to checkout. */
  method BuyNow(b: Browser, id: string) returns (readable: bool)
    modifies b`storage, b`location
    ensures readable == ReadCart(old(b.storage), b.codec).Some?
    ensures !readable ==> b.storage == old(b.storage) && b.location == old(b.location)
    ensures readable && id in ReadCart(old(b.storage), b.codec).value ==> b.storage == old(b.storage)
    ensures readable && id !in ReadCart(old(b.storage), b.codec).value ==>
              b.storage == WriteCart(old(b.storage), b.codec, Insert(ReadCart(old(b.storage), b.codec).value, id))
    ensures readable ==> b.location == CheckoutPage
  {
    var cart := b.LoadCartIds();
    readable := cart.Some?;
    if !readable {
      return;
    }
    if id !in cart.value {
      b.StoreCartIds(cart.value + [id]);
    }
    b.Navigate(CheckoutPage);
  }
}
