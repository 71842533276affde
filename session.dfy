/**
  * The browser state the front end touches, and the storage helpers of js/api.js.
  * `localStorage` is a map from key to text; `window.location.href` and the `alert`
  * notifications are plain fields of a `Browser` object.
  */
module Session {
  import opened Wrappers
  import opened Json

  /** The contents of `localStorage`. */
  type Storage = map<string, string>

  const TokenKey := "token"
  const UserKey := "user"
  const CartKey := "cart"

  /** `localStorage.getItem(key)`: `None` is `null`. */
  function GetItem(st: Storage, key: string): (r: Option<string>)
    ensures r.Some? <==> key in st
    ensures r.Some? ==> r.value == st[key]
  {
    if key in st then Some(st[key]) else None
  }

  /** `getAuthToken()` */
  function Token(st: Storage): Option<string> {
    GetItem(st, TokenKey)
  }

  /** The stored user text is there, is not empty, and is not JSON. */
  predicate UserUnparsable(st: Storage, c: Codec) {
    UserKey in st && st[UserKey] != "" && c.parse(st[UserKey]).None?
  }

  /** The value `getCurrentUser()` returns: `null` when nothing (or "") is stored or the
      stored text does not parse, otherwise the parsed value. */
  function CurrentUser(st: Storage, c: Codec): (u: Value)
    ensures (UserKey !in st || st[UserKey] == "" || UserUnparsable(st, c)) ==> u == JNull
    ensures UserKey in st && st[UserKey] != "" && c.parse(st[UserKey]).Some? ==>
              u == c.parse(st[UserKey]).value
  {
    if UserKey !in st || st[UserKey] == "" then JNull
    else match c.parse(st[UserKey])
      case None => JNull
      case Some(v) => v
  }

  /** The storage after `getCurrentUser()`: an unparsable `user` entry is removed, nothing
      else changes. */
  function AfterUserRead(st: Storage, c: Codec): (r: Storage)
    ensures UserUnparsable(st, c) ==> UserKey !in r && r == st - {UserKey}
    ensures !UserUnparsable(st, c) ==> r == st
  {
    if UserUnparsable(st, c) then st - {UserKey} else st
  }

  /** The strings of an array whose elements are all strings; `None` otherwise. */
  function Strings(items: seq<Value>): (r: Option<seq<string>>)
    ensures r.Some? <==> forall i :: 0 <= i < |items| ==> items[i].JStr?
    ensures r.Some? ==> |r.value| == |items| && forall i :: 0 <= i < |items| ==> r.value[i] == items[i].s
  {
    if items == [] then Some([])
    else if !items[0].JStr? then None
    else match Strings(items[1..])
      case None => None
      case Some(rest) => Some([items[0].s] + rest)
  }

  /** The cart as `JSON.stringify` receives it: an array of id strings. */
  function CartValue(ids: seq<string>): Value {
    JArr(seq(|ids|, i requires 0 <= i < |ids| => JStr(ids[i])))
  }

  /** `JSON.parse(localStorage.getItem('cart') || '[]')`. `None` is the case where that
      throws, or yields something other than an array of strings. */
  function ReadCart(st: Storage, c: Codec): (r: Option<seq<string>>)
    ensures CartKey !in st || st[CartKey] == "" ==> r == Some([])
  {
    if CartKey !in st || st[CartKey] == "" then Some([])
    else match c.parse(st[CartKey])
      case None => None
      case Some(v) => if v.JArr? then Strings(v.items) else None
  }

  /** `localStorage.setItem('cart', JSON.stringify(ids))` */
  function WriteCart(st: Storage, c: Codec, ids: seq<string>): Storage {
    st[CartKey := c.stringify(CartValue(ids))]
  }

  /** A written cart reads back as the same list, and no other key changes. */
  lemma CartRoundTrip(st: Storage, c: Codec, ids: seq<string>)
    requires Sound(c)
    ensures ReadCart(WriteCart(st, c, ids), c) == Some(ids)
    ensures forall k :: k != CartKey ==> GetItem(WriteCart(st, c, ids), k) == GetItem(st, k)
  {
    var w := WriteCart(st, c, ids);
    var v := CartValue(ids);
    assert c.parse(c.stringify(v)) == Some(v) && c.stringify(v) != "";
    assert w[CartKey] == c.stringify(v);
    var r := Strings(v.items);
    assert r.Some? && r.value == ids;
  }

  /** A user written by `setCurrentUser` is what `getCurrentUser` returns, and reading it
      removes nothing. */
  lemma UserRoundTrip(st: Storage, c: Codec, u: Value)
    requires Sound(c)
    ensures CurrentUser(st[UserKey := c.stringify(u)], c) == u
    ensures AfterUserRead(st[UserKey := c.stringify(u)], c) == st[UserKey := c.stringify(u)]
  {
    assert c.parse(c.stringify(u)) == Some(u) && c.stringify(u) != "";
  }

  /** The browser: local storage, the current location, and the alerts shown so far. */
  class Browser {
    var storage: Storage
    var location: string
    var alerts: seq<string>
    const codec: Codec

    constructor (codec: Codec, location: string)
      ensures this.codec == codec && this.location == location
      ensures storage == map[] && alerts == []
    {
      this.codec := codec;
      this.location := location;
      storage := map[];
      alerts := [];
    }

    /** `getAuthToken()` */
    method GetAuthToken() returns (token: Option<string>)
      ensures token == Token(storage)
    {
      token := GetItem(storage, TokenKey);
    }

    /** `setAuthToken(token)` */
    method SetAuthToken(token: string)
      modifies this`storage
      ensures storage == old(storage)[TokenKey := token]
      ensures Token(storage) == Some(token)
    {
      storage := storage[TokenKey := token];
    }

    /** `removeAuthToken()` */
    method RemoveAuthToken()
      modifies this`storage
      ensures storage == old(storage) - {TokenKey}
      ensures Token(storage) == None
    {
      storage := storage - {TokenKey};
    }

    /** `getCurrentUser()`: the parsed user, or `null`; an unparsable entry is removed. */
    method GetCurrentUser() returns (user: Value)
      modifies this`storage
      ensures user == CurrentUser(old(storage), codec)
      ensures storage == AfterUserRead(old(storage), codec)
    {
      var text := GetItem(storage, UserKey);
      if text.None? || text.value == "" {
        user := JNull;
      } else {
        var parsed := codec.parse(text.value);
        if parsed.None? {
          storage := storage - {UserKey};
          user := JNull;
        } else {
          user := parsed.value;
        }
      }
    }

    /** `setCurrentUser(user)` */
    method SetCurrentUser(user: Value)
      modifies this`storage
      ensures storage == old(storage)[UserKey := codec.stringify(user)]
      ensures Sound(codec) ==> CurrentUser(storage, codec) == user
    {
      storage := storage[UserKey := codec.stringify(user)];
      if Sound(codec) {
        UserRoundTrip(old(storage), codec, user);
      }
    }

    /** `removeCurrentUser()` */
    method RemoveCurrentUser()
      modifies this`storage
      ensures storage == old(storage) - {UserKey}
      ensures CurrentUser(storage, codec) == JNull
    {
      storage := storage - {UserKey};
    }

    /** `JSON.parse(localStorage.getItem('cart') || '[]')` */
    method LoadCartIds() returns (ids: Option<seq<string>>)
      ensures ids == ReadCart(storage, codec)
    {
      ids := ReadCart(storage, codec);
    }

    /** `localStorage.setItem('cart', JSON.stringify(ids))` */
    method StoreCartIds(ids: seq<string>)
      modifies this`storage
      ensures storage == WriteCart(old(storage), codec, ids)
      ensures Sound(codec) ==> ReadCart(storage, codec) == Some(ids)
    {
      storage := WriteCart(storage, codec, ids);
      if Sound(codec) {
        CartRoundTrip(old(storage), codec, ids);
      }
    }

    /** `alert(message)` */
    method Alert(message: string)
      modifies this`alerts
      ensures alerts == old(alerts) + [message]
    {
      alerts := alerts + [message];
    }

    /** `window.location.href = href` */
    method Navigate(href: string)
      modifies this`location
      ensures location == href
    {
      location := href;
    }
  }
}
