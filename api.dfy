/**
  * js/api.js: where files are served from, how a response becomes a value or an error
  * message, and how a request's URL and headers are put together.
  */
module Api {
  import opened Wrappers
  import opened Json
  import Text
  import Session

  const ApiHost := "blueleafbooks-backend.onrender.com"
  const ApiBaseUrl := "https://" + ApiHost + "/api"

  /** `base.replace(/\/api\/?$/, '')`: a final `/api` or `/api/` removed. */
  function StripApiSuffix(s: string): (r: string)
    ensures Text.EndsWith(s, "/api/") ==> r + "/api/" == s
    ensures !Text.EndsWith(s, "/api/") && Text.EndsWith(s, "/api") ==> r + "/api" == s
    ensures !Text.EndsWith(s, "/api/") && !Text.EndsWith(s, "/api") ==> r == s
  {
    if Text.EndsWith(s, "/api/") then s[..|s| - 5]
    else if Text.EndsWith(s, "/api") then s[..|s| - 4]
    else s
  }

  /** `FILE_BASE_URL`: the backend host that serves covers and PDFs. */
  function FileBaseUrl(): string {
    StripApiSuffix(ApiBaseUrl)
  }

  /** Files are served from the API host itself, without the `/api` path and with no
      trailing slash. */
  lemma FileBaseUrlIsApiHost()
    ensures FileBaseUrl() + "/api" == ApiBaseUrl
    ensures FileBaseUrl() == "https://" + ApiHost
    ensures !Text.EndsWith(FileBaseUrl(), "/")
  {
    var host := "https://" + ApiHost;
    var s := ApiBaseUrl;
    assert s == host + "/api";
    assert s[|s| - 1] == 'i';
    assert s[|s| - 4..] == "/api";
    assert host[|host| - 1] == 'm';
  }

  /** The file host is an https URL. */
  lemma FileBaseUrlIsHttps()
    ensures Text.StartsWith(FileBaseUrl(), "https://")
  {
    FileBaseUrlIsApiHost();
    assert "https://"[..8] == "https://";
    Text.StartsWithAppend("https://", ApiHost, "https://");
  }

  /** A fetch response: the status code and the body text. */
  datatype Response = Response(status: nat, body: string)

  /** `res.ok` */
  predicate IsOk(res: Response) {
    200 <= res.status <= 299
  }

  /** `text ? JSON.parse(text) : null`, with a parse failure caught as `null`. */
  function BodyData(body: string, c: Codec): (data: Value)
    ensures body == "" ==> data == JNull
    ensures body != "" && c.parse(body).None? ==> data == JNull
    ensures body != "" && c.parse(body).Some? ==> data == c.parse(body).value
  {
    if body == "" then JNull
    else match c.parse(body)
      case None => JNull
      case Some(v) => v
  }

  function Min(a: int, b: int): int {
    if a <= b then a else b
  }

  /** The message of the error `safeJson` throws for a failed response: the first truthy
      of `data.message`, `data.error`, the first 250 characters of the body, and
      `HTTP <status>`. */
  function ErrorMessage(data: Value, body: string, status: nat): (msg: string)
    ensures Truthy(Get(data, "message")) ==> msg == ToText(Get(data, "message"))
    ensures !Truthy(Get(data, "message")) && Truthy(Get(data, "error")) ==>
              msg == ToText(Get(data, "error"))
    ensures !Truthy(Get(data, "message")) && !Truthy(Get(data, "error")) && body != "" ==>
              |msg| == Min(250, |body|) && Text.StartsWith(body, msg)
    ensures !Truthy(Get(data, "message")) && !Truthy(Get(data, "error")) && body == "" ==>
              msg == "HTTP " + Text.IntToString(status) && Text.ParseInt(msg[5..]) == Some(status as int)
  {
    var picked := if Truthy(data) then Or(Get(data, "message"), Get(data, "error")) else data;
    if Truthy(picked) then ToText(picked)
    else if body != "" then body[..Min(250, |body|)]
    else
      var code := Text.IntToString(status);
      Text.ParseIntOfIntToString(status);
      assert ("HTTP " + code)[5..] == code;
      "HTTP " + code
  }

  /** `safeJson(res)`: 204 gives `null` without reading the body; another OK response
      gives its JSON value, or `null` when the body is empty or not JSON; a failed
      response is an error carrying `ErrorMessage`. */
  function SafeJson(res: Response, c: Codec): (r: Result<Value, string>)
    ensures r.Err? <==> !IsOk(res)
    ensures res.status == 204 ==> r == Ok(JNull)
    ensures IsOk(res) && (res.body == "" || c.parse(res.body).None?) ==> r == Ok(JNull)
    ensures IsOk(res) && res.status != 204 && res.body != "" && c.parse(res.body).Some? ==>
              r == Ok(c.parse(res.body).value)
    ensures !IsOk(res) ==> r.error == ErrorMessage(BodyData(res.body, c), res.body, res.status)
  {
    if res.status == 204 then Ok(JNull)
    else
      var data := BodyData(res.body, c);
      if !IsOk(res) then Err(ErrorMessage(data, res.body, res.status))
      else Ok(data)
  }

  /** A 204 response is `null` whatever its body. */
  lemma NoContentIgnoresBody(b1: string, b2: string, c: Codec)
    ensures SafeJson(Response(204, b1), c) == SafeJson(Response(204, b2), c) == Ok(JNull)
  {
  }

  const JsonContentType := "application/json"

  /** The headers `apiRequest` sends: `Content-Type: application/json` unless the caller
      gives one, the caller's headers, and `Authorization: Bearer <token>` whenever a
      token is stored, replacing any the caller gave. */
  function RequestHeaders(token: Option<string>, given: map<string, string>): (h: map<string, string>)
    ensures h.Keys == given.Keys + {"Content-Type"}
                      + (if token.Some? && token.value != "" then {"Authorization"} else {})
    ensures token.Some? && token.value != "" ==> h["Authorization"] == "Bearer " + token.value
    ensures !(token.Some? && token.value != "") && "Authorization" in given ==>
              h["Authorization"] == given["Authorization"]
    ensures h["Content-Type"] == if "Content-Type" in given then given["Content-Type"] else JsonContentType
    ensures forall k :: k in given && k != "Authorization" ==> h[k] == given[k]
  {
    var merged := map["Content-Type" := JsonContentType] + given;
    if token.Some? && token.value != "" then merged["Authorization" := "Bearer " + token.value]
    else merged
  }

  /** A request as `apiRequest` hands it to `fetch`. */
  datatype Request = Request(url: string, headers: map<string, string>)

  /** `apiRequest(endpoint, { headers })`: the URL is the API base followed by the
      endpoint; the token comes from storage. */
  function PrepareRequest(st: Session.Storage, endpoint: string, given: map<string, string>): (r: Request)
    ensures r.url == ApiBaseUrl + endpoint
    ensures r.headers == RequestHeaders(Session.Token(st), given)
    ensures "Authorization" !in given ==>
              ("Authorization" in r.headers <==> Session.Token(st).Some? && Session.Token(st).value != "")
  {
    Request(ApiBaseUrl + endpoint, RequestHeaders(Session.Token(st), given))
  }

  /** `booksAPI.getAll` endpoint: `?` and the query only when the query is not empty. */
  function BooksEndpoint(query: string): (e: string)
    ensures Text.StartsWith(e, "/books")
    ensures e == "/books" <==> query == ""
  {
    "/books" + (if query != "" then "?" + query else "")
  }

  /** `adminAPI.getAllBooks(status)` endpoint: `?status=` only when a status is given. */
  function AdminBooksEndpoint(status: string): (e: string)
    ensures Text.StartsWith(e, "/admin/books")
    ensures e == "/admin/books" <==> status == ""
  {
    "/admin/books" + (if status != "" then "?status=" + status else "")
  }

  /** The query string of an endpoint: what follows its first `?`. */
  function QueryOf(e: string): string {
    match Text.IndexOf(e, '?')
    case None => ""
    case Some(i) => e[i + 1..]
  }

  /** The query given to `booksAPI.getAll` is exactly the query the endpoint carries. */
  lemma BooksEndpointQuery(query: string)
    ensures QueryOf(BooksEndpoint(query)) == query
  {
    if query != "" {
      assert BooksEndpoint(query) == "/books" + ['?'] + query;
      Text.IndexOfAfter("/books", '?', query);
    } else {
      assert '?' !in "/books";
    }
  }

  /** The admin book listing carries `status=<status>` exactly when a status is given. */
  lemma AdminBooksEndpointQuery(status: string)
    ensures QueryOf(AdminBooksEndpoint(status)) == if status == "" then "" else "status=" + status
  {
    if status != "" {
      assert AdminBooksEndpoint(status) == "/admin/books" + ['?'] + ("status=" + status);
      Text.IndexOfAfter("/admin/books", '?', "status=" + status);
    } else {
      assert '?' !in "/admin/books";
    }
  }
}
