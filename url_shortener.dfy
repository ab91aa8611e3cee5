/** The in-memory link registry of the URL shortener and its three HTTP
    handlers, with the HTTP transport stripped away. A handler receives what
    it would read from the exchange (the request method, the body, the query
    string), the current time as a whole number of minutes, and, for
    `/shorten`, the six-character code that the random generator produced. */
module UrlShortenerApp {
  import opened Wrappers
  import opened JavaInt
  import opened Query

  /** What a handler answers. */
  datatype Outcome =
    | ShortUrl(code: string, expiry: int)
    | OnlyPostAllowed
    | InvalidValidity
    | RedirectTo(url: string)
    | NotFound
    | LinkExpired
    | Statistics(url: string, expiry: int, clickCount: Int32)

  /** The HTTP status the handler itself sends with each outcome.
      `InvalidValidity` has none: the `NumberFormatException` escapes the
      handler before it calls `sendResponse`, and what the HTTP server then
      answers is outside this model. */
  function StatusCode(o: Outcome): (r: Option<int>)
    ensures r.None? <==> o.InvalidValidity?
    ensures r == Some(200) <==> o.ShortUrl? || o.RedirectTo? || o.Statistics?
    ensures r.Some? ==> r.value in {200, 404, 405, 410}
  {
    match o
    case ShortUrl(_, _) => Some(200)
    case OnlyPostAllowed => Some(405)
    case InvalidValidity => None
    case RedirectTo(_) => Some(200)
    case NotFound => Some(404)
    case LinkExpired => Some(410)
    case Statistics(_, _, _) => Some(200)
  }

  /** One stored link as a value: the fields of a `UrlData` at one moment. */
  datatype Record = Record(originalUrl: string, shortcode: string, expiry: int, clickCount: Int32)

  /** `now.isAfter(expiry)`: the link is expired only strictly after its expiry. */
  predicate IsExpired(expiry: int, now: int) {
    now > expiry
  }

  /** A link is still valid at the expiry instant itself, and once expired
      it stays expired at every later clock reading. */
  lemma ExpiryIsFinal(expiry: int, now: int, later: int)
    ensures !IsExpired(expiry, expiry)
    ensures IsExpired(expiry, now) && now <= later ==> IsExpired(expiry, later)
  {
  }

  /** `Map.getOrDefault`. */
  function GetOrDefault(m: map<string, string>, key: string, default: string): string {
    if key in m then m[key] else default
  }

  /** `params.get("code")` on the parsed query; `None` is Java's `null`. */
  function CodeParam(query: Option<string>): Option<string> {
    var params := QueryMap(query);
    if "code" in params then Some(params["code"]) else None
  }

  /** The URL and the validity in minutes that `/shorten` reads from its body:
      `url` defaults to the empty string and `validity` to 30; `None` when
      `Integer.parseInt` rejects the validity. */
  function ShortenRequest(body: string): Option<(string, Int32)> {
    var params := QueryMap(Some(body));
    match ParseInt(GetOrDefault(params, "validity", "30"))
    case None => None
    case Some(validity) => Some((GetOrDefault(params, "url", ""), validity))
  }

  /** A stored link. Only the click count changes after construction. */
  class UrlData {
    const originalUrl: string
    const shortcode: string
    const expiry: int
    var clickCount: Int32

    constructor (originalUrl: string, shortcode: string, expiry: int)
      ensures View() == Record(originalUrl, shortcode, expiry, 0)
    {
      this.originalUrl := originalUrl;
      this.shortcode := shortcode;
      this.expiry := expiry;
      clickCount := 0;
    }

    function View(): Record
      reads this
    {
      Record(originalUrl, shortcode, expiry, clickCount)
    }

    /** `clickCount++` on a Java `int`. */
    method IncrementClick()
      modifies this
      ensures View() == old(View()).(clickCount := Inc32(old(clickCount)))
    {
      clickCount := Inc32(clickCount);
    }
  }

  /** The registry: the map from short code to link, shared by the handlers. */
  class UrlStore {
    var urlStore: map<string, UrlData>

    /** Every link is stored under its own code. Since the code never changes,
        two keys never share one `UrlData`. */
    ghost predicate Valid()
      reads this
    {
      forall code | code in urlStore :: urlStore[code].shortcode == code
    }

    /** The registry as a value: each code with its link's current fields. */
    ghost function Snapshot(): map<string, Record>
      reads this, urlStore.Values
    {
      map code | code in urlStore :: urlStore[code].View()
    }

    constructor ()
      ensures Valid() && Snapshot() == map[] && urlStore == map[]
    {
      urlStore := map[];
    }

    /** `/shorten`. A POST stores a fresh link with no clicks under `code`,
        replacing whatever was stored there; anything else is refused. A
        validity that is not a number leaves the registry as it was. */
    method Shorten(requestMethod: string, body: string, now: int, code: string) returns (r: Outcome)
      requires Valid() && |code| == 6
      modifies this
      ensures Valid() && fresh(urlStore.Values - old(urlStore.Values))
      ensures requestMethod != "POST" ==>
                r == OnlyPostAllowed && StatusCode(r) == Some(405) && Snapshot() == old(Snapshot())
      ensures requestMethod == "POST" && ShortenRequest(body).None? ==>
                r == InvalidValidity && StatusCode(r).None? && Snapshot() == old(Snapshot())
      ensures requestMethod == "POST" && ShortenRequest(body).Some? ==>
                var (url, validity) := ShortenRequest(body).value;
                && r == ShortUrl(code, now + validity) && StatusCode(r) == Some(200)
                && Snapshot() == old(Snapshot())[code := Record(url, code, now + validity, 0)]
    {
      if requestMethod != "POST" {
        return OnlyPostAllowed;
      }
      var request := ReadBody(body);
      if request.None? {
        return InvalidValidity;
      }
      var (longUrl, validity) := request.value;
      var expiry := now + validity;
      Put(code, longUrl, expiry);
      r := ShortUrl(code, expiry);
    }

    /** Reads the `/shorten` body: its parameters, the URL with its
        default, and the validity through `Integer.parseInt`. */
    static method ReadBody(body: string) returns (request: Option<(string, Int32)>)
      ensures request == ShortenRequest(body)
    {
      var params := ParseQuery(Some(body));
      var longUrl := GetOrDefault(params, "url", "");
      var validity := ParseInt(GetOrDefault(params, "validity", "30"));
      if validity.None? {
        return None;
      }
      request := Some((longUrl, validity.value));
    }

    /** `urlStore.put(code, new UrlData(url, code, expiry))`: the code now maps
        to a fresh record with no clicks, whether or not it was present, and
        every other entry is unchanged. */
    method Put(code: string, url: string, expiry: int)
      requires Valid()
      modifies this
      ensures Valid() && fresh(urlStore.Values - old(urlStore.Values))
      ensures Snapshot() == old(Snapshot())[code := Record(url, code, expiry, 0)]
      ensures |urlStore| == if code in old(urlStore) then old(|urlStore|) else old(|urlStore|) + 1
    {
      ghost var before := Snapshot();
      var data := new UrlData(url, code, expiry);
      StoreGrowth(urlStore, code, data);
      urlStore := urlStore[code := data];
      assert Snapshot() == before[code := data.View()];
    }

    /** `/redirect`. An unknown code is not found; a link past its expiry is
        expired and keeps its click count; otherwise the click is counted and
        the original URL returned. Nothing else in the registry changes. */
    method Redirect(query: Option<string>, now: int) returns (r: Outcome)
      requires Valid()
      modifies urlStore.Values
      ensures Valid() && urlStore == old(urlStore)
      ensures CodeParam(query).None? || CodeParam(query).value !in old(Snapshot()) ==>
                r == NotFound && StatusCode(r) == Some(404) && Snapshot() == old(Snapshot())
      ensures CodeParam(query).Some? && CodeParam(query).value in old(Snapshot()) ==>
                var code := CodeParam(query).value;
                var rec := old(Snapshot())[code];
                if IsExpired(rec.expiry, now) then
                  r == LinkExpired && StatusCode(r) == Some(410) && Snapshot() == old(Snapshot())
                else
                  && r == RedirectTo(rec.originalUrl) && StatusCode(r) == Some(200)
                  && Snapshot() == old(Snapshot())[code := rec.(clickCount := Inc32(rec.clickCount))]
    {
      var params := ParseQuery(query);
      var code := if "code" in params then Some(params["code"]) else None;
      if code.None? || code.value !in urlStore {
        return NotFound;
      }
      var data := urlStore[code.value];
      if IsExpired(data.expiry, now) {
        return LinkExpired;
      }
      data.IncrementClick();
      r := RedirectTo(data.originalUrl);
    }

    /** `/stats`: the stored URL, expiry and click count, whether or not the
        link has expired; an unknown code is not found. */
    method Stats(query: Option<string>) returns (r: Outcome)
      requires Valid()
      ensures CodeParam(query).None? || CodeParam(query).value !in Snapshot() ==>
                r == NotFound && StatusCode(r) == Some(404)
      ensures CodeParam(query).Some? && CodeParam(query).value in Snapshot() ==>
                var rec := Snapshot()[CodeParam(query).value];
                r == Statistics(rec.originalUrl, rec.expiry, rec.clickCount) && StatusCode(r) == Some(200)
    {
      var params := ParseQuery(query);
      var code := if "code" in params then Some(params["code"]) else None;
      if code.None? || code.value !in urlStore {
        return NotFound;
      }
      var data := urlStore[code.value];
      r := Statistics(data.originalUrl, data.expiry, data.clickCount);
    }
  }

  /** Without a `url` parameter the empty string is stored; without a
      `validity` parameter the link is valid for 30 minutes. */
  lemma ShortenDefaults(body: string)
    ensures "url" !in QueryMap(Some(body)) && ShortenRequest(body).Some? ==>
              ShortenRequest(body).value.0 == ""
    ensures "validity" !in QueryMap(Some(body)) ==>
              ShortenRequest(body).Some? && ShortenRequest(body).value.1 == 30
  {
    ParseFormat(30);
    assert Format(30) == "30";
  }

  /** A `validity` that is not a number makes `/shorten` fail. */
  lemma NonNumericValidity(body: string, i: nat)
    requires "validity" in QueryMap(Some(body))
    requires var v := QueryMap(Some(body))["validity"];
             i < |v| && !IsDigit(v[i]) && (i == 0 ==> v[0] != '-' && v[0] != '+')
    ensures ShortenRequest(body) == None
  {
    ParseIntRejects(QueryMap(Some(body))["validity"], i);
  }

  /** Updating a map at a key adds one entry when the key is new and none
      when it is present. */
  lemma StoreGrowth(s: map<string, UrlData>, code: string, data: UrlData)
    ensures |s[code := data]| == if code in s then |s| else |s| + 1
  {
    if code in s {
      assert s[code := data].Keys == s.Keys;
    } else {
      assert s[code := data].Keys == s.Keys + {code};
    }
  }

  /** A body with a URL and `validity=1` parses to that URL and one minute. */
  lemma ExampleBody()
    ensures ShortenRequest("url" + "=" + "https://example.com/long/path" + "&" + "validity" + "=" + "1")
            == Some(("https://example.com/long/path", 1))
  {
    var url := "https://example.com/long/path";
    assert '&' !in url && '=' !in url;
    TwoPairs("url", url, "validity", "1");
    var params := map["url" := url]["validity" := "1"];
    assert GetOrDefault(params, "validity", "30") == "1";
    assert GetOrDefault(params, "url", "") == url;
    ParseFormat(1);
    assert Format(1) == "1";
    assert ParseInt("1") == Some(1);
  }

  /** The query `code=ab12cd` names the code `ab12cd`. */
  lemma ExampleQuery()
    ensures CodeParam(Some("code" + "=" + "ab12cd")) == Some("ab12cd")
  {
    SinglePair("code", "ab12cd");
  }

  /** The life of one link created at `now` with a validity of one minute:
      followed at the expiry instant it still redirects, one minute later it is
      expired, and its statistics still show the one click. */
  method LinkLifetime(now: int) returns (created: Outcome, followed: Outcome, late: Outcome, stats: Outcome)
    ensures created == ShortUrl("ab12cd", now + 1)
    ensures followed == RedirectTo("https://example.com/long/path")
    ensures late == LinkExpired
    ensures stats == Statistics("https://example.com/long/path", now + 1, 1)
  {
    var url := "https://example.com/long/path";
    var code := "ab12cd";
    var body := "url" + "=" + url + "&" + "validity" + "=" + "1";
    var query := "code" + "=" + code;
    ExampleBody();
    ExampleQuery();

    var store := new UrlStore();
    created := store.Shorten("POST", body, now, code);
    assert store.Snapshot() == map[code := Record(url, code, now + 1, 0)];
    ghost var before := store.Snapshot();
    assert before[code] == Record(url, code, now + 1, 0) && !IsExpired(now + 1, now + 1);
    followed := store.Redirect(Some(query), now + 1);
    assert store.Snapshot() == before[code := before[code].(clickCount := 1)];
    assert store.Snapshot()[code] == Record(url, code, now + 1, 1) && IsExpired(now + 1, now + 2);
    late := store.Redirect(Some(query), now + 2);
    stats := store.Stats(Some(query));
  }
}
