# URL shortener link registry

A Dafny model of the in-memory link registry in `UrlShortenerApp.java`.
The registry is the static `urlStore` map from a six-character short code to a
`UrlData` record, which holds the original URL, the code, an expiry time and a
click counter. Three HTTP handlers use it:

- `/shorten` (`ShortenHandler`) takes a POST body of the form
  `url=...&validity=...`. `url` defaults to `""` and `validity` to `30` minutes.
  The handler stores a fresh record with zero clicks under a generated code,
  and its expiry is `now + validity`.
- `/redirect` (`RedirectHandler`) looks up the `code` query parameter. It
  answers 404 for a missing or unknown code and 410 when the current time is
  strictly after the expiry. Otherwise it counts the click and returns the
  original URL.
- `/stats` (`StatsHandler`) returns the URL, the expiry and the click count of
  a code, expired or not, and changes nothing.

Each handler uses `parseQuery`, which splits `a=b&c=d` into a map with Java's
`String.split`.

## Structure

- `wrappers.dfy`, module `Wrappers`: `Option`. `None` stands for Java's `null`.
- `java_int.dfy`, module `JavaInt`: Java's 32-bit `int`.
  - `Inc32` is `x++` with two's-complement wrap-around.
  - `ParseInt` is `Integer.parseInt`, with `None` for a `NumberFormatException`.
  - `Format` is `Integer.toString`.
- `java_split.dfy`, module `JavaSplit`: `String.split` with a one-character
  separator and limit 0.
  - `Pieces` gives every piece, empty pieces included.
  - `DropTrailingEmpty` removes the empty pieces at the end.
  - `Split` gives the whole string back when it has no separator.

  Lemmas next to each function state what it guarantees.
- `query.dfy`, module `Query`: `parseQuery` as a method with the source's loop.
  `PairOf` gives a segment's key and value when it splits on `=` into exactly
  two parts. The method is proved equal to the function `QueryMap`, which
  applies the pairs in order, and lemmas say what that map contains.
- `url_shortener.dfy`, module `UrlShortenerApp`:
  - the class `UrlData`, whose `clickCount` field `IncrementClick` updates in place;
  - the class `UrlStore`, whose `urlStore` field is a `map<string, UrlData>`;
  - the three handlers as methods of `UrlStore`.

  `UrlStore.Snapshot()` gives the registry as a value, a map from code to
  `Record`. Each state-changing handler states its new snapshot in terms of
  the old one. `Valid()` is the invariant that every record is stored under
  its own `shortcode`, so two codes never share a record.

Time is a whole number of minutes passed in as `now`; each value stands for one instant. The code that
`UUID.randomUUID()` would produce is passed in as `code`, a string of length 6.

The model follows the code where it departs from what a link registry would
be expected to do:
- On a code collision, `put` replaces the stored record and its clicks. The
  code is not regenerated and the request is not rejected.
- A negative `validity` such as `-5` is accepted, and the link is created
  already expired.
- `clickCount` is a Java `int`, so the 2^31st click wraps it to -2^31. Click
  counts grow by one per successful redirect only below that bound.
- A non-numeric `validity` makes `Integer.parseInt` throw out of the handler
  before it calls `sendResponse`, so the handler itself sends no status. The
  model returns `InvalidValidity`, whose `StatusCode` is `None`, and leaves the
  registry unchanged.
- A segment `a=b=` has two parts after Java drops the trailing empty string,
  so it binds `a` to `b`. `a=` and `a==b` bind nothing.
- The map is not synchronized. The model is single-threaded.

## Model

| member | source | states |
|---|---|---|
| `JavaInt.ParseInt` | UrlShortenerApp.java:41 | `Integer.parseInt`: an optional sign and then decimal digits whose value lies in the `int` range; `None` where Java throws `NumberFormatException`. Its properties are the three lemmas below |
| `JavaInt.Inc32` | UrlShortenerApp.java:135 | `clickCount++` adds one below 2^31-1 and wraps to -2^31 at 2^31-1 |
| `JavaInt.ParseFormat` | UrlShortenerApp.java:41 | `Integer.parseInt` reads back every `int` that `Integer.toString` writes, including the default `"30"` |
| `JavaInt.ParseIntRejects` | UrlShortenerApp.java:41 | a validity with any non-digit character, other than a leading sign, fails to parse |
| `JavaInt.ParseIntRange` | UrlShortenerApp.java:41 | a string of an optional `+` or `-` and digits parses exactly when its signed value lies in [-2^31, 2^31-1], and then to that value |
| `JavaSplit.Split` | UrlShortenerApp.java:114-115 | `String.split` with limit 0: the input itself when it has no separator, otherwise its pieces with the trailing empty ones removed. Its properties are the `Pieces…`, `DropTrailingEmptyKeeps` and `SplitKeepsPieces` lemmas |
| `JavaSplit.PiecesSeparatorFree` | UrlShortenerApp.java:114-115 | no piece produced by splitting contains the separator |
| `JavaSplit.PiecesJoin` | UrlShortenerApp.java:114-115 | the pieces joined with the separator give back the input |
| `JavaSplit.DropTrailingEmptyKeeps` | UrlShortenerApp.java:114-115 | what is kept is a prefix of the pieces that does not end in an empty string, and only empty strings are removed |
| `JavaSplit.SplitKeepsPieces` | UrlShortenerApp.java:114-115 | `split` keeps a prefix of the pieces and removes only trailing empty ones; `""` splits to `[""]`; a non-empty input never splits to a result ending in an empty string |
| `JavaSplit.PiecesWithoutSeparator` | UrlShortenerApp.java:114-115 | a string without the separator is its own single piece |
| `JavaSplit.PiecesAfterSeparator` | UrlShortenerApp.java:114-115 | the first separator ends the first piece and the rest is split on its own |
| `JavaSplit.PiecesTrailingSeparators` | UrlShortenerApp.java:115 | a separator-free string followed by n separators splits into that string and n empty pieces |
| `JavaSplit.SplitPair` | UrlShortenerApp.java:115-116 | `a=b`, and `a=b` followed by any number of `=`, split into exactly `[a, b]` when `b` is non-empty |
| `JavaSplit.SplitMissingValue` | UrlShortenerApp.java:115-116 | `a=`, `a==` and so on split into `[a]`, and `=` into `[]`, so they never make a pair |
| `Query.PairOf` | UrlShortenerApp.java:115-116 | a segment binds its first part to its second exactly when `split("=")` gives two parts |
| `Query.QueryMap` | UrlShortenerApp.java:111-118 | the map `parseQuery` returns: empty for `null` or `""`, otherwise each `&`-segment's pair put in order |
| `Query.ParseQuery` | UrlShortenerApp.java:111-119 | a null or empty query gives the empty map; the loop builds exactly `QueryMap(query)`, the pairs of the `&`-segments applied in order |
| `Query.LastPairWins` | UrlShortenerApp.java:114-116 | a key is in the map with the value of the last segment that binds it |
| `Query.OnlyPairsBind` | UrlShortenerApp.java:114-116 | every key in the map comes from a segment that splits into exactly two parts, and carries that segment's value |
| `Query.LaterSegmentWins` | UrlShortenerApp.java:114-116 | in a parsed query, a key has the value of the last `&`-segment that binds it |
| `Query.OnlyTwoPartSegmentsBind` | UrlShortenerApp.java:114-116 | every key of a parsed query comes from a non-empty query and an `&`-segment that splits on `=` into exactly that key and its value |
| `Query.PairOfShape` | UrlShortenerApp.java:115-116 | the segments `key=value`, `key=value=`, `key=value==` and so on each bind `key` to `value` |
| `Query.NoValueNoPair` | UrlShortenerApp.java:115-116 | a segment with nothing after its `=` signs binds nothing |
| `Query.SinglePair` | UrlShortenerApp.java:111-118 | the query `key=value` parses to exactly `{key: value}` |
| `Query.TwoPairs` | UrlShortenerApp.java:111-118 | `k1=v1&k2=v2` parses to both entries, and the second wins on equal keys |
| `UrlShortenerApp.StatusCode` | UrlShortenerApp.java:50-98 | the status each outcome is sent with: 200 for a short URL, a redirect and statistics, 405, 404 and 410 for the refusals, and none for an unparsable validity, where the handler throws before sending |
| `UrlShortenerApp.IsExpired` | UrlShortenerApp.java:71 | `now.isAfter(expiry)`: expired only strictly after the expiry instant |
| `UrlShortenerApp.ExpiryIsFinal` | UrlShortenerApp.java:71 | a link is still valid at the expiry instant (`now == expiry`), and once expired it stays expired at every later clock reading |
| `UrlShortenerApp.CodeParam` | UrlShortenerApp.java:62-63 | `params.get("code")` on the parsed query, `None` for Java's `null` |
| `UrlShortenerApp.ExampleQuery` | UrlShortenerApp.java:62-63 | the query `code=ab12cd` names the code `ab12cd` |
| `UrlShortenerApp.ShortenRequest` | UrlShortenerApp.java:38-41 | the URL and validity `/shorten` reads from its body: `url` defaults to `""`, `validity` to `"30"`, and `None` when `Integer.parseInt` rejects the validity |
| `UrlShortenerApp.UrlStore.ReadBody` | UrlShortenerApp.java:38-41 | parsing the body with `parseQuery`, `getOrDefault` and `Integer.parseInt` gives exactly `ShortenRequest(body)` |
| `UrlShortenerApp.UrlData.constructor` | UrlShortenerApp.java:126-132 | a new record has the given URL, code and expiry and zero clicks |
| `UrlShortenerApp.UrlData.IncrementClick` | UrlShortenerApp.java:134-136 | only the click count changes, to its 32-bit successor |
| `UrlShortenerApp.UrlStore.constructor` | UrlShortenerApp.java:17 | the registry starts empty and satisfies its invariant |
| `UrlShortenerApp.UrlStore.Shorten` | UrlShortenerApp.java:36-53 | non-POST gives `OnlyPostAllowed` with status 405 and no change; an unparsable validity gives no status and no change; otherwise status 200 and the code maps to a fresh record with url, code, `now + validity` and 0 clicks, replacing any old one, and every other entry is unchanged |
| `UrlShortenerApp.UrlStore.Put` | UrlShortenerApp.java:45 | the code maps to a fresh record with the given URL, code and expiry and 0 clicks, whether or not it was present; every other entry is unchanged; the registry grows by one entry for a new code and keeps its size for a present one |
| `UrlShortenerApp.UrlStore.Redirect` | UrlShortenerApp.java:60-78 | a missing or unknown code gives `NotFound` with status 404 and no change; `now > expiry` gives `LinkExpired` with status 410 and no change; otherwise it returns the URL with status 200, and only that record's click count changes, to its 32-bit successor (one more below 2^31-1) |
| `UrlShortenerApp.UrlStore.Stats` | UrlShortenerApp.java:84-99 | a missing or unknown code gives `NotFound` with status 404; otherwise it returns the stored URL, expiry and click count with status 200, expired or not, without modifying anything |
| `UrlShortenerApp.ShortenDefaults` | UrlShortenerApp.java:40-41 | without `url` the stored URL is `""`; without `validity` the request is valid with 30 minutes |
| `UrlShortenerApp.NonNumericValidity` | UrlShortenerApp.java:41 | a `validity` with a non-digit character makes the request fail |
| `UrlShortenerApp.ExampleBody` | UrlShortenerApp.java:38-41 | the body `url=https://example.com/long/path&validity=1` gives that URL and a validity of 1 minute |
| `UrlShortenerApp.LinkLifetime` | UrlShortenerApp.java:36-98 | a link created with validity 1 redirects at the expiry instant (`now == expiry`), is expired one minute later, and its stats still show one click |

## Left out

- The HTTP server (`main`, `HttpServer`, the executor), `sendResponse`, and
  reading the request body and URI are left out. This is network and stream
  I/O. The handlers take the method, the body string and the decoded query
  string as parameters.
- Concurrency is left out. The source's `HashMap` and `clickCount++` are
  unsynchronized, and the model is single-threaded.
- `UUID.randomUUID().toString().substring(0, 6)` is left out. The code is a
  caller-supplied string of length 6.
- `LocalDateTime.now()` and `plusMinutes` are left out. Time is an integer
  number of minutes. `plusMinutes` can throw outside the representable years,
  and the integer clock does not model that.
- The clock: `LocalDateTime.now()` keeps seconds and nanoseconds, and
  `plusMinutes` carries them into the expiry. A link created at 10:00:30 with
  `validity=1` is therefore expired at 10:01:45. The model's `now == expiry`
  stands for that one instant, not a whole minute.
- The clock: `LocalDateTime.now()` is local wall-clock time and can step
  back, for example when daylight saving time ends, and an expired link then
  redirects again. `ExpiryIsFinal` holds only for clock readings that never
  decrease. `Redirect` itself accepts any `now`.
- What the HTTP server answers when the `NumberFormatException` from
  `Integer.parseInt` escapes `/shorten` is left out. That server is not part
  of this model. The model only says that the handler sends nothing and the
  registry is unchanged.
- The response texts are left out: the `Short URL: ...`, `Redirect to: ...`
  and `Original URL: ...` strings and the printed form of the expiry. Only the
  outcome and its status code are modelled.
- The conversion of the body bytes with the platform charset is left out.
- `ParseInt`: Java's `Character.digit` also accepts non-ASCII Unicode digits,
  while the model accepts only `0` to `9`.
- `Split`: the model covers only a one-character separator that is not a
  regular-expression metacharacter. The source calls it only with `&` and `=`.
