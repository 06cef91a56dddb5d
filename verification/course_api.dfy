/** The request shapes the client's course API builds: the search query
    string, the publish request, and the bearer header. Parameters are
    key/value pairs joined with `&` and `=`; percent-encoding is not modelled,
    so the parsing side round-trips for values free of `&`. */
module CourseApi {
  import opened Common
  import opened Records
  import Courses

  /** `parts` joined with `sep` between consecutive elements. */
  function JoinWith(parts: seq<string>, sep: char): (r: string)
    ensures |parts| == 0 ==> r == ""
    ensures |parts| == 1 ==> r == parts[0]
  {
    if |parts| == 0 then ""
    else if |parts| == 1 then parts[0]
    else parts[0] + [sep] + JoinWith(parts[1..], sep)
  }

  /** The text before the first `c` and the text after it; without a `c`,
      all of `s` and nothing. */
  function SplitFirst(s: string, c: char): (r: (string, string))
    ensures c !in r.0
    ensures c in s ==> s == r.0 + [c] + r.1
    ensures c !in s ==> r == (s, "")
  {
    if |s| == 0 then ("", "")
    else if s[0] == c then ("", s[1..])
    else
      var rest := SplitFirst(s[1..], c);
      assert s == [s[0]] + s[1..];
      ([s[0]] + rest.0, rest.1)
  }

  /** Splitting at the first `c` recovers the two halves when the first has no `c`. */
  lemma {:induction false} SplitFirstOf(a: string, c: char, b: string)
    requires c !in a
    ensures SplitFirst(a + [c] + b, c) == (a, b)
  {
    var s := a + [c] + b;
    if |a| > 0 {
      assert s[0] == a[0] && s[1..] == a[1..] + [c] + b;
      SplitFirstOf(a[1..], c, b);
      assert a == [a[0]] + a[1..];
    } else {
      assert s[1..] == b;
    }
  }

  /** `s` cut at every `c`. */
  function Split(s: string, c: char): (r: seq<string>)
    ensures |r| >= 1
    ensures forall i :: 0 <= i < |r| ==> c !in r[i]
    decreases |s|
  {
    if c !in s then [s]
    else
      var (head, tail) := SplitFirst(s, c);
      [head] + Split(tail, c)
  }

  /** Splitting a join gives the parts back when none of them contains the separator. */
  lemma {:induction false} SplitJoin(parts: seq<string>, c: char)
    requires |parts| >= 1
    requires forall i :: 0 <= i < |parts| ==> c !in parts[i]
    ensures Split(JoinWith(parts, c), c) == parts
  {
    if |parts| > 1 {
      var rest := JoinWith(parts[1..], c);
      SplitFirstOf(parts[0], c, rest);
      SplitJoin(parts[1..], c);
      assert c in parts[0] + [c] + rest;
      assert parts == [parts[0]] + parts[1..];
    }
  }

  type Param = (string, string)

  /** `URLSearchParams.toString()` without percent-encoding. */
  function QueryString(params: seq<Param>): string
  {
    JoinWith(seq(|params|, i requires 0 <= i < |params| => params[i].0 + "=" + params[i].1), '&')
  }

  /** The server's reading of a query string: `&`-separated pairs, each cut at
      its first `=`. */
  function ParseQuery(q: string): (r: seq<Param>)
    ensures q == "" ==> r == []
  {
    if q == "" then []
    else
      var pieces := Split(q, '&');
      seq(|pieces|, i requires 0 <= i < |pieces| => SplitFirst(pieces[i], '='))
  }

  /** A key free of `=` and `&` and a value free of `&`. */
  predicate PlainParam(p: Param)
  {
    '=' !in p.0 && '&' !in p.0 && '&' !in p.1
  }

  /** Reading a query string back gives the parameters it was built from. */
  lemma QueryRoundTrip(params: seq<Param>)
    requires forall i :: 0 <= i < |params| ==> PlainParam(params[i])
    ensures ParseQuery(QueryString(params)) == params
  {
    if |params| > 0 {
      var texts := seq(|params|, i requires 0 <= i < |params| => params[i].0 + "=" + params[i].1);
      forall i | 0 <= i < |texts| ensures '&' !in texts[i] && SplitFirst(texts[i], '=') == params[i] {
        SplitFirstOf(params[i].0, '=', params[i].1);
      }
      SplitJoin(texts, '&');
      assert texts[0] == params[0].0 + "=" + params[0].1;
      assert JoinWith(texts, '&') != "" by {
        if |texts| == 1 {
        } else {
          assert |JoinWith(texts, '&')| >= |texts[0]| + 1;
        }
      }
    }
  }

  /** The value of the first parameter named `key`. */
  function Lookup(params: seq<Param>, key: string): Option<string>
  {
    if |params| == 0 then None
    else if params[0].0 == key then Some(params[0].1)
    else Lookup(params[1..], key)
  }

  /** `getSearchCourse`'s parameters: `query` when the search text is truthy,
      `categories` (comma-joined) when the list is non-empty, `sortByPrice`
      when truthy, always in that order and each at most once. */
  function SearchParams(searchQuery: Option<string>, categories: Option<seq<string>>,
                        sortByPrice: Option<string>): (r: seq<Param>)
    ensures Lookup(r, "query") == (if Truthy(searchQuery) then searchQuery else None)
    ensures Lookup(r, "categories") ==
      (if categories.Some? && |categories.value| > 0 then Some(JoinWith(categories.value, ',')) else None)
    ensures Lookup(r, "sortByPrice") == (if Truthy(sortByPrice) then sortByPrice else None)
    ensures forall i :: 0 <= i < |r| ==> r[i].0 in {"query", "categories", "sortByPrice"}
    ensures forall i, j :: 0 <= i < j < |r| ==> KeyRank(r[i].0) < KeyRank(r[j].0)
  {
    var q := if Truthy(searchQuery) then [("query", searchQuery.value)] else [];
    var c := if categories.Some? && |categories.value| > 0 then [("categories", JoinWith(categories.value, ','))] else [];
    var p := if Truthy(sortByPrice) then [("sortByPrice", sortByPrice.value)] else [];
    LookupAppend(q, c + p, "categories");
    LookupAppend(q, c + p, "sortByPrice");
    LookupAppend(c, p, "sortByPrice");
    assert q + c + p == q + (c + p);
    assert Lookup(q + (c + p), "query") == (if Truthy(searchQuery) then searchQuery else None) by {
      if q == [] {
        LookupAppend(q, c + p, "query");
        LookupAppend(c, p, "query");
      } else {
        assert (q + (c + p))[0] == q[0];
      }
    }
    q + c + p
  }

  /** A key absent from the front is looked up in the back. */
  lemma {:induction false} LookupAppend(a: seq<Param>, b: seq<Param>, key: string)
    requires forall i :: 0 <= i < |a| ==> a[i].0 != key
    ensures Lookup(a + b, key) == Lookup(b, key)
  {
    if |a| > 0 {
      assert (a + b)[1..] == a[1..] + b;
      LookupAppend(a[1..], b, key);
    } else {
      assert a + b == b;
    }
  }

  /** The position each key takes in the query string. */
  function KeyRank(key: string): nat
  {
    if key == "query" then 0 else if key == "categories" then 1 else 2
  }

  /** The search request's path. */
  function SearchUrl(searchQuery: Option<string>, categories: Option<seq<string>>, sortByPrice: Option<string>): (url: string)
    ensures SplitFirst(url, '?') == ("/search", QueryString(SearchParams(searchQuery, categories, sortByPrice)))
  {
    var q := QueryString(SearchParams(searchQuery, categories, sortByPrice));
    SplitFirstOf("/search", '?', q);
    assert "/search?" + q == "/search" + ['?'] + q;
    "/search?" + q
  }

  /** With no criteria the request is `/search?` with an empty query. */
  lemma SearchUrlBare()
    ensures SearchUrl(None, None, None) == "/search?"
  {
  }

  /** The server reads back exactly the parameters the client chose, when the
      search text, the sort key and the categories are free of `&`. */
  lemma SearchRoundTrip(searchQuery: Option<string>, categories: Option<seq<string>>, sortByPrice: Option<string>)
    requires searchQuery.Some? ==> '&' !in searchQuery.value
    requires sortByPrice.Some? ==> '&' !in sortByPrice.value
    requires categories.Some? ==> forall i :: 0 <= i < |categories.value| ==> '&' !in categories.value[i]
    ensures var url := SearchUrl(searchQuery, categories, sortByPrice);
      ParseQuery(SplitFirst(url, '?').1) == SearchParams(searchQuery, categories, sortByPrice)
  {
    if categories.Some? {
      JoinWithAvoids(categories.value, ',', '&');
    }
    QueryRoundTrip(SearchParams(searchQuery, categories, sortByPrice));
  }

  /** A join contains a character only if some part does, or it is the separator. */
  lemma {:induction false} JoinWithAvoids(parts: seq<string>, sep: char, c: char)
    requires c != sep
    requires forall i :: 0 <= i < |parts| ==> c !in parts[i]
    ensures c !in JoinWith(parts, sep)
  {
    if |parts| > 1 {
      JoinWithAvoids(parts[1..], sep, c);
    }
  }

  datatype Request = Request(httpMethod: string, url: string)

  /** `publishCourse`: a PATCH of the course's path carrying `publish` in the query. */
  function PublishRequest(courseId: string, publish: string): (r: Request)
    ensures r.httpMethod == "PATCH"
    ensures '?' !in courseId ==> SplitFirst(r.url, '?') == ("/" + courseId, "publish=" + publish)
  {
    var url := "/" + courseId + "?publish=" + publish;
    if '?' !in courseId then
      assert url == ("/" + courseId) + ['?'] + ("publish=" + publish);
      SplitFirstOf("/" + courseId, '?', "publish=" + publish);
      Request("PATCH", url)
    else Request("PATCH", url)
  }

  /** Publishing through the client: the server reads `publish` back unchanged,
      and a successful toggle leaves the course published exactly when the
      client sent `"true"`. */
  lemma PublishThroughClient(s: Store, courseId: CourseId, pathId: string, publish: string)
    requires '?' !in pathId && '&' !in publish
    ensures var q := ParseQuery(SplitFirst(PublishRequest(pathId, publish).url, '?').1);
      && q == [("publish", publish)]
      && var o := Courses.TogglePublish(s, courseId, Some(q[0].1));
         o.status == OK ==> o.store.courses[courseId].isPublished == (publish == "true")
  {
    QueryRoundTrip([("publish", publish)]);
    assert QueryString([("publish", publish)]) == "publish=" + publish;
  }

  type Headers = map<string, string>

  /** `prepareHeaders`: a stored, non-empty token adds `authorization: Bearer
      <token>`; otherwise the headers pass through. No other header changes. */
  function PrepareHeaders(headers: Headers, token: Option<string>): (r: Headers)
    ensures ("authorization" in r && r["authorization"] == "Bearer " + token.value) <== Truthy(token)
    ensures !Truthy(token) ==> r == headers
    ensures forall k :: k != "authorization" ==> (k in r <==> k in headers) && (k in r ==> r[k] == headers[k])
  {
    if Truthy(token) then headers["authorization" := "Bearer " + token.value] else headers
  }

  /** A reader of the header the client builds: the text after `Bearer `. The
      server's authentication middleware reads the `token` cookie and never
      this header, so this reader only checks what the client sends. */
  function BearerToken(h: Headers): Option<string>
  {
    if "authorization" in h && |h["authorization"]| >= 7 && h["authorization"][..7] == "Bearer "
    then Some(h["authorization"][7..]) else None
  }

  /** The header carries the stored token exactly: it is read back whenever one
      was present, and nothing is read from headers that had none. */
  lemma BearerRoundTrip(headers: Headers, token: Option<string>)
    requires "authorization" !in headers
    ensures BearerToken(PrepareHeaders(headers, token)) == (if Truthy(token) then token else None)
  {
    if Truthy(token) {
      var v := "Bearer " + token.value;
      assert v[..7] == "Bearer " && v[7..] == token.value;
    }
  }
}
