/**
  Controller selection in `ProcessRequestAsync`: the first entry, in the
  dictionary's enumeration order, whose key is a substring of the lower-cased
  request path; a missing match or a null controller falls back to the
  default. Controllers are opaque values of any type `C`.
*/
module HttpWinRTServer {
  import opened Wrappers
  import opened Text
  import opened HttpUtil
  import opened HttpRequest

  /** The controllers dictionary in enumeration order: each key with its controller, `None` for null. */
  type Routes<C> = seq<(string, Option<C>)>

  /** `FirstOrDefault(kv => path.Contains(kv.Key))`, as the index of the entry found, from `k` on. */
  function FirstMatch<C>(routes: Routes<C>, path: string, k: nat): (r: Option<nat>)
    decreases |routes| - k
    ensures r.Some? ==> k <= r.value < |routes| && Contains(path, routes[r.value].0)
    ensures r.Some? ==> forall j :: k <= j < r.value ==> !Contains(path, routes[j].0)
    ensures r.None? ==> forall j :: k <= j < |routes| ==> !Contains(path, routes[j].0)
  {
    if k >= |routes| then None
    else if Contains(path, routes[k].0) then Some(k)
    else FirstMatch(routes, path, k + 1)
  }

  /**
    The controller for a request path: the value of the first entry whose key
    occurs in the lower-cased path, unless that value is null or there is no
    such entry, in which case the default.
  */
  function SelectController<C>(routes: Routes<C>, default: C, uri: string): (c: C)
    ensures c == default || exists i :: 0 <= i < |routes| && routes[i].1 == Some(c)
  {
    match FirstMatch(routes, ToLower(uri), 0)
    case None => default
    case Some(i) => routes[i].1.GetOr(default)
  }

  /** The controller the server picks for a parsed request: routing looks at the path only. */
  function Route<C>(routes: Routes<C>, default: C, request: Request): (c: C)
    ensures c == default || exists i :: 0 <= i < |routes| && routes[i].1 == Some(c)
    ensures (forall i :: 0 <= i < |routes| ==> !Contains(ToLower(request.reqLine.uri), routes[i].0)) ==> c == default
  {
    SelectController(routes, default, request.reqLine.uri)
  }

  /** The entry whose key is the first to occur in the lower-cased path decides. */
  lemma {:induction false} FirstMatchIsFound<C>(routes: Routes<C>, path: string, k: nat, i: nat)
    requires k <= i < |routes| && Contains(path, routes[i].0)
    requires forall j :: k <= j < i ==> !Contains(path, routes[j].0)
    ensures FirstMatch(routes, path, k) == Some(i)
    decreases i - k
  {
    if k < i {
      FirstMatchIsFound(routes, path, k + 1, i);
    }
  }

  lemma SelectFirstMatch<C>(routes: Routes<C>, default: C, uri: string, i: nat)
    requires i < |routes| && Contains(ToLower(uri), routes[i].0)
    requires forall j :: 0 <= j < i ==> !Contains(ToLower(uri), routes[j].0)
    ensures SelectController(routes, default, uri) == routes[i].1.GetOr(default)
  {
    FirstMatchIsFound(routes, ToLower(uri), 0, i);
  }

  /** When no key occurs in the lower-cased path, the default controller is used. */
  lemma SelectNoMatch<C>(routes: Routes<C>, default: C, uri: string)
    requires forall j :: 0 <= j < |routes| ==> !Contains(ToLower(uri), routes[j].0)
    ensures SelectController(routes, default, uri) == default
  {
  }

  /**
    A null controller on the first matching entry gives the default, even
    when a later entry with a controller also matches.
  */
  lemma SelectNullShadowsLater<C>(routes: Routes<C>, default: C, uri: string, i: nat, j: nat)
    requires i < j < |routes|
    requires Contains(ToLower(uri), routes[i].0) && routes[i].1.None?
    requires forall k :: 0 <= k < i ==> !Contains(ToLower(uri), routes[k].0)
    requires Contains(ToLower(uri), routes[j].0) && routes[j].1.Some?
    ensures SelectController(routes, default, uri) == default
  {
    SelectFirstMatch(routes, default, uri, i);
  }

  /** A key with an upper-case ASCII letter never occurs in a lower-cased path. */
  lemma UpperKeyNeverMatches(uri: string, key: string, k: nat)
    requires k < |key| && IsUpper(key[k])
    ensures !Contains(ToLower(uri), key)
  {
    NotContainedWithout(ToLower(uri), key, k);
  }

  /** So an entry whose key has an upper-case letter is never the one chosen. */
  lemma SelectSkipsUpperKeys<C>(routes: Routes<C>, uri: string)
    ensures var r := FirstMatch(routes, ToLower(uri), 0);
      r.Some? ==> forall k :: 0 <= k < |routes[r.value].0| ==> !IsUpper(routes[r.value].0[k])
  {
    var r := FirstMatch(routes, ToLower(uri), 0);
    if r.Some? {
      var key := routes[r.value].0;
      forall k | 0 <= k < |key|
        ensures !IsUpper(key[k])
      {
        if IsUpper(key[k]) {
          UpperKeyNeverMatches(uri, key, k);
        }
      }
    }
  }

  /** The empty key occurs in every path. */
  lemma EmptyKeyOccurs(path: string)
    ensures Contains(path, "")
  {
    assert OccursAt(path, "", 0);
  }

  /** An entry with the empty key catches every path: no entry after it is ever consulted. */
  lemma EmptyKeyCatchesAll<C>(routes: Routes<C>, uri: string, i: nat)
    requires i < |routes| && routes[i].0 == ""
    ensures var r := FirstMatch(routes, ToLower(uri), 0); r.Some? && r.value <= i
  {
    EmptyKeyOccurs(ToLower(uri));
  }

  /**
    The query string never affects routing: a request for `path?query` is
    routed like a request for `path`.
  */
  lemma RouteIgnoresQuery<C>(routes: Routes<C>, default: C, m: HttpMethod, path: string, query: string, version: string, urlDecode: UrlDecoder)
    requires ' ' !in path && '?' !in path && ' ' !in query && '?' !in query
    ensures var plain := ParseRequestLine(MethodName(m) + " " + path + " " + version, urlDecode);
      var queried := ParseRequestLine(MethodName(m) + " " + (path + "?" + query) + " " + version, urlDecode);
      && plain.Success? && queried.Success?
      && SelectController(routes, default, plain.value.uri) == SelectController(routes, default, queried.value.uri)
  {
    RequestLineWithoutQuery(m, path, version, urlDecode, "");
    assert path + "?" + query + "" == path + "?" + query;
    RequestLineWithQuery(m, path, query, "", version, urlDecode);
  }

  /**
    With routes `api` and `static` and default 0, a request for `/Static/x.css`
    goes to the `static` controller: the path is lower-cased before matching.
  */
  lemma StaticRouteExample(routes: Routes<int>, uri: string)
    requires routes == [("api", Some(1)), ("static", Some(2))]
    requires uri == "/Static/x.css"
    ensures SelectController(routes, 0, uri) == 2
  {
    var lowered := ToLower(uri);
    assert lowered == "/static/x.css";
    assert 'p' !in lowered;
    NotContainedWithout(lowered, routes[0].0, 1);
    assert lowered[1..7] == routes[1].0;
    assert OccursAt(lowered, routes[1].0, 1);
    SelectFirstMatch(routes, 0, uri, 1);
  }
}
