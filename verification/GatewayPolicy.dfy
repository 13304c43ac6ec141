/** Choosing and applying a public gateway route: longest prefix match and path rewriting. */
module GatewayPolicy {
  import opened Common
  import opened Text

  datatype Route = Route(id: string, port: int, pathPrefix: string, methods: seq<string>, rewritePrefix: Option<string>)

  datatype Config = Config(enabled: bool, routes: seq<Route>)

  /** The matched route is given by its index among the configured routes. */
  datatype Match = Match(route: Option<nat>, pathMatched: bool, methodAllowed: bool)

  const NO_MATCH := Match(None, false, false)

  function Effective(prefix: string): string {
    if prefix == "" then "/" else prefix
  }

  predicate PathMatchesPrefix(path: string, prefix: string) {
    || prefix == "" || prefix == "/"
    || path == prefix
    || TrimRight(prefix, '/') + "/" <= path
  }

  // ---------- The matching loop ----------

  predicate Applies(r: Route, port: int, path: string) {
    r.port == port && PathMatchesPrefix(path, Effective(r.pathPrefix))
  }

  /** Route `b` applies, no applicable route has a longer prefix, and no earlier one has as long a prefix. */
  ghost predicate IsBest(routes: seq<Route>, port: int, path: string, b: nat) {
    && b < |routes| && Applies(routes[b], port, path)
    && forall j :: 0 <= j < |routes| && Applies(routes[j], port, path) ==>
         && |Effective(routes[j].pathPrefix)| <= |Effective(routes[b].pathPrefix)|
         && (j < b ==> |Effective(routes[j].pathPrefix)| < |Effective(routes[b].pathPrefix)|)
  }

  predicate EqualFold(a: string, b: string) {
    ToLower(a) == ToLower(b)
  }

  /** An empty method list allows every method; "*" does too; otherwise some entry must equal it up to case. */
  ghost predicate AllowsMethod(methods: seq<string>, verb: string) {
    methods == [] || exists i :: 0 <= i < |methods| && (methods[i] == "*" || EqualFold(methods[i], verb))
  }

  method MethodAllowed(methods: seq<string>, verb: string) returns (ok: bool)
    ensures ok <==> AllowsMethod(methods, verb)
  {
    if |methods| == 0 {
      return true;
    }
    for i := 0 to |methods|
      invariant forall j :: 0 <= j < i ==> methods[j] != "*" && !EqualFold(methods[j], verb)
    {
      if methods[i] == "*" || EqualFold(methods[i], verb) {
        return true;
      }
    }
    ok := false;
  }

  method MatchPublicGatewayRoute(cfg: Option<Config>, port: int, path: string, verb: string) returns (m: Match)
    ensures cfg.None? || !cfg.value.enabled ==> m == NO_MATCH
    ensures cfg.Some? && cfg.value.enabled ==>
              if m.route.None? then m == NO_MATCH && forall j :: 0 <= j < |cfg.value.routes| ==> !Applies(cfg.value.routes[j], port, path)
              else
                && IsBest(cfg.value.routes, port, path, m.route.value)
                && m.pathMatched
                && (m.methodAllowed <==> AllowsMethod(cfg.value.routes[m.route.value].methods, ToUpper(TrimSpace(verb))))
  {
    hide PathMatchesPrefix, TrimSpace, ToUpper, AllowsMethod;
    if cfg.None? || !cfg.value.enabled {
      return NO_MATCH;
    }
    var routes := cfg.value.routes;
    var requestMethod := ToUpper(TrimSpace(verb));
    var best: Option<nat> := None;
    var bestLen := -1;
    for i := 0 to |routes|
      invariant best.None? ==> bestLen == -1 && forall j :: 0 <= j < i ==> !Applies(routes[j], port, path)
      invariant best.Some? ==>
          && best.value < i && IsBest(routes[..i], port, path, best.value)
          && bestLen == |Effective(routes[best.value].pathPrefix)|
    {
      assert forall j :: 0 <= j < i ==> routes[..i + 1][j] == routes[..i][j];
      if routes[i].port != port {
        continue;
      }
      var prefix := Effective(routes[i].pathPrefix);
      if !PathMatchesPrefix(path, prefix) {
        continue;
      }
      if |prefix| > bestLen {
        best := Some(i);
        bestLen := |prefix|;
      }
    }
    assert routes[..|routes|] == routes;
    if best.None? {
      return NO_MATCH;
    }
    var allowed := MethodAllowed(routes[best.value].methods, requestMethod);
    m := Match(best, true, allowed);
  }

  // ---------- Matching in terms of path segments ----------

  function Segments(s: string): seq<string> {
    Split(s, '/')
  }

  /** A text followed by nothing or by a slash, exactly when its segments come first. */
  lemma PrefixIsSegments(q: string, path: string)
    ensures path == q || q + "/" <= path <==> Segments(q) <= Segments(path)
  {
    hide Split, Join;
    if q + "/" <= path {
      var rest := path[|q| + 1..];
      assert path == q + ['/'] + rest;
      SplitConcat(q, rest, '/');
    }
    if Segments(q) <= Segments(path) {
      JoinSplit(q, '/');
      JoinSplit(path, '/');
      var rest := Segments(path)[|Segments(q)|..];
      assert Segments(path) == Segments(q) + rest;
      if rest == [] {
        assert Segments(path) == Segments(q);
      } else {
        JoinConcat(Segments(q), rest, '/');
        assert (q + "/")[..] == path[..|q| + 1];
      }
    }
  }

  /**
    A prefix other than the root matches exactly when its segments, without trailing slashes,
    begin the path's; except that a prefix written with a trailing slash does not match the path
    that lacks it.
   */
  lemma MatchIsSegments(path: string, prefix: string)
    requires prefix != "" && prefix != "/"
    ensures var q := TrimRight(prefix, '/');
            PathMatchesPrefix(path, prefix) <==> Segments(q) <= Segments(path) && (path == q ==> prefix == q)
  {
    hide Split;
    var q := TrimRight(prefix, '/');
    PrefixIsSegments(q, path);
    if q != prefix {
      TrimmedSlash(prefix);
    }
  }

  /** A text with trailing slashes continues its trimmed form with a slash. */
  lemma {:induction false} TrimmedSlash(s: string)
    requires TrimRight(s, '/') != s
    ensures TrimRight(s, '/') + "/" <= s
  {
    var t := s[..|s| - 1];
    if TrimRight(t, '/') != t {
      TrimmedSlash(t);
      assert TrimRight(s, '/') == TrimRight(t, '/');
    } else {
      assert t + "/" == s;
    }
  }

  /** Starts with a slash, and does not end with one unless it is the root. */
  predicate Normalized(prefix: string) {
    prefix != "" && prefix[0] == '/' && (prefix == "/" || prefix[|prefix| - 1] != '/')
  }

  /** The segments of a prefix: the root's are those of the empty text. */
  function PrefixSegments(prefix: string): seq<string> {
    Segments(TrimRight(prefix, '/'))
  }

  lemma NormalizedTrim(prefix: string)
    requires Normalized(prefix)
    ensures TrimRight(prefix, '/') == if prefix == "/" then "" else prefix
  {
    assert "/"[..0] == "";
  }

  /** For such prefixes and every absolute path, matching is exactly being the first segments. */
  lemma NormalizedMatchIsSegments(path: string, prefix: string)
    requires Normalized(prefix) && path != "" && path[0] == '/'
    ensures PathMatchesPrefix(path, prefix) <==> PrefixSegments(prefix) <= Segments(path)
  {
    hide Split;
    NormalizedTrim(prefix);
    if prefix == "/" {
      PrefixIsSegments("", path);
      assert "" + "/" <= path;
    } else {
      MatchIsSegments(path, prefix);
    }
  }

  lemma NormalizedMatchIsPrefix(path: string, prefix: string)
    requires Normalized(prefix) && prefix != "/" && PathMatchesPrefix(path, prefix)
    ensures prefix <= path
  {
    NormalizedTrim(prefix);
  }

  /** Of two such prefixes of one path, the shorter text has the segments the other begins with. */
  lemma LongerIsMoreSpecific(path: string, p: string, q: string)
    requires Normalized(p) && Normalized(q) && PathMatchesPrefix(path, p) && PathMatchesPrefix(path, q) && |p| <= |q|
    ensures PrefixSegments(p) <= PrefixSegments(q)
    ensures |p| == |q| ==> p == q
  {
    hide Split;
    NormalizedTrim(p);
    NormalizedTrim(q);
    if p == "/" {
      PrefixIsSegments("", if q == "/" then "" else q);
      assert q != "/" ==> "" + "/" <= q;
    } else {
      NormalizedMatchIsPrefix(path, p);
      NormalizedMatchIsPrefix(path, q);
      assert p == path[..|p|] && q == path[..|q|] && p == q[..|p|];
      PrefixIsSegments(p, q);
      if |p| < |q| {
        assert path[|p|] == '/';
        assert q[..|p| + 1] == p + "/";
      }
    }
  }

  /** Every prefix configured on `port` is normalized. */
  ghost predicate AllNormalized(routes: seq<Route>, port: int) {
    forall i :: 0 <= i < |routes| && routes[i].port == port ==> Normalized(Effective(routes[i].pathPrefix))
  }

  /** The chosen route is the most specific: every applicable prefix's segments begin its own. */
  lemma BestIsMostSpecific(routes: seq<Route>, port: int, path: string, b: nat, j: nat)
    requires IsBest(routes, port, path, b) && AllNormalized(routes, port)
    requires j < |routes| && Applies(routes[j], port, path)
    ensures PrefixSegments(Effective(routes[j].pathPrefix)) <= PrefixSegments(Effective(routes[b].pathPrefix))
  {
    hide PathMatchesPrefix, Split, TrimRight, Normalized, PrefixSegments;
    LongerIsMoreSpecific(path, Effective(routes[j].pathPrefix), Effective(routes[b].pathPrefix));
  }

  // ---------- The order of the routes ----------

  /** Route `i` applies and no applicable route has a longer prefix. */
  ghost predicate IsLongest(routes: seq<Route>, port: int, path: string, i: nat) {
    && i < |routes| && Applies(routes[i], port, path)
    && forall j :: 0 <= j < |routes| && Applies(routes[j], port, path) ==>
         |Effective(routes[j].pathPrefix)| <= |Effective(routes[i].pathPrefix)|
  }

  /** No two different routes tie for the longest applicable prefix. */
  ghost predicate TieFree(routes: seq<Route>, port: int, path: string) {
    forall i: nat, j: nat :: IsLongest(routes, port, path, i) && IsLongest(routes, port, path, j) ==> routes[i] == routes[j]
  }

  /** Whatever order the routes are given in, the same route is chosen. */
  ghost predicate SameChoice(routes: seq<Route>, port: int, path: string) {
    forall rs: seq<Route>, rs': seq<Route>, b: nat, b': nat ::
      && multiset(rs) == multiset(routes) && multiset(rs') == multiset(routes)
      && IsBest(rs, port, path, b) && IsBest(rs', port, path, b')
      ==> rs[b] == rs'[b']
  }

  /** What one order finds best is a longest of any other order. */
  lemma BestIsLongest(routes: seq<Route>, rs: seq<Route>, port: int, path: string, b: nat) returns (i: nat)
    requires multiset(rs) == multiset(routes) && IsBest(rs, port, path, b)
    ensures IsLongest(routes, port, path, i) && routes[i] == rs[b]
  {
    hide Applies, Effective;
    assert rs[b] in multiset(rs);
    i :| 0 <= i < |routes| && routes[i] == rs[b];
    forall j | 0 <= j < |routes| && Applies(routes[j], port, path)
      ensures |Effective(routes[j].pathPrefix)| <= |Effective(routes[i].pathPrefix)|
    {
      assert routes[j] in multiset(routes);
      var k :| 0 <= k < |rs| && rs[k] == routes[j];
    }
  }

  /** The routes with the one at `i` moved to the front. */
  function MovedToFront(routes: seq<Route>, i: nat): seq<Route>
    requires i < |routes|
  {
    [routes[i]] + routes[..i] + routes[i + 1..]
  }

  /** A longest route is chosen when it comes first. */
  lemma LongestInFront(routes: seq<Route>, port: int, path: string, i: nat)
    requires IsLongest(routes, port, path, i)
    ensures multiset(MovedToFront(routes, i)) == multiset(routes)
    ensures IsBest(MovedToFront(routes, i), port, path, 0) && MovedToFront(routes, i)[0] == routes[i]
  {
    hide Applies, Effective;
    var rs := MovedToFront(routes, i);
    assert routes == routes[..i] + [routes[i]] + routes[i + 1..];
    assert forall k :: 0 <= k < |rs| ==> rs[k] == routes[if k == 0 then i else if k <= i then k - 1 else k];
  }

  /**
    Exactly when the order does not matter: all orders of the routes choose the same route for a
    path if and only if no two different routes tie for the longest applicable prefix.
   */
  lemma OrderIndependentExactly(routes: seq<Route>, port: int, path: string)
    ensures SameChoice(routes, port, path) <==> TieFree(routes, port, path)
  {
    hide IsBest, IsLongest, MovedToFront;
    if TieFree(routes, port, path) {
      forall rs: seq<Route>, rs': seq<Route>, b: nat, b': nat |
        multiset(rs) == multiset(routes) && multiset(rs') == multiset(routes)
        && IsBest(rs, port, path, b) && IsBest(rs', port, path, b')
        ensures b < |rs| && b' < |rs'| && rs[b] == rs'[b']
      {
        BestInRange(rs, port, path, b);
        BestInRange(rs', port, path, b');
        var i := BestIsLongest(routes, rs, port, path, b);
        var j := BestIsLongest(routes, rs', port, path, b');
      }
    }
    if SameChoice(routes, port, path) {
      forall i: nat, j: nat | IsLongest(routes, port, path, i) && IsLongest(routes, port, path, j)
        ensures i < |routes| && j < |routes| && routes[i] == routes[j]
      {
        LongestInRange(routes, port, path, i);
        LongestInRange(routes, port, path, j);
        LongestInFront(routes, port, path, i);
        LongestInFront(routes, port, path, j);
      }
    }
  }

  lemma BestInRange(routes: seq<Route>, port: int, path: string, b: nat)
    requires IsBest(routes, port, path, b)
    ensures b < |routes|
  {
  }

  lemma LongestInRange(routes: seq<Route>, port: int, path: string, i: nat)
    requires IsLongest(routes, port, path, i)
    ensures i < |routes|
  {
  }

  /** Distinct normalized prefixes on the port never tie; so with them the order does not matter. */
  lemma OrderIndependent(routes: seq<Route>, port: int, path: string)
    requires AllNormalized(routes, port)
    requires forall i, j :: 0 <= i < j < |routes| && routes[i].port == routes[j].port == port ==>
               Effective(routes[i].pathPrefix) != Effective(routes[j].pathPrefix)
    ensures SameChoice(routes, port, path)
  {
    hide PathMatchesPrefix, Split, TrimRight, Normalized, PrefixSegments, SameChoice;
    forall i: nat, j: nat | IsLongest(routes, port, path, i) && IsLongest(routes, port, path, j)
      ensures routes[i] == routes[j]
    {
      LongerIsMoreSpecific(path, Effective(routes[i].pathPrefix), Effective(routes[j].pathPrefix));
    }
    OrderIndependentExactly(routes, port, path);
  }

  /** Trailing slashes break this: two different prefixes of one length can match one path, and the first wins. */
  lemma TrailingSlashesDependOnOrder(r: Route, r': Route)
    requires r.port == r'.port && r.pathPrefix == "/a//" && r'.pathPrefix == "/a/b"
    ensures IsBest([r, r'], r.port, "/a/b", 0) && IsBest([r', r], r.port, "/a/b", 0)
    ensures !SameChoice([r, r'], r.port, "/a/b")
  {
    hide PathMatchesPrefix, SameChoice;
    BothMatch();
    Tied(r, r');
  }

  lemma BothMatch()
    ensures PathMatchesPrefix("/a/b", "/a//") && PathMatchesPrefix("/a/b", "/a/b")
  {
    assert "/a//"[..3] == "/a/" && "/a/"[..2] == "/a";
    assert TrimRight("/a/", '/') == TrimRight("/a", '/') == "/a";
    assert "/a" + "/" == "/a/b"[..3];
  }

  lemma Tied(r: Route, r': Route)
    requires r != r' && IsBest([r, r'], r.port, "/a/b", 0) && IsBest([r', r], r.port, "/a/b", 0)
    ensures !SameChoice([r, r'], r.port, "/a/b")
  {
    hide IsBest;
    assert multiset([r, r']) == multiset([r', r]) && [r, r'][0] != [r', r][0];
  }
}
