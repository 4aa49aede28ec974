/** The fixed-window throttler (internal/middlewares/throttler.go): a read-only
    table of limits keyed by (method, path pattern), a mutable table of request
    counts keyed by (route key, client IP), the allow / deny / count step run
    for every request, and the reset that clears every count. */
module Throttler {
  import opened GoStd
  import Config

  /** routeKey. */
  datatype RouteKey = RouteKey(httpMethod: string, path: string)

  /** userKey. */
  datatype UserKey = UserKey(endpoint: RouteKey, ip: string)

  /** The parts of an inbound request the throttler reads. */
  datatype Request = Request(httpMethod: string, path: string, header: HeaderFields, remoteAddr: string)

  /** What the middleware does with a request: hand it to the next handler,
      or answer it itself. */
  datatype Decision = PassToNext | Respond(status: int, contentType: string, body: string)

  const StatusTooManyRequests: int := 429

  /** The 429 answer: `json.Encoder.Encode` writes the object and a newline. */
  const RateLimited: Decision :=
    Respond(StatusTooManyRequests, "application/json", "{\"error\":\"Rate limit exceeded\"}\n")

  // ---------------------------------------------------------------------------
  // getClientIP

  /** The headers getClientIP consults, in order, under their canonical
      names ("X-Real-IP" is canonicalised to "X-Real-Ip" by Header.Get). */
  const ForwardingHeaders: seq<string> := ["X-Forwarded-For", "X-Real-Ip"]

  /** The first comma-separated entry, trimmed, of the first of `names` that
      has a non-empty value; None exactly when every one of them is empty. */
  function ForwardedIP(header: HeaderFields, names: seq<string>): (r: Option<string>)
    ensures r.None? <==> forall i :: 0 <= i < |names| ==> HeaderGet(header, names[i]) == ""
    ensures forall i :: 0 <= i < |names| && HeaderGet(header, names[i]) != "" &&
                        (forall j :: 0 <= j < i ==> HeaderGet(header, names[j]) == "") ==>
              r == Some(TrimSpace(FirstField(HeaderGet(header, names[i]), ',')))
    decreases |names|
  {
    if names == [] then None
    else
      var ips := HeaderGet(header, names[0]);
      if ips != "" then
        assert forall i {:trigger names[i]} :: 0 < i < |names| ==>
          !(forall j :: 0 <= j < i ==> HeaderGet(header, names[j]) == "");
        Some(TrimSpace(FirstField(ips, ',')))
      else
        var rest := ForwardedIP(header, names[1..]);
        assert forall i :: 1 <= i < |names| ==> names[i] == names[1..][i - 1];
        rest
  }

  /** getClientIP, in the order it works: X-Forwarded-For first, then
      X-Real-IP, each reduced to its first comma-separated entry with white
      space trimmed, and the host of RemoteAddr only when neither is set. */
  function ClientIP(header: HeaderFields, remoteAddr: string): (ip: string)
    ensures var xff := HeaderGet(header, "X-Forwarded-For");
            var xri := HeaderGet(header, "X-Real-Ip");
            ip == if xff != "" then TrimSpace(FirstField(xff, ','))
                  else if xri != "" then TrimSpace(FirstField(xri, ','))
                  else RemoteHost(remoteAddr)
  {
    var names := ForwardingHeaders;
    var xri := HeaderGet(header, "X-Real-Ip");
    assert names[1..] == ["X-Real-Ip"] && names[1..][1..] == [];
    assert ForwardedIP(header, names[1..][1..]) == None;
    assert ForwardedIP(header, names[1..])
           == if xri != "" then Some(TrimSpace(FirstField(xri, ','))) else None;
    match ForwardedIP(header, names)
    case Some(ip) => ip
    case None => RemoteHost(remoteAddr)
  }

  /** The host part of `net.SplitHostPort(remoteAddr)`; "" on its error, in
      particular when there is no colon. What comes back never holds a
      bracket and is shorter than the address. */
  function RemoteHost(remoteAddr: string): (host: string)
    ensures ':' !in remoteAddr ==> host == ""
    ensures '[' !in host && ']' !in host
    ensures |host| < |remoteAddr| || host == ""
  {
    match SplitHostPort(remoteAddr)
    case Some(hp) => hp.0
    case None => ""
  }

  /** With no forwarding header, a "host:port" remote address yields its host. */
  lemma ClientIPFromRemoteAddr(header: HeaderFields, host: string, port: string)
    requires HeaderGet(header, "X-Forwarded-For") == "" && HeaderGet(header, "X-Real-Ip") == ""
    requires '[' !in host && ']' !in host
    requires '[' !in port && ']' !in port && ':' !in port
    ensures ClientIP(header, JoinHostPort(host, port)) == host
  {
    SplitJoinHostPort(host, port);
  }

  // ---------------------------------------------------------------------------
  // The counters as values

  function KeyOf(r: Config.Route): RouteKey {
    RouteKey(r.httpMethod, r.path)
  }

  /** The limit table NewLocalThrottler builds: each route's limit under its
      (method, path pattern). The table holds exactly the keys of the routes,
      and a key maps to the limit of the last route that has it. */
  function LimitsOf(routes: seq<Config.Route>): (limits: map<RouteKey, int64>)
    ensures limits.Keys == set r | r in routes :: KeyOf(r)
    ensures forall i :: 0 <= i < |routes| && (forall j :: i < j < |routes| ==> KeyOf(routes[j]) != KeyOf(routes[i]))
              ==> limits[KeyOf(routes[i])] == routes[i].limit
    decreases |routes|
  {
    if routes == [] then map[]
    else
      var init := routes[..|routes| - 1];
      var last := routes[|routes| - 1];
      assert routes == init + [last];
      assert forall i :: 0 <= i < |init| ==> init[i] == routes[i];
      LimitsOf(init)[KeyOf(last) := last.limit]
  }

  /** One more route of the list overwrites its own key. */
  lemma LimitsOfStep(routes: seq<Config.Route>, i: int)
    requires 0 <= i < |routes|
    ensures LimitsOf(routes[..i + 1]) == LimitsOf(routes[..i])[KeyOf(routes[i]) := routes[i].limit]
  {
    assert routes[..i + 1][..i] == routes[..i];
  }

  /** The count of a key; a key never seen reads as 0. */
  function CountOf(counts: map<UserKey, int64>, k: UserKey): int64 {
    if k in counts then counts[k] else 0
  }

  /** incrementUserRequestCount: LoadOrStore a zero counter, then add one with
      int64 wrap-around. The key is created if it was absent, no other key is
      touched, and its count goes up by exactly one below the int64 maximum
      and wraps to the minimum at it. */
  function Increment(counts: map<UserKey, int64>, k: UserKey): (after: map<UserKey, int64>)
    ensures after.Keys == counts.Keys + {k}
    ensures CountOf(counts, k) < Int64Max ==> CountOf(after, k) == CountOf(counts, k) + 1
    ensures CountOf(counts, k) == Int64Max ==> CountOf(after, k) == -0x8000_0000_0000_0000
    ensures forall o :: o != k ==> CountOf(after, o) == CountOf(counts, o)
  {
    counts[k := Wrap64(CountOf(counts, k) + 1)]
  }

  /** Whether requests on `key` are counted at all. */
  predicate Limited(limits: map<RouteKey, int64>, key: RouteKey) {
    key in limits && limits[key] != 0
  }

  /** One request through LocalThrottlerMiddleware, sequentially: the decision
      and the new counts. The limit is looked up under the request's literal
      path, not the pattern of the route that matched it. Unlimited keys pass
      and count nothing; a count at or above the limit is answered with 429
      and counts nothing; otherwise the request passes and its own counter,
      and only that one, goes up by exactly one. */
  function Throttle(limits: map<RouteKey, int64>, counts: map<UserKey, int64>, r: Request)
    : (res: (map<UserKey, int64>, Decision))
    ensures var key := RouteKey(r.httpMethod, r.path);
            var uk := UserKey(key, ClientIP(r.header, r.remoteAddr));
            var (after, d) := res;
            && (!Limited(limits, key) ==> after == counts && d == PassToNext)
            && (Limited(limits, key) && CountOf(counts, uk) >= limits[key] ==>
                  after == counts && d == RateLimited && d.status == 429)
            && (Limited(limits, key) && CountOf(counts, uk) < limits[key] ==>
                  && d == PassToNext
                  && CountOf(after, uk) == CountOf(counts, uk) + 1
                  && forall o :: o != uk ==> CountOf(after, o) == CountOf(counts, o))
  {
    var key := RouteKey(r.httpMethod, r.path);
    if !Limited(limits, key) then (counts, PassToNext)
    else
      var uk := UserKey(key, ClientIP(r.header, r.remoteAddr));
      if CountOf(counts, uk) >= limits[key] then (counts, RateLimited)
      else (Increment(counts, uk), PassToNext)
  }

  /** The invariant the counters keep: only limited keys have counters, and
      each lies between 1 and its route's limit. */
  predicate WithinLimits(limits: map<RouteKey, int64>, counts: map<UserKey, int64>) {
    forall uk :: uk in counts ==> Limited(limits, uk.endpoint) && 1 <= counts[uk] <= limits[uk.endpoint]
  }

  /** Every request keeps the counters within their limits. */
  lemma ThrottleKeepsLimits(limits: map<RouteKey, int64>, counts: map<UserKey, int64>, r: Request)
    requires WithinLimits(limits, counts)
    ensures WithinLimits(limits, Throttle(limits, counts, r).0)
  {
  }

  /** A run of requests handled one after another: the decisions in order and
      the final counts. */
  function Run(limits: map<RouteKey, int64>, counts: map<UserKey, int64>, rs: seq<Request>)
    : (res: (map<UserKey, int64>, seq<Decision>))
    ensures |res.1| == |rs|
    ensures forall i :: 0 <= i < |rs| ==> res.1[i] == PassToNext || res.1[i] == RateLimited
    decreases |rs|
  {
    if rs == [] then (counts, [])
    else
      var step := Throttle(limits, counts, rs[0]);
      var rest := Run(limits, step.0, rs[1..]);
      (rest.0, [step.1] + rest.1)
  }

  /** Over any run, the counters stay within their limits. */
  lemma {:induction false} RunKeepsLimits(limits: map<RouteKey, int64>, counts: map<UserKey, int64>, rs: seq<Request>)
    requires WithinLimits(limits, counts)
    ensures WithinLimits(limits, Run(limits, counts, rs).0)
    ensures |Run(limits, counts, rs).1| == |rs|
    decreases |rs|
  {
    if rs != [] {
      ThrottleKeepsLimits(limits, counts, rs[0]);
      RunKeepsLimits(limits, Throttle(limits, counts, rs[0]).0, rs[1..]);
    }
  }

  /** All requests of `rs` hit the same route key from the same client. */
  predicate SameClientAndKey(rs: seq<Request>, key: RouteKey, ip: string) {
    forall i :: 0 <= i < |rs| ==>
      RouteKey(rs[i].httpMethod, rs[i].path) == key && ClientIP(rs[i].header, rs[i].remoteAddr) == ip
  }

  /** A client that has used `c` of a limit `n`: its next requests pass while
      `c + i < n` and are answered with 429 after that. */
  lemma {:induction false} RunFromCount(limits: map<RouteKey, int64>, counts: map<UserKey, int64>,
                                        rs: seq<Request>, key: RouteKey, ip: string)
    requires Limited(limits, key) && limits[key] > 0
    requires SameClientAndKey(rs, key, ip)
    requires 0 <= CountOf(counts, UserKey(key, ip)) <= limits[key]
    ensures var ds := Run(limits, counts, rs).1;
            |ds| == |rs| &&
            forall i :: 0 <= i < |rs| ==>
              ds[i] == (if CountOf(counts, UserKey(key, ip)) + i < limits[key] then PassToNext else RateLimited)
    decreases |rs|
  {
    if rs != [] {
      var uk := UserKey(key, ip);
      var c := CountOf(counts, uk);
      var next, d := Throttle(limits, counts, rs[0]).0, Throttle(limits, counts, rs[0]).1;
      assert SameClientAndKey(rs[1..], key, ip) by {
        forall i | 0 <= i < |rs[1..]| ensures RouteKey(rs[1..][i].httpMethod, rs[1..][i].path) == key
            && ClientIP(rs[1..][i].header, rs[1..][i].remoteAddr) == ip {
          assert rs[1..][i] == rs[i + 1];
        }
      }
      RunFromCount(limits, next, rs[1..], key, ip);
      var ds := Run(limits, counts, rs).1;
      var rest := Run(limits, next, rs[1..]).1;
      assert ds == [d] + rest;
      if c < limits[key] {
        assert CountOf(next, uk) == c + 1;
      } else {
        assert CountOf(next, uk) == c;
      }
      forall i | 0 <= i < |rs| ensures ds[i] == (if c + i < limits[key] then PassToNext else RateLimited) {
        if i > 0 {
          assert ds[i] == rest[i - 1];
        }
      }
    }
  }

  /** From a cold or freshly reset window with limit n > 0, exactly the first n
      requests of one client on one key pass and every later one gets 429. */
  lemma FirstNPass(limits: map<RouteKey, int64>, rs: seq<Request>, key: RouteKey, ip: string)
    requires Limited(limits, key) && limits[key] > 0
    requires SameClientAndKey(rs, key, ip)
    ensures var ds := Run(limits, map[], rs).1;
            |ds| == |rs| &&
            forall i :: 0 <= i < |rs| ==> (ds[i] == PassToNext <==> i < limits[key]) && (ds[i] == PassToNext || ds[i] == RateLimited)
  {
    RunFromCount(limits, map[], rs, key, ip);
  }

  /** A request whose key has no limit, or a zero one, always passes, however
      many came before. */
  lemma {:induction false} UnlimitedAlwaysPasses(limits: map<RouteKey, int64>, counts: map<UserKey, int64>, rs: seq<Request>)
    requires forall i :: 0 <= i < |rs| ==> !Limited(limits, RouteKey(rs[i].httpMethod, rs[i].path))
    ensures Run(limits, counts, rs).0 == counts
    ensures Run(limits, counts, rs).1 == seq(|rs|, _ => PassToNext)
    decreases |rs|
  {
    if rs != [] {
      UnlimitedAlwaysPasses(limits, counts, rs[1..]);
      assert Throttle(limits, counts, rs[0]) == (counts, PassToNext);
      assert seq(|rs|, _ => PassToNext) == [PassToNext] + seq(|rs| - 1, _ => PassToNext);
    }
  }

  /** The lookup uses the literal request path: when every route pattern
      holds a `{name}` placeholder and no request path holds a brace, no
      request is ever limited. Every request passes, however many arrive, and
      the counters never change. So the route GET "/api/{id}" with limit 5
      lets the sixth request for "/api/7" through. */
  lemma PlaceholderRoutesNotLimited(routes: seq<Config.Route>, counts: map<UserKey, int64>, rs: seq<Request>)
    requires forall i :: 0 <= i < |routes| ==> '{' in routes[i].path
    requires forall i :: 0 <= i < |rs| ==> '{' !in rs[i].path
    ensures Run(LimitsOf(routes), counts, rs) == (counts, seq(|rs|, _ => PassToNext))
  {
    assert forall r :: r in routes ==> '{' in KeyOf(r).path;
    UnlimitedAlwaysPasses(LimitsOf(routes), counts, rs);
  }

  /** Validation accepts a method in any case, but the limit is stored under
      the method as configured while requests carry Go's upper-case method:
      a route declared with "get" and limit 1 passes validation, yet no "GET"
      request on its path is ever limited. */
  lemma LowercaseMethodNotLimited(target: Config.Target, counts: map<UserKey, int64>, rs: seq<Request>)
    requires forall i :: 0 <= i < |rs| ==> rs[i].httpMethod == "GET" && rs[i].path == "/a"
    ensures Config.ValidateRoute(Config.Route("/a", Some(target), "get", [], 1)) == Config.Pass
    ensures Run(LimitsOf([Config.Route("/a", Some(target), "get", [], 1)]), counts, rs) == (counts, seq(|rs|, _ => PassToNext))
  {
    var route := Config.Route("/a", Some(target), "get", [], 1);
    LowercaseRouteValid(route);
    SingleRouteLimits(route);
    UnlimitedAlwaysPasses(LimitsOf([route]), counts, rs);
  }

  /** The lower-case route passes validation. */
  lemma LowercaseRouteValid(route: Config.Route)
    requires route.path == "/a" && route.target.Some? && route.httpMethod == "get"
    requires route.queryParams == [] && route.limit == 1
    ensures Config.ValidateRoute(route) == Config.Pass
  {
    Config.GetAnyCaseValid();
    PathAValid(route.path);
  }

  /** "/a" is a well-formed path. */
  lemma PathAValid(path: string)
    requires path == "/a"
    ensures Config.IsValidPathFormat(path)
  {
    assert path[0] == '/' && path[1] == 'a';
  }

  /** A one-route list holds exactly that route's limit. */
  lemma SingleRouteLimits(route: Config.Route)
    ensures LimitsOf([route]) == map[KeyOf(route) := route.limit]
  {
    assert [route][..0] == [];
  }

  // ---------------------------------------------------------------------------
  // The throttler object

  /** LocalThrottler, run sequentially: the atomics and sync.Map become a
      plain map, and the ticker-driven reset an explicit method. */
  class LocalThrottler {
    const routeLimits: map<RouteKey, int64>
    var userRequestCounts: map<UserKey, int64>

    /** NewLocalThrottler: fills the limit table route by route. */
    constructor (routes: seq<Config.Route>)
      ensures routeLimits == LimitsOf(routes)
      ensures userRequestCounts == map[]
    {
      var limits: map<RouteKey, int64> := map[];
      for i := 0 to |routes|
        invariant limits == LimitsOf(routes[..i])
      {
        LimitsOfStep(routes, i);
        limits := limits[KeyOf(routes[i]) := routes[i].limit];
      }
      assert routes[..|routes|] == routes;
      routeLimits := limits;
      userRequestCounts := map[];
    }

    /** getUserRequestCount. */
    method GetUserRequestCount(endpoint: RouteKey, ip: string) returns (count: int64)
      ensures count == CountOf(userRequestCounts, UserKey(endpoint, ip))
      ensures UserKey(endpoint, ip) !in userRequestCounts ==> count == 0
    {
      var key := UserKey(endpoint, ip);
      if key in userRequestCounts {
        count := userRequestCounts[key];
      } else {
        count := 0;
      }
    }

    /** incrementUserRequestCount. */
    method IncrementUserRequestCount(endpoint: RouteKey, ip: string)
      modifies this
      ensures userRequestCounts == Increment(old(userRequestCounts), UserKey(endpoint, ip))
    {
      var key := UserKey(endpoint, ip);
      if key !in userRequestCounts {
        userRequestCounts := userRequestCounts[key := 0];
      }
      userRequestCounts := userRequestCounts[key := Wrap64(userRequestCounts[key] as int + 1)];
    }

    /** resetCounts: deletes every counter, one at a time. */
    method ResetCounts()
      modifies this
      ensures userRequestCounts == map[]
      ensures forall k :: CountOf(userRequestCounts, k) == 0
    {
      while userRequestCounts != map[]
        decreases |userRequestCounts|
      {
        var k :| k in userRequestCounts;
        userRequestCounts := userRequestCounts - {k};
      }
    }

    /** LocalThrottlerMiddleware for one request: the decision, with the
      counts updated as Throttle says. */
    method Middleware(r: Request) returns (d: Decision)
      modifies this
      ensures userRequestCounts == Throttle(routeLimits, old(userRequestCounts), r).0
      ensures d == Throttle(routeLimits, old(userRequestCounts), r).1
    {
      var ip := ClientIP(r.header, r.remoteAddr);
      var key := RouteKey(r.httpMethod, r.path);
      if key !in routeLimits || routeLimits[key] == 0 {
        return PassToNext;
      }
      var limit := routeLimits[key];
      var count := GetUserRequestCount(key, ip);
      if count >= limit {
        return RateLimited;
      }
      IncrementUserRequestCount(key, ip);
      return PassToNext;
    }
  }

  /** Running requests one after another on the throttler object yields
      the decisions of Run. */
  method Serve(t: LocalThrottler, rs: seq<Request>) returns (ds: seq<Decision>)
    modifies t
    ensures t.userRequestCounts == Run(t.routeLimits, old(t.userRequestCounts), rs).0
    ensures ds == Run(t.routeLimits, old(t.userRequestCounts), rs).1
  {
    ds := [];
    assert rs[0..] == rs;
    for i := 0 to |rs|
      invariant Run(t.routeLimits, old(t.userRequestCounts), rs).0 == Run(t.routeLimits, t.userRequestCounts, rs[i..]).0
      invariant Run(t.routeLimits, old(t.userRequestCounts), rs).1 == ds + Run(t.routeLimits, t.userRequestCounts, rs[i..]).1
    {
      ghost var before := t.userRequestCounts;
      var d := t.Middleware(rs[i]);
      assert rs[i..][0] == rs[i] && rs[i..][1..] == rs[i + 1..];
      assert Run(t.routeLimits, before, rs[i..]).0 == Run(t.routeLimits, t.userRequestCounts, rs[i + 1..]).0;
      assert Run(t.routeLimits, before, rs[i..]).1 == [d] + Run(t.routeLimits, t.userRequestCounts, rs[i + 1..]).1;
      ds := ds + [d];
    }
    assert rs[|rs|..] == [];
  }

  /** A fresh throttler, one client on one limited key: `rs1` requests, a
      window reset, then `rs2` requests. In each window exactly the first
      `limit` requests pass. */
  method QuotaRestartsAfterReset(routes: seq<Config.Route>, rs1: seq<Request>, rs2: seq<Request>,
                                 key: RouteKey, ip: string) returns (ds1: seq<Decision>, ds2: seq<Decision>)
    requires Limited(LimitsOf(routes), key) && LimitsOf(routes)[key] > 0
    requires SameClientAndKey(rs1, key, ip) && SameClientAndKey(rs2, key, ip)
    ensures |ds1| == |rs1| && |ds2| == |rs2|
    ensures forall i :: 0 <= i < |rs1| ==> (ds1[i] == PassToNext <==> i < LimitsOf(routes)[key])
    ensures forall i :: 0 <= i < |rs2| ==> (ds2[i] == PassToNext <==> i < LimitsOf(routes)[key])
  {
    var t := new LocalThrottler(routes);
    ds1 := Serve(t, rs1);
    FirstNPass(t.routeLimits, rs1, key, ip);
    t.ResetCounts();
    ds2 := Serve(t, rs2);
    FirstNPass(t.routeLimits, rs2, key, ip);
  }
}
