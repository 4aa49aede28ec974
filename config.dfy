/** The route configuration and its validation (package internal/config):
    each route is checked by an ordered chain of guards that reports the first
    one that fails, and the whole list is checked route by route. */
module Config {
  import opened GoStd

  /** Where a route forwards to. An empty `method` keeps the inbound one. */
  datatype Target = Target(host: string, path: string, httpMethod: string)

  /** One configured route; `target` is `None` when the configuration leaves
      it out (a nil pointer in the source). */
  datatype Route = Route(
    path: string,
    target: Option<Target>,
    httpMethod: string,
    queryParams: seq<string>,
    limit: int64)

  /** The validation errors, one per sentinel error of the source. `HostParse`
      stands for whatever error the URI parser returns. */
  datatype ConfigError =
    | PathNotDefined
    | InvalidPathFormat
    | TargetNotDefined
    | MethodNotDefined
    | InvalidMethod
    | DuplicateQueryParams
    | InvalidLimit
    | HostNotDefined
    | HostParse
    | InvalidMethodOnTarget
    | NoRouteDefined

  /** The result of a validation: Go's `nil` error or the error returned. */
  datatype Outcome = Pass | Fail(error: ConfigError)

  /** The nine methods `net/http` names. */
  const HttpMethods: seq<string> :=
    ["GET", "POST", "PUT", "DELETE", "PATCH", "OPTIONS", "HEAD", "CONNECT", "TRACE"]

  /** `unicode.ToUpper` as far as it can produce an ASCII letter: a-z, the
      dotless i (U+0131) and the long s (U+017F). Every other character is
      kept; Go maps those to characters outside ASCII or leaves them alone,
      which makes no difference to membership in `HttpMethods`. */
  function UpperChar(c: char): (u: char)
    ensures 'A' <= u <= 'Z' ==> ('A' <= c <= 'Z' || 'a' <= c <= 'z' || c == '\U{131}' || c == '\U{17F}')
    ensures 'a' <= c <= 'z' ==> u as int == c as int - 32
  {
    if 'a' <= c <= 'z' then (c as int - 32) as char
    else if c == '\U{131}' then 'I'
    else if c == '\U{17F}' then 'S'
    else c
  }

  /** `strings.ToUpper`, character by character. */
  function ToUpper(s: string): (r: string)
    ensures |r| == |s|
    ensures forall i :: 0 <= i < |s| ==> r[i] == UpperChar(s[i])
  {
    if s == [] then [] else [UpperChar(s[0])] + ToUpper(s[1..])
  }

  /** The case-insensitive reading of the upper-cased membership test: the
      method spells one of the nine verbs letter by letter up to case (Go's
      upper-casing also turns U+0131 into I and U+017F into S). */
  lemma UpperIsMethodIff(m: string)
    ensures ToUpper(m) in HttpMethods <==>
      exists v :: v in HttpMethods && |v| == |m| && forall i :: 0 <= i < |m| ==> UpperChar(m[i]) == v[i]
  {
    if ToUpper(m) in HttpMethods {
      var v := ToUpper(m);
      assert v in HttpMethods && |v| == |m|;
    }
    if exists v :: v in HttpMethods && |v| == |m| && forall i :: 0 <= i < |m| ==> UpperChar(m[i]) == v[i] {
      var v :| v in HttpMethods && |v| == |m| && forall i :: 0 <= i < |m| ==> UpperChar(m[i]) == v[i];
      assert ToUpper(m) == v;
    }
  }

  /** isValidHTTPMethod: the upper-cased method is one of the nine, that is,
      the method is one of them up to case. */
  function IsValidHTTPMethod(httpMethod: string): (valid: bool)
    ensures valid <==>
      exists v {:trigger v in HttpMethods} :: v in HttpMethods && |v| == |httpMethod| &&
        forall i :: 0 <= i < |httpMethod| ==> UpperChar(httpMethod[i]) == v[i]
  {
    UpperIsMethodIff(httpMethod);
    ToUpper(httpMethod) in HttpMethods
  }

  /** isValidPathFormat: the path starts with "/" and holds neither "?" nor
      "#". */
  function IsValidPathFormat(path: string): (ok: bool)
    ensures ok <==> |path| > 0 && path[0] == '/' && forall i :: 0 <= i < |path| ==> path[i] != '?' && path[i] != '#'
  {
    assert |path| > 0 && path[0] == '/' ==> HasPrefix(path, "/");
    HasPrefix(path, "/") && !ContainsAny(path, "?#")
  }

  /** All entries are pairwise distinct. */
  predicate Distinct(params: seq<string>) {
    forall i, j :: 0 <= i < j < |params| ==> params[i] != params[j]
  }

  /** isDuplicateQueryParams: despite its name, true exactly when no entry
      repeats. Grows the set of entries seen so far and stops at the first
      repeat. */
  method IsDuplicateQueryParams(queryParams: seq<string>) returns (distinct: bool)
    ensures distinct <==> Distinct(queryParams)
  {
    var seen: set<string> := {};
    for n := 0 to |queryParams|
      invariant seen == set k | 0 <= k < n :: queryParams[k]
      invariant Distinct(queryParams[..n])
    {
      if queryParams[n] in seen {
        var k :| 0 <= k < n && queryParams[k] == queryParams[n];
        return false;
      }
      seen := seen + {queryParams[n]};
    }
    assert queryParams[..|queryParams|] == queryParams;
    return true;
  }

  /** validateRoute: the guards in source order, first failure wins. It
      passes exactly when every guard holds (a limit of 0 is accepted, only a
      negative one rejected); an empty path is reported as missing, never as
      badly formatted; and a route that passes has a target. */
  function ValidateRoute(r: Route): (o: Outcome)
    ensures o == Pass <==>
      && |r.path| > 0 && r.path[0] == '/'
      && (forall i :: 0 <= i < |r.path| ==> r.path[i] != '?' && r.path[i] != '#')
      && r.target.Some?
      && |r.httpMethod| > 0 && ToUpper(r.httpMethod) in HttpMethods
      && (forall i, j :: 0 <= i < j < |r.queryParams| ==> r.queryParams[i] != r.queryParams[j])
      && r.limit >= 0
    ensures |r.path| == 0 ==> o == Fail(PathNotDefined)
    ensures o == Pass ==> r.target.Some?
  {
    if |r.path| == 0 then Fail(PathNotDefined)
    else if !IsValidPathFormat(r.path) then Fail(InvalidPathFormat)
    else if r.target.None? then Fail(TargetNotDefined)
    else if |r.httpMethod| == 0 then Fail(MethodNotDefined)
    else if !IsValidHTTPMethod(r.httpMethod) then Fail(InvalidMethod)
    else if !Distinct(r.queryParams) then Fail(DuplicateQueryParams)
    else if r.limit < 0 then Fail(InvalidLimit)
    else Pass
  }

  /** validateTarget. `parseRequestURI` says whether `url.ParseRequestURI`
      accepts its argument. It passes exactly when the host is non-empty and
      parses and the method is empty or valid; an empty host is reported
      before the parser is consulted, an unparsable one as a parse error. */
  function ValidateTarget(t: Target, parseRequestURI: string -> bool): (o: Outcome)
    ensures o == Pass <==>
      && |t.host| > 0 && parseRequestURI(t.host)
      && (t.httpMethod == "" || ToUpper(t.httpMethod) in HttpMethods)
    ensures |t.host| == 0 ==> o == Fail(HostNotDefined)
    ensures |t.host| > 0 && !parseRequestURI(t.host) ==> o == Fail(HostParse)
  {
    if |t.host| == 0 then Fail(HostNotDefined)
    else if !parseRequestURI(t.host) then Fail(HostParse)
    else if |t.httpMethod| > 0 && !IsValidHTTPMethod(t.httpMethod) then Fail(InvalidMethodOnTarget)
    else Pass
  }

  /** The error one route contributes in validateAll's loop: its own
      validation first, then its target's, which is only reached with a
      target present. */
  function CheckRoute(r: Route, parseRequestURI: string -> bool): (o: Outcome)
    ensures o == Pass <==> ValidateRoute(r) == Pass && ValidateTarget(r.target.value, parseRequestURI) == Pass
    ensures ValidateRoute(r).Fail? ==> o == ValidateRoute(r)
  {
    match ValidateRoute(r)
    case Fail(e) => Fail(e)
    case Pass => ValidateTarget(r.target.value, parseRequestURI)
  }

  /** The loop of validateAll over the remaining routes: it passes exactly
      when every route passes both its checks, and otherwise reports the error
      of the first route that fails, in list order. */
  function ValidateEach(routes: seq<Route>, parseRequestURI: string -> bool): (o: Outcome)
    ensures o == Pass <==> forall i :: 0 <= i < |routes| ==> CheckRoute(routes[i], parseRequestURI) == Pass
    ensures forall i :: 0 <= i < |routes| && CheckRoute(routes[i], parseRequestURI).Fail? &&
                        (forall j :: 0 <= j < i ==> CheckRoute(routes[j], parseRequestURI) == Pass) ==>
              o == CheckRoute(routes[i], parseRequestURI)
    decreases |routes|
  {
    if routes == [] then Pass
    else
      assert forall i :: 1 <= i < |routes| ==> routes[i] == routes[1..][i - 1];
      match CheckRoute(routes[0], parseRequestURI)
      case Fail(e) => Fail(e)
      case Pass =>
        var rest := ValidateEach(routes[1..], parseRequestURI);
        assert forall i :: 1 <= i < |routes| && CheckRoute(routes[i], parseRequestURI).Fail? &&
                           (forall j :: 0 <= j < i ==> CheckRoute(routes[j], parseRequestURI) == Pass) ==>
                 rest == CheckRoute(routes[i], parseRequestURI) by {
          forall i | 1 <= i < |routes| && CheckRoute(routes[i], parseRequestURI).Fail? &&
                     (forall j :: 0 <= j < i ==> CheckRoute(routes[j], parseRequestURI) == Pass)
            ensures rest == CheckRoute(routes[i], parseRequestURI)
          {
            assert forall j :: 0 <= j < i - 1 ==> routes[1..][j] == routes[j + 1];
          }
        }
        rest
  }

  /** validateAll: an empty list is reported as such; otherwise it passes
      exactly when every route passes validateRoute and then validateTarget. */
  function ValidateAll(routes: seq<Route>, parseRequestURI: string -> bool): (o: Outcome)
    ensures routes == [] ==> o == Fail(NoRouteDefined)
    ensures o == Pass <==>
      && |routes| > 0
      && forall i :: 0 <= i < |routes| ==>
           ValidateRoute(routes[i]) == Pass && ValidateTarget(routes[i].target.value, parseRequestURI) == Pass
  {
    if |routes| == 0 then Fail(NoRouteDefined) else ValidateEach(routes, parseRequestURI)
  }

  // ---------------------------------------------------------------------------
  // What the validators promise

  /** The guard list of validateRoute in source order, each guard paired with
      the error it reports. */
  function RouteGuards(r: Route): seq<(bool, ConfigError)> {
    [ (|r.path| > 0, PathNotDefined),
      (IsValidPathFormat(r.path), InvalidPathFormat),
      (r.target.Some?, TargetNotDefined),
      (|r.httpMethod| > 0, MethodNotDefined),
      (IsValidHTTPMethod(r.httpMethod), InvalidMethod),
      (Distinct(r.queryParams), DuplicateQueryParams),
      (r.limit >= 0, InvalidLimit) ]
  }

  /** The error of the first guard that does not hold, or Pass. */
  function FirstFailure(guards: seq<(bool, ConfigError)>): Outcome
    decreases |guards|
  {
    if guards == [] then Pass
    else if !guards[0].0 then Fail(guards[0].1)
    else FirstFailure(guards[1..])
  }

  /** FirstFailure passes exactly when every guard holds, and otherwise
      reports the error of a failing guard all of whose predecessors hold. */
  lemma {:induction false} FirstFailureSpec(guards: seq<(bool, ConfigError)>)
    ensures FirstFailure(guards) == Pass <==> forall i :: 0 <= i < |guards| ==> guards[i].0
    ensures FirstFailure(guards).Fail? ==>
      exists i :: 0 <= i < |guards| && !guards[i].0 && guards[i].1 == FirstFailure(guards).error
        && forall j :: 0 <= j < i ==> guards[j].0
    decreases |guards|
  {
    if guards != [] && guards[0].0 {
      FirstFailureSpec(guards[1..]);
      assert forall i :: 1 <= i < |guards| ==> guards[i] == guards[1..][i - 1];
      if FirstFailure(guards).Fail? {
        var i :| 0 <= i < |guards[1..]| && !guards[1..][i].0 && guards[1..][i].1 == FirstFailure(guards).error
          && forall j :: 0 <= j < i ==> guards[1..][j].0;
        assert !guards[i + 1].0 && guards[i + 1].1 == FirstFailure(guards).error;
        assert forall j :: 0 <= j < i + 1 ==> guards[j].0;
      }
    }
  }

  /** validateRoute reports the first failing guard, in source order. */
  lemma ValidateRouteIsFirstFailure(r: Route)
    ensures ValidateRoute(r) == FirstFailure(RouteGuards(r))
  {
    var g := RouteGuards(r);
    assert FirstFailure(g[6..]) == (if g[6].0 then Pass else Fail(g[6].1)) by {
      assert g[6..][1..] == [];
    }
    assert FirstFailure(g[5..]) == (if g[5].0 then FirstFailure(g[6..]) else Fail(g[5].1)) by {
      assert g[5..][1..] == g[6..];
    }
    assert FirstFailure(g[4..]) == (if g[4].0 then FirstFailure(g[5..]) else Fail(g[4].1)) by {
      assert g[4..][1..] == g[5..];
    }
    assert FirstFailure(g[3..]) == (if g[3].0 then FirstFailure(g[4..]) else Fail(g[3].1)) by {
      assert g[3..][1..] == g[4..];
    }
    assert FirstFailure(g[2..]) == (if g[2].0 then FirstFailure(g[3..]) else Fail(g[2].1)) by {
      assert g[2..][1..] == g[3..];
    }
    assert FirstFailure(g[1..]) == (if g[1].0 then FirstFailure(g[2..]) else Fail(g[1].1)) by {
      assert g[1..][1..] == g[2..];
    }
  }

  /** "get", "Get" and "GET" are all valid. */
  lemma GetAnyCaseValid()
    ensures IsValidHTTPMethod("get") && IsValidHTTPMethod("Get") && IsValidHTTPMethod("GET")
  {
    assert ToUpper("get") == "GET";
    assert ToUpper("Get") == "GET";
    assert ToUpper("GET") == "GET";
  }

  /** "delete" is valid. */
  lemma DeleteLowerValid()
    ensures IsValidHTTPMethod("delete")
  {
    assert ToUpper("delete") == "DELETE";
  }

  /** "FETCH" and the empty method are not valid. */
  lemma UnknownMethodsInvalid()
    ensures !IsValidHTTPMethod("FETCH") && !IsValidHTTPMethod("")
  {
    assert ToUpper("FETCH") == "FETCH";
  }

  /** validateTarget rejects an empty host before the parser is consulted. */
  lemma EmptyHostBeforeParsing(t: Target, p: string -> bool, q: string -> bool)
    requires t.host == ""
    ensures ValidateTarget(t, p) == ValidateTarget(t, q) == Fail(HostNotDefined)
  {
  }
}
