/** Target resolution (internal/routes/routes.go): the query allow-set built
    once per route, `{name}` substitution in the target path, query filtering
    against the allow-set, and additive header copying. URL parsing,
    reference resolution and query encoding are Go library calls and are kept
    abstract. */
module Routes {
  import opened GoStd
  import Config

  /** A parsed query: each key with its values in order (`url.Values`). */
  type Query = map<string, seq<string>>

  // ---------------------------------------------------------------------------
  // The allow-set of CreateHandler

  /** The entries of `params` before the first "*", or all of them. */
  function BeforeWildcard(params: seq<string>): (r: seq<string>)
    ensures |r| <= |params| && r == params[..|r|]
    ensures "*" !in r
    ensures |r| < |params| ==> params[|r|] == "*"
  {
    if params == [] || params[0] == "*" then [] else [params[0]] + BeforeWildcard(params[1..])
  }

  /** The prefix BeforeWildcard picks is the only one that ends at the first
      "*" or at the end. */
  lemma {:induction false} BeforeWildcardAt(params: seq<string>, i: int)
    requires 0 <= i <= |params| && "*" !in params[..i]
    requires i == |params| || params[i] == "*"
    ensures BeforeWildcard(params) == params[..i]
    decreases i
  {
    if i > 0 {
      assert params[0] == params[..i][0];
      var tail := params[1..];
      assert tail[..i - 1] == params[..i][1..];
      BeforeWildcardAt(tail, i - 1);
      assert params[..i] == [params[0]] + tail[..i - 1];
    }
  }

  /** CreateHandler's loop over the route's query_params: collects entries
      into the allow-set until it meets "*", which sets allowAll and stops. */
  method AllowedParams(queryParams: seq<string>) returns (allowed: set<string>, allowAll: bool)
    ensures allowAll <==> "*" in queryParams
    ensures allowed == set p | p in BeforeWildcard(queryParams)
    ensures "*" !in queryParams ==> allowed == set p | p in queryParams
  {
    allowed, allowAll := {}, false;
    var i := 0;
    while i < |queryParams|
      invariant 0 <= i <= |queryParams|
      invariant "*" !in queryParams[..i]
      invariant allowed == set p | p in queryParams[..i]
      invariant !allowAll
    {
      if queryParams[i] == "*" {
        allowAll := true;
        break;
      }
      assert queryParams[..i + 1] == queryParams[..i] + [queryParams[i]];
      allowed := allowed + {queryParams[i]};
      i := i + 1;
    }
    BeforeWildcardAt(queryParams, i);
    if allowAll {
      assert queryParams[i] in queryParams;
    } else {
      assert queryParams[..i] == queryParams;
    }
  }

  // ---------------------------------------------------------------------------
  // replacePathVariables

  /** The placeholder for a variable: "{" + name + "}". */
  function Placeholder(key: string): string {
    "{" + key + "}"
  }

  /** The substitutions replacePathVariables makes, one binding after another
      in the order `vars` lists them (Go's map order, which is unspecified).
      A path that holds no placeholder of any bound variable comes back
      unchanged; in particular no bindings change nothing. */
  function SubstituteAll(path: string, vars: seq<(string, string)>): (r: string)
    ensures (forall i :: 0 <= i < |vars| ==> !Contains(path, Placeholder(vars[i].0))) ==> r == path
    decreases |vars|
  {
    if vars == [] then path
    else
      assert forall i :: 1 <= i < |vars| ==> vars[1..][i - 1] == vars[i];
      SubstituteAll(ReplaceAll(path, Placeholder(vars[0].0), vars[0].1), vars[1..])
  }

  /** replacePathVariables. */
  method ReplacePathVariables(path: string, vars: seq<(string, string)>) returns (result: string)
    ensures result == SubstituteAll(path, vars)
  {
    result := path;
    for i := 0 to |vars|
      invariant SubstituteAll(path, vars) == SubstituteAll(result, vars[i..])
    {
      assert vars[i..][1..] == vars[i + 1..];
      result := ReplaceAll(result, Placeholder(vars[i].0), vars[i].1);
    }
    assert vars[|vars|..] == [];
  }

  /** A placeholder whose name has no "{" cannot overlap itself. */
  lemma PlaceholderBorderFree(key: string)
    requires '{' !in key
    ensures BorderFree(Placeholder(key))
  {
    var p := Placeholder(key);
    forall m | 0 < m < |p| ensures p[m..] != p[..|p| - m] {
      assert p[..|p| - m][0] == '{';
      if m < |p| - 1 {
        assert p[m] == key[m - 1];
      }
    }
  }

  /** Text without "{" holds no placeholder. */
  lemma NoBraceNoPlaceholder(s: string, key: string)
    requires '{' !in s
    ensures !Contains(s, Placeholder(key))
  {
    var p := Placeholder(key);
    forall i | 0 <= i <= |s| ensures !OccursAt(s, p, i) {
      if i + |p| <= |s| {
        assert s[i] in s;
        assert s[i..i + |p|][0] != p[0];
      }
    }
  }

  /** A single binding k -> v replaces every occurrence of "{k}" by v and
      leaves the text between occurrences alone. */
  lemma SingleBinding(parts: seq<string>, key: string, value: string)
    requires '{' !in key
    requires forall i :: 0 <= i < |parts| ==> !Contains(parts[i], Placeholder(key))
    ensures SubstituteAll(Join(parts, Placeholder(key)), [(key, value)]) == Join(parts, value)
  {
    PlaceholderBorderFree(key);
    ReplaceAllJoin(parts, Placeholder(key), value);
  }

  /** A path ending in one placeholder, with no other brace, gets the bound
      value in its place. */
  lemma TrailingPlaceholder(prefix: string, key: string, value: string)
    requires '{' !in prefix && '{' !in key
    ensures SubstituteAll(prefix + Placeholder(key), [(key, value)]) == prefix + value
  {
    var parts := [prefix, ""];
    NoBraceNoPlaceholder(prefix, key);
    NoBraceNoPlaceholder("", key);
    assert parts[1..] == [""];
    assert Join(parts[1..], Placeholder(key)) == "";
    assert Join(parts, Placeholder(key)) == prefix + Placeholder(key) + "";
    assert prefix + Placeholder(key) + "" == prefix + Placeholder(key);
    assert Join(parts, value) == prefix + value + "";
    assert prefix + value + "" == prefix + value;
    SingleBinding(parts, key, value);
  }

  /** "/users/{id}" with id = 42 becomes "/users/42". */
  lemma SubstitutionExample()
    ensures SubstituteAll("/users/{id}", [("id", "42")]) == "/users/42"
  {
    TrailingPlaceholder("/users/", "id", "42");
    assert "/users/" + Placeholder("id") == "/users/{id}";
  }

  /** "/v1/items/{id}" with id = 7 becomes "/v1/items/7". */
  lemma NestedSubstitutionExample()
    ensures SubstituteAll("/v1/items/{id}", [("id", "7")]) == "/v1/items/7"
  {
    TrailingPlaceholder("/v1/items/", "id", "7");
    assert "/v1/items/" + Placeholder("id") == "/v1/items/{id}";
  }

  // ---------------------------------------------------------------------------
  // Several bindings

  /** A target path read as literal text and `{key}` placeholders. */
  datatype Segment = Lit(text: string) | Slot(key: string)

  /** The text of one segment. */
  function SegmentText(g: Segment): string {
    match g
    case Lit(t) => t
    case Slot(k) => Placeholder(k)
  }

  /** The path the segments spell. */
  function Render(items: seq<Segment>): string
    decreases |items|
  {
    if items == [] then "" else SegmentText(items[0]) + Render(items[1..])
  }

  /** Every placeholder whose key `env` binds becomes the bound text. */
  function Resolve(items: seq<Segment>, env: map<string, string>): (out: seq<Segment>)
    ensures |out| == |items|
    decreases |items|
  {
    if items == [] then []
    else
      var g := match items[0]
        case Slot(k) => if k in env then Lit(env[k]) else items[0]
        case Lit(_) => items[0];
      [g] + Resolve(items[1..], env)
  }

  /** No literal text holds "{" and no key holds "{" or "}". */
  predicate WellBraced(items: seq<Segment>) {
    forall i :: 0 <= i < |items| ==>
      match items[i]
      case Lit(t) => '{' !in t
      case Slot(k) => '{' !in k && '}' !in k
  }

  /** No placeholder of a brace-free key starts inside text without "{". */
  lemma NoPlaceholderInLit(a: string, t: string, key: string)
    requires '{' !in a
    ensures forall j :: 0 <= j < |a| ==> !OccursAt(a + t, Placeholder(key), j)
  {
    var p := Placeholder(key);
    forall j | 0 <= j < |a| ensures !OccursAt(a + t, p, j) {
      assert a[j] in a;
      if j + |p| <= |a + t| {
        assert (a + t)[j..j + |p|][0] == a[j] != p[0];
      }
    }
  }

  /** No placeholder of `key` starts inside the placeholder of another
      brace-free key. */
  lemma NoPlaceholderInSlot(other: string, t: string, key: string)
    requires '{' !in other && '}' !in other && '{' !in key && '}' !in key
    requires other != key
    ensures forall j :: 0 <= j < |Placeholder(other)| ==> !OccursAt(Placeholder(other) + t, Placeholder(key), j)
  {
    var a, p := Placeholder(other), Placeholder(key);
    var s := a + t;
    forall j | 0 <= j < |a| ensures !OccursAt(s, p, j) {
      if j + |p| <= |s| {
        var w := s[j..j + |p|];
        if 0 < j < |a| - 1 {
          assert other[j - 1] in other;
          assert w[0] == other[j - 1] != p[0];
        } else if j == |a| - 1 {
          assert w[0] == '}' != p[0];
        } else if |p| == |a| {
          assert w == a;
          assert a[1..|a| - 1] == other != key == p[1..|p| - 1];
        } else if |p| < |a| {
          assert other[|p| - 2] in other;
          assert w[|p| - 1] == other[|p| - 2] != p[|p| - 1];
        } else {
          assert key[|a| - 2] in key;
          assert w[|a| - 1] == '}' != key[|a| - 2] == p[|a| - 1];
        }
      }
    }
  }

  /** One binding rewrites every placeholder of its key and nothing else. */
  lemma {:induction false} ReplaceRendered(items: seq<Segment>, key: string, value: string)
    requires WellBraced(items) && '{' !in key && '}' !in key
    ensures ReplaceAll(Render(items), Placeholder(key), value) == Render(Resolve(items, map[key := value]))
    decreases |items|
  {
    var p := Placeholder(key);
    if items != [] {
      var t := Render(items[1..]);
      assert WellBraced(items[1..]) by {
        forall i | 0 <= i < |items[1..]| ensures items[1..][i] == items[i + 1] { }
      }
      ReplaceRendered(items[1..], key, value);
      match items[0]
      case Lit(a) =>
        assert '{' !in a by { assert items[0] == Lit(a); }
        NoPlaceholderInLit(a, t, key);
        ReplaceAllSkipsPrefix(a, t, p, value);
      case Slot(k) =>
        assert '{' !in k && '}' !in k by { assert items[0] == Slot(k); }
        if k == key {
          assert (p + t)[..|p|] == p && (p + t)[|p|..] == t;
        } else {
          NoPlaceholderInSlot(k, t, key);
          ReplaceAllSkipsPrefix(Placeholder(k), t, p, value);
        }
    }
  }

  /** Binding `key` first and the rest of `env` after is binding all at once. */
  lemma {:induction false} ResolveTwice(items: seq<Segment>, key: string, value: string, env: map<string, string>)
    ensures Resolve(Resolve(items, map[key := value]), env) == Resolve(items, env[key := value])
    decreases |items|
  {
    if items != [] {
      ResolveTwice(items[1..], key, value, env);
      assert Resolve(items, map[key := value])[1..] == Resolve(items[1..], map[key := value]);
    }
  }

  /** Resolving with brace-free values keeps the segments well braced. */
  lemma {:induction false} ResolveWellBraced(items: seq<Segment>, env: map<string, string>)
    requires WellBraced(items)
    requires forall k :: k in env ==> '{' !in env[k]
    ensures WellBraced(Resolve(items, env))
    decreases |items|
  {
    if items != [] {
      assert WellBraced(items[1..]) by {
        forall i | 0 <= i < |items[1..]| ensures items[1..][i] == items[i + 1] { }
      }
      ResolveWellBraced(items[1..], env);
      var out := Resolve(items, env);
      forall i | 0 <= i < |out|
        ensures match out[i]
                case Lit(t) => '{' !in t
                case Slot(k) => '{' !in k && '}' !in k
      {
        if i > 0 {
          assert out[i] == Resolve(items[1..], env)[i - 1];
        }
      }
    }
  }

  /** The bindings as a map, an earlier binding of a key winning over a later
      one, since the earlier one leaves no placeholder for the later. */
  function EnvOf(vars: seq<(string, string)>): (env: map<string, string>)
    ensures env.Keys == set i | 0 <= i < |vars| :: vars[i].0
    decreases |vars|
  {
    if vars == [] then map[]
    else
      var rest := EnvOf(vars[1..]);
      assert rest.Keys == set i | 1 <= i < |vars| :: vars[i].0 by {
        forall k | k in rest.Keys ensures exists i :: 1 <= i < |vars| && vars[i].0 == k {
          var i :| 0 <= i < |vars[1..]| && vars[1..][i].0 == k;
          assert vars[i + 1].0 == k;
        }
      }
      rest[vars[0].0 := vars[0].1]
  }

  /** Bindings that all agree with `env` give `env`'s values. */
  lemma {:induction false} EnvOfAgrees(vars: seq<(string, string)>, env: map<string, string>)
    requires forall i :: 0 <= i < |vars| ==> vars[i].0 in env && env[vars[i].0] == vars[i].1
    ensures forall k :: k in EnvOf(vars) ==> EnvOf(vars)[k] == env[k]
    decreases |vars|
  {
    if vars != [] {
      assert forall i :: 0 <= i < |vars[1..]| ==> vars[1..][i] == vars[i + 1];
      EnvOfAgrees(vars[1..], env);
    }
  }

  /** Substitution in binding order resolves every placeholder through the
      bindings' map. */
  lemma {:induction false} SubstituteResolves(items: seq<Segment>, vars: seq<(string, string)>)
    requires WellBraced(items)
    requires forall i :: 0 <= i < |vars| ==> '{' !in vars[i].0 && '}' !in vars[i].0 && '{' !in vars[i].1
    ensures SubstituteAll(Render(items), vars) == Render(Resolve(items, EnvOf(vars)))
    decreases |vars|
  {
    if vars == [] {
      assert Resolve(items, map[]) == items by { ResolveNothing(items); }
    } else {
      var (k, v) := vars[0];
      var bound := Resolve(items, map[k := v]);
      ReplaceRendered(items, k, v);
      ResolveWellBraced(items, map[k := v]);
      assert forall i :: 0 <= i < |vars[1..]| ==> vars[1..][i] == vars[i + 1];
      SubstituteResolves(bound, vars[1..]);
      ResolveTwice(items, k, v, EnvOf(vars[1..]));
    }
  }

  /** The empty map resolves nothing. */
  lemma {:induction false} ResolveNothing(items: seq<Segment>)
    ensures Resolve(items, map[]) == items
    decreases |items|
  {
    if items != [] {
      ResolveNothing(items[1..]);
    }
  }

  /** replacePathVariables with every variable of a route bound once: when no
      key holds a brace and neither the values nor the literal text of the
      path hold "{", the result replaces each placeholder by its variable's
      value, whatever order the map hands the bindings out in. */
  lemma SubstitutionIgnoresOrder(items: seq<Segment>, vars: seq<(string, string)>, env: map<string, string>)
    requires WellBraced(items)
    requires env.Keys == set i | 0 <= i < |vars| :: vars[i].0
    requires forall i :: 0 <= i < |vars| ==> vars[i].0 in env && env[vars[i].0] == vars[i].1
    requires forall k :: k in env ==> '{' !in k && '}' !in k && '{' !in env[k]
    ensures SubstituteAll(Render(items), vars) == Render(Resolve(items, env))
  {
    SubstituteResolves(items, vars);
    EnvOfAgrees(vars, env);
    assert EnvOf(vars) == env;
  }

  /** Without the brace conditions the order matters: a value that is itself
      a placeholder is rewritten again when its binding comes later. */
  lemma BracedValueOrderMatters()
    ensures SubstituteAll("{a}", [("a", "{b}"), ("b", "x")]) == "x"
    ensures SubstituteAll("{a}", [("b", "x"), ("a", "{b}")]) == "{b}"
  {
    var slotA, slotB := [Slot("a")], [Slot("b")];
    assert Render(slotA) == "{a}" && Render(slotB) == "{b}";
    ReplaceRendered(slotA, "a", "{b}");
    assert Render(Resolve(slotA, map["a" := "{b}"])) == "{b}";
    ReplaceRendered(slotB, "b", "x");
    assert Render(Resolve(slotB, map["b" := "x"])) == "x";
    ReplaceRendered(slotA, "b", "x");
    assert Render(Resolve(slotA, map["b" := "x"])) == "{a}";
    assert [("a", "{b}"), ("b", "x")][1..] == [("b", "x")];
    assert [("b", "x"), ("a", "{b}")][1..] == [("a", "{b}")];
  }

  // ---------------------------------------------------------------------------
  // The query of the target URL (parseTargetURL)

  /** The filtering loop of parseTargetURL: keeps the inbound keys that are in
      the allow-set, each with its whole list of values. The keys are visited
      in no particular order, as Go's map iteration is. */
  method FilterQuery(query: Query, allowed: set<string>) returns (filtered: Query)
    ensures filtered.Keys == query.Keys * allowed
    ensures forall k :: k in filtered ==> filtered[k] == query[k]
  {
    filtered := map[];
    var pending := query.Keys;
    while pending != {}
      invariant pending <= query.Keys
      invariant filtered.Keys == (query.Keys - pending) * allowed
      invariant forall k :: k in filtered ==> filtered[k] == query[k]
      decreases |pending|
    {
      var key :| key in pending;
      if key in allowed {
        filtered := filtered[key := query[key]];
      }
      pending := pending - {key};
    }
  }

  /** The query part of the outbound URL: the inbound raw query verbatim, or
      the filtered values that `url.Values.Encode` will serialise. */
  datatype OutboundQuery = Verbatim(raw: string) | Encoded(values: Query)

  /** What parseTargetURL reads of the inbound URL: its raw query and that
      query as `URL.Query()` parses it. */
  datatype InboundURL = InboundURL(path: string, rawQuery: string, query: Query)

  /** The URL parseTargetURL builds: the target host as base, the substituted
      path that `ResolveReference` resolves against it, and the query. */
  datatype TargetURL = TargetURL(base: string, referencePath: string, query: OutboundQuery)

  /** parseTargetURL's result: its error, or the URL. */
  datatype Resolution = InvalidTarget | Resolved(url: TargetURL)

  /** parseTargetURL. `parseURL` says whether `url.Parse` accepts the host. */
  method ParseTargetURL(inbound: InboundURL, vars: seq<(string, string)>, allowed: set<string>, allowAll: bool,
                        target: Config.Target, parseURL: string -> bool) returns (res: Resolution)
    ensures !parseURL(target.host) <==> res == InvalidTarget
    ensures res.Resolved? ==> res.url.base == target.host
    ensures res.Resolved? ==> res.url.referencePath == SubstituteAll(target.path, vars)
    ensures res.Resolved? && allowAll ==> res.url.query == Verbatim(inbound.rawQuery)
    ensures res.Resolved? && !allowAll ==>
              && res.url.query.Encoded?
              && res.url.query.values.Keys == inbound.query.Keys * allowed
              && forall k :: k in res.url.query.values ==> res.url.query.values[k] == inbound.query[k]
  {
    var targetPath := ReplacePathVariables(target.path, vars);
    if !parseURL(target.host) {
      return InvalidTarget;
    }
    var query: OutboundQuery;
    if allowAll {
      query := Verbatim(inbound.rawQuery);
    } else {
      var filtered := FilterQuery(inbound.query, allowed);
      query := Encoded(filtered);
    }
    return Resolved(TargetURL(target.host, targetPath, query));
  }

  /** The route's allow-list drives the outbound query: with "*" the raw query
      passes verbatim; without it, exactly the listed keys before any "*"
      survive with all their values, and an empty list keeps nothing. */
  method RouteQuery(queryParams: seq<string>, inbound: InboundURL) returns (q: OutboundQuery)
    ensures "*" in queryParams ==> q == Verbatim(inbound.rawQuery)
    ensures "*" !in queryParams ==>
              && q.Encoded?
              && q.values.Keys == inbound.query.Keys * (set p | p in queryParams)
              && forall k :: k in q.values ==> q.values[k] == inbound.query[k]
    ensures queryParams == [] ==> q == Encoded(map[])
  {
    var allowed, allowAll := AllowedParams(queryParams);
    if allowAll {
      q := Verbatim(inbound.rawQuery);
    } else {
      var filtered := FilterQuery(inbound.query, allowed);
      q := Encoded(filtered);
    }
  }

  // ---------------------------------------------------------------------------
  // copyHeaders

  /** The header map after appending every value of `src` to `dst`: each key
      keeps its prior values and gains `src`'s after them, in order; a key
      `src` lacks is untouched, and a key of `src` with no values adds no
      entry. */
  function Appended(dst: HeaderFields, src: HeaderFields): (merged: HeaderFields)
    ensures forall k :: Values(merged, k) == Values(dst, k) + Values(src, k)
    ensures forall k :: k in merged <==> k in dst || (k in src && src[k] != [])
    ensures forall k :: k !in src && k in dst ==> merged[k] == dst[k]
  {
    var merged := map k | k in dst.Keys + (set k | k in src && src[k] != []) :: Values(dst, k) + Values(src, k);
    assert forall k :: Values(merged, k) == Values(dst, k) + Values(src, k) by {
      forall k ensures Values(merged, k) == Values(dst, k) + Values(src, k) {
        if k !in merged {
          assert Values(src, k) == [];
        }
      }
    }
    merged
  }

  /** Under the Go library's ReverseProxy, which hands Director a clone of the
      inbound request, copyHeaders(req.Header, r.Header) appends a header to
      itself: every inbound value then arrives twice. */
  lemma SelfCopyDuplicates(h: HeaderFields)
    ensures forall k :: Values(Appended(h, h), k) == Values(h, k) + Values(h, k)
  {
  }

  /** The part of `src` whose keys are in `keys`. */
  function Restrict(src: HeaderFields, keys: set<string>): HeaderFields {
    map k | k in src && k in keys :: src[k]
  }

  /** The fields after adding `vv[..j]` under `k` one value at a time. */
  function AddedPrefix(m: HeaderFields, k: string, vv: seq<string>, j: nat): HeaderFields
    requires j <= |vv|
  {
    if j == 0 then m else m[k := Values(m, k) + vv[..j]]
  }

  /** One more `Header.Add` extends the prefix by one value. */
  lemma AddedPrefixStep(m: HeaderFields, k: string, vv: seq<string>, j: nat)
    requires j < |vv|
    ensures var before := AddedPrefix(m, k, vv, j);
            before[k := Values(before, k) + [vv[j]]] == AddedPrefix(m, k, vv, j + 1)
  {
    var before := AddedPrefix(m, k, vv, j);
    assert vv[..j + 1] == vv[..j] + [vv[j]];
    assert Values(before, k) + [vv[j]] == Values(m, k) + vv[..j + 1];
  }

  /** The inner loop of copyHeaders: adds each value of one key in order. */
  method AddValues(dst: Header, k: string, vv: seq<string>)
    modifies dst
    ensures dst.fields == AddedPrefix(old(dst.fields), k, vv, |vv|)
  {
    for j := 0 to |vv|
      invariant dst.fields == AddedPrefix(old(dst.fields), k, vv, j)
    {
      AddedPrefixStep(old(dst.fields), k, vv, j);
      dst.Add(k, vv[j]);
    }
  }

  /** Appending nothing leaves the fields as they are. */
  lemma AppendedNone(dst: HeaderFields, src: HeaderFields)
    ensures Appended(dst, Restrict(src, {})) == dst
  {
    var none := Restrict(src, {});
    assert none.Keys == {};
    forall k | k in dst ensures Appended(dst, none)[k] == dst[k] {
      assert Values(none, k) == [];
    }
  }

  /** Adding the values of one more pending key to an append of the keys
      already done. */
  lemma AppendedStep(dst: HeaderFields, src: HeaderFields, pending: set<string>, k: string)
    requires pending <= src.Keys && k in pending
    ensures Appended(dst, Restrict(src, src.Keys - (pending - {k})))
              == AddedPrefix(Appended(dst, Restrict(src, src.Keys - pending)), k, src[k], |src[k]|)
  {
    var done := src.Keys - pending;
    assert src.Keys - (pending - {k}) == done + {k};
    var m := Appended(dst, Restrict(src, done));
    var after := Appended(dst, Restrict(src, done + {k}));
    var added := AddedPrefix(m, k, src[k], |src[k]|);
    assert src[k][..|src[k]|] == src[k];
    forall x ensures Values(after, x) == Values(added, x) && (x in after <==> x in added) {
      assert Values(Restrict(src, done + {k}), x)
             == if x == k then src[k] else Values(Restrict(src, done), x);
      assert Values(Restrict(src, done), k) == [];
    }
    assert after == added;
  }

  /** copyHeaders: every value of every `src` key is added to `dst` in turn. */
  method CopyHeaders(dst: Header, src: HeaderFields)
    modifies dst
    ensures dst.fields == Appended(old(dst.fields), src)
  {
    var pending := src.Keys;
    AppendedNone(dst.fields, src);
    while pending != {}
      invariant pending <= src.Keys
      invariant dst.fields == Appended(old(dst.fields), Restrict(src, src.Keys - pending))
      decreases |pending|
    {
      var k :| k in pending;
      AppendedStep(old(dst.fields), src, pending, k);
      AddValues(dst, k, src[k]);
      pending := pending - {k};
    }
    assert Restrict(src, src.Keys) == src;
  }
}
