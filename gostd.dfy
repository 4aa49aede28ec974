/** Models of the Go standard-library routines that the gateway's core calls:
    a few `strings` functions, `net.SplitHostPort`, `net/http`'s Header map and
    the int64 type with its wrap-around. Go strings are UTF-8 byte strings; here
    they are sequences of Unicode scalar values, which agrees with Go for valid
    UTF-8 input because UTF-8 is self-synchronising. */
module GoStd {

  datatype Option<T> = None | Some(value: T)

  /** Go's `byte`. */
  newtype byte = b: int | 0 <= b < 256

  /** Go's `int64`, as a range of the unbounded integers. */
  type int64 = x: int | -0x8000_0000_0000_0000 <= x <= 0x7fff_ffff_ffff_ffff

  const Int64Max: int := 0x7fff_ffff_ffff_ffff

  /** Two's-complement wrap-around of a sum into int64, as Go's `+` and
      `atomic.AddInt64` behave. */
  function Wrap64(x: int): (r: int64)
    requires -0x1_0000_0000_0000_0000 <= x <= 0x1_0000_0000_0000_0000
    ensures -0x8000_0000_0000_0000 <= x <= Int64Max ==> r == x
    ensures (r - x) % 0x1_0000_0000_0000_0000 == 0
  {
    if x > Int64Max then x - 0x1_0000_0000_0000_0000
    else if x < -0x8000_0000_0000_0000 then x + 0x1_0000_0000_0000_0000
    else x
  }

  // ---------------------------------------------------------------------------
  // strings

  /** `strings.HasPrefix`. */
  predicate HasPrefix(s: string, prefix: string) {
    |prefix| <= |s| && s[..|prefix|] == prefix
  }

  /** `strings.ContainsAny`: some character of `s` is one of `chars`. */
  predicate ContainsAny(s: string, chars: string) {
    exists i :: 0 <= i < |s| && s[i] in chars
  }

  /** `pat` occurs in `s` starting at index `i`. */
  predicate OccursAt(s: string, pat: string, i: int) {
    0 <= i && i + |pat| <= |s| && s[i..i + |pat|] == pat
  }

  /** `pat` occurs somewhere in `s`, as `strings.Contains` would say. The
      gateway never calls `strings.Contains`; this is the vocabulary in which
      ReplaceAll's behaviour is stated and proved. */
  predicate Contains(s: string, pat: string) {
    exists i :: 0 <= i <= |s| && OccursAt(s, pat, i)
  }

  /** `strings.ReplaceAll` for a non-empty pattern: scans left to right and
      replaces every non-overlapping occurrence of `pat` by `rep`. A string
      with no occurrence comes back unchanged, and a replacement as long as
      the pattern keeps the length. */
  function ReplaceAll(s: string, pat: string, rep: string): (r: string)
    requires |pat| > 0
    ensures !Contains(s, pat) ==> r == s
    ensures |rep| == |pat| ==> |r| == |s|
    decreases |s|
  {
    if |s| < |pat| then s
    else if s[..|pat|] == pat then
      assert OccursAt(s, pat, 0);
      rep + ReplaceAll(s[|pat|..], pat, rep)
    else
      assert !Contains(s, pat) ==> !Contains(s[1..], pat) by {
        forall i | 0 <= i <= |s| - 1 && OccursAt(s[1..], pat, i) ensures OccursAt(s, pat, i + 1) {
          OccursInTail(s, pat, i);
        }
      }
      [s[0]] + ReplaceAll(s[1..], pat, rep)
  }

  /** An occurrence in the tail of `s` is an occurrence in `s`, one place on. */
  lemma OccursInTail(s: string, pat: string, j: int)
    requires |s| > 0 && 0 <= j
    ensures OccursAt(s[1..], pat, j) <==> OccursAt(s, pat, j + 1)
  {
    if 0 <= j && j + |pat| <= |s| - 1 {
      assert s[1..][j..j + |pat|] == s[j + 1..j + 1 + |pat|];
    }
  }

  /** One step of the scan when no occurrence starts at the front. */
  lemma ReplaceAllNoMatchHere(s: string, pat: string, rep: string)
    requires |pat| > 0 && |s| > 0 && !OccursAt(s, pat, 0)
    ensures ReplaceAll(s, pat, rep) == [s[0]] + ReplaceAll(s[1..], pat, rep)
            || (|s| < |pat| && ReplaceAll(s, pat, rep) == s)
  {
  }

  /** A prefix `a` in which no occurrence of `pat` starts is copied verbatim. */
  lemma {:induction false} ReplaceAllSkipsPrefix(a: string, t: string, pat: string, rep: string)
    requires |pat| > 0
    requires forall j :: 0 <= j < |a| ==> !OccursAt(a + t, pat, j)
    ensures ReplaceAll(a + t, pat, rep) == a + ReplaceAll(t, pat, rep)
    decreases |a|
  {
    if a != [] {
      var s := a + t;
      assert s[1..] == a[1..] + t;
      forall j | 0 <= j < |a| - 1 ensures !OccursAt(a[1..] + t, pat, j) {
        OccursInTail(s, pat, j);
      }
      ReplaceAllSkipsPrefix(a[1..], t, pat, rep);
      ReplaceAllNoMatchHere(s, pat, rep);
      if |s| < |pat| {
        assert ReplaceAll(t, pat, rep) == t;
      } else {
        var rt := ReplaceAll(t, pat, rep);
        calc {
          ReplaceAll(s, pat, rep);
          [s[0]] + ReplaceAll(s[1..], pat, rep);
          [a[0]] + (a[1..] + rt);
          ([a[0]] + a[1..]) + rt;
          { assert [a[0]] + a[1..] == a; }
          a + rt;
        }
      }
    } else {
      assert a + t == t;
    }
  }

  /** No proper prefix of `p` is also a suffix of it, so two occurrences of `p`
      can never overlap. */
  predicate BorderFree(p: string) {
    forall m :: 0 < m < |p| ==> p[m..] != p[..|p| - m]
  }

  /** `parts` joined with `sep` in between, as `strings.Join` would build it.
      The gateway never calls `strings.Join`; this is the shape in which a
      path with placeholders is split for the proofs about ReplaceAll. */
  function Join(parts: seq<string>, sep: string): (r: string)
    ensures parts == [] ==> r == []
    decreases |parts|
  {
    if parts == [] then []
    else if |parts| == 1 then parts[0]
    else parts[0] + sep + Join(parts[1..], sep)
  }

  /** In `a + pat + t`, no occurrence of a border-free `pat` starts inside `a`
      when `a` itself holds none. */
  lemma NoOccurrenceStartsInPrefix(a: string, t: string, pat: string, j: int)
    requires |pat| > 0 && BorderFree(pat) && !Contains(a, pat)
    requires 0 <= j < |a|
    ensures !OccursAt(a + pat + t, pat, j)
  {
    var s := a + pat + t;
    if j + |pat| <= |a| {
      assert s[j..j + |pat|] == a[j..j + |pat|];
      assert !OccursAt(a, pat, j);
    } else if j + |pat| <= |s| {
      var m := |a| - j;
      assert pat[m..] != pat[..|pat| - m];
      var i :| 0 <= i < |pat| - m && pat[m + i] != pat[i];
      assert s[j + m + i] == pat[i];
      assert s[j..j + |pat|][m + i] != pat[m + i];
    }
  }

  /** Every occurrence of a border-free pattern that separates pattern-free
      parts is replaced, and nothing else changes. */
  lemma {:induction false} ReplaceAllJoin(parts: seq<string>, pat: string, rep: string)
    requires |pat| > 0 && BorderFree(pat)
    requires forall i :: 0 <= i < |parts| ==> !Contains(parts[i], pat)
    ensures ReplaceAll(Join(parts, pat), pat, rep) == Join(parts, rep)
    decreases |parts|
  {
    if parts == [] {
      assert !Contains([], pat);
    } else if |parts| == 1 {
    } else {
      var a, t := parts[0], Join(parts[1..], pat);
      assert Join(parts, pat) == a + (pat + t);
      forall j | 0 <= j < |a| ensures !OccursAt(a + (pat + t), pat, j) {
        assert a + (pat + t) == a + pat + t;
        NoOccurrenceStartsInPrefix(a, t, pat, j);
      }
      ReplaceAllSkipsPrefix(a, pat + t, pat, rep);
      assert (pat + t)[..|pat|] == pat;
      assert (pat + t)[|pat|..] == t;
      ReplaceAllJoin(parts[1..], pat, rep);
    }
  }

  /** `unicode.IsSpace`. */
  predicate IsSpace(c: char) {
    || c == ' ' || ('\t' <= c <= '\r')
    || c == '\U{85}' || c == '\U{A0}' || c == '\U{1680}'
    || ('\U{2000}' <= c <= '\U{200A}')
    || c == '\U{2028}' || c == '\U{2029}' || c == '\U{202F}' || c == '\U{205F}' || c == '\U{3000}'
  }

  /** How many white-space characters `s` starts with. */
  function LeadingSpaces(s: string): (n: nat)
    ensures n <= |s|
    ensures forall k :: 0 <= k < n ==> IsSpace(s[k])
    ensures n < |s| ==> !IsSpace(s[n])
  {
    if s != [] && IsSpace(s[0]) then 1 + LeadingSpaces(s[1..]) else 0
  }

  function TrimRightSpace(s: string): (r: string)
    ensures |r| <= |s| && r == s[..|r|]
    ensures r == [] || !IsSpace(r[|r| - 1])
    ensures forall i :: |r| <= i < |s| ==> IsSpace(s[i])
  {
    if s != [] && IsSpace(s[|s| - 1]) then TrimRightSpace(s[..|s| - 1]) else s
  }

  /** `strings.TrimSpace`: the infix of `s` left after cutting all leading
      and trailing white space. */
  function TrimSpace(s: string): (r: string)
    ensures var n := LeadingSpaces(s);
      && n + |r| <= |s| && r == s[n..n + |r|]
      && (forall k :: n + |r| <= k < |s| ==> IsSpace(s[k]))
      && (r == [] || (!IsSpace(r[0]) && !IsSpace(r[|r| - 1])))
  {
    TrimRightSpace(s[LeadingSpaces(s)..])
  }

  /** `strings.Split(s, sep)[0]` for a one-character separator: the text before
      the first `sep`, or all of `s`. */
  function FirstField(s: string, sep: char): (r: string)
    ensures HasPrefix(s, r) && sep !in r
    ensures |r| < |s| ==> s[|r|] == sep
  {
    if s == [] || s[0] == sep then [] else [s[0]] + FirstField(s[1..], sep)
  }

  /** Index of the last `c` in `s`, or -1. */
  function LastIndexOf(s: string, c: char): (i: int)
    ensures -1 <= i < |s|
    ensures 0 <= i ==> s[i] == c
    ensures forall k :: i < k < |s| ==> s[k] != c
  {
    if s == [] then -1
    else if s[|s| - 1] == c then |s| - 1
    else LastIndexOf(s[..|s| - 1], c)
  }

  /** Index of the first `c` in `s`, or -1. */
  function IndexOf(s: string, c: char): (i: int)
    ensures -1 <= i < |s|
    ensures 0 <= i ==> s[i] == c
    ensures forall k :: 0 <= k < |s| && (i < 0 || k < i) ==> s[k] != c
  {
    if s == [] then -1
    else if s[0] == c then 0
    else var j := IndexOf(s[1..], c); if j < 0 then -1 else j + 1
  }

  // ---------------------------------------------------------------------------
  // net

  /** `net.SplitHostPort`: splits "host:port", "[host]:port" or
      "[host%zone]:port" at the last colon; `None` stands for its error. */
  function SplitHostPort(hostport: string): (r: Option<(string, string)>)
    ensures ':' !in hostport ==> r.None?
    ensures r.Some? ==> ':' !in r.value.1
    ensures r.Some? ==> '[' !in r.value.0 && ']' !in r.value.0 && '[' !in r.value.1 && ']' !in r.value.1
    ensures r.Some? ==>
      hostport == (if |hostport| > 0 && hostport[0] == '[' then "[" + r.value.0 + "]:" else r.value.0 + ":") + r.value.1
  {
    var i := LastIndexOf(hostport, ':');
    if i < 0 then None
    else if hostport[0] == '[' then
      var end := IndexOf(hostport, ']');
      if end < 0 then None
      else if end + 1 != i then None
      else if '[' in hostport[1..] then None
      else if ']' in hostport[end + 1..] then None
      else Some((hostport[1..end], hostport[i + 1..]))
    else
      var host := hostport[..i];
      if ':' in host then None
      else if '[' in hostport then None
      else if ']' in hostport then None
      else Some((host, hostport[i + 1..]))
  }

  /** `net.JoinHostPort`: brackets a host that holds a colon. */
  function JoinHostPort(host: string, port: string): string {
    if ':' in host then "[" + host + "]:" + port else host + ":" + port
  }

  lemma {:induction false} LastIndexOfAt(s: string, c: char, i: int)
    requires 0 <= i < |s| && s[i] == c
    requires forall k :: i < k < |s| ==> s[k] != c
    ensures LastIndexOf(s, c) == i
    decreases |s|
  {
    if s[|s| - 1] != c {
      LastIndexOfAt(s[..|s| - 1], c, i);
    }
  }

  lemma {:induction false} IndexOfAt(s: string, c: char, i: int)
    requires 0 <= i < |s| && s[i] == c
    requires forall k :: 0 <= k < i ==> s[k] != c
    ensures IndexOf(s, c) == i
    decreases |s|
  {
    if i > 0 {
      IndexOfAt(s[1..], c, i - 1);
    }
  }

  /** SplitHostPort undoes JoinHostPort for bracket-free hosts and ports
      and a colon-free port. */
  lemma SplitJoinHostPort(host: string, port: string)
    requires '[' !in host && ']' !in host
    requires '[' !in port && ']' !in port && ':' !in port
    ensures SplitHostPort(JoinHostPort(host, port)) == Some((host, port))
  {
    if ':' in host {
      SplitJoinBracketed(host, port);
    } else {
      SplitJoinPlain(host, port);
    }
  }

  lemma SplitJoinBracketed(host: string, port: string)
    requires '[' !in host && ']' !in host && ':' in host
    requires '[' !in port && ']' !in port && ':' !in port
    ensures SplitHostPort("[" + host + "]:" + port) == Some((host, port))
  {
    var hp := "[" + host + "]:" + port;
    var i := |host| + 2;
    BracketedLastColon(host, port, hp);
    BracketedFirstClose(host, port, hp);
    assert hp[1..] == host + "]:" + port;
    assert hp[i..] == ":" + port;
    SplitHostPortBracketed(hp, i);
    assert hp[1..i - 1] == host;
    assert hp[i + 1..] == port;
  }

  lemma BracketedLastColon(host: string, port: string, hp: string)
    requires ':' !in port && hp == "[" + host + "]:" + port
    ensures LastIndexOf(hp, ':') == |host| + 2
  {
    var i := |host| + 2;
    forall k | i < k < |hp| ensures hp[k] != ':' {
      assert hp[k] == port[k - i - 1];
    }
    LastIndexOfAt(hp, ':', i);
  }

  lemma BracketedFirstClose(host: string, port: string, hp: string)
    requires ']' !in host && hp == "[" + host + "]:" + port
    ensures IndexOf(hp, ']') == |host| + 1
  {
    forall k | 0 <= k < |host| + 1 ensures hp[k] != ']' {
      if k > 0 { assert hp[k] == host[k - 1]; }
    }
    IndexOfAt(hp, ']', |host| + 1);
  }

  lemma SplitHostPortBracketed(hp: string, i: int)
    requires 0 < i && LastIndexOf(hp, ':') == i && hp[0] == '['
    requires IndexOf(hp, ']') == i - 1
    requires '[' !in hp[1..] && ']' !in hp[i..]
    ensures SplitHostPort(hp) == Some((hp[1..i - 1], hp[i + 1..]))
  {
  }

  lemma SplitJoinPlain(host: string, port: string)
    requires '[' !in host && ']' !in host && ':' !in host
    requires '[' !in port && ']' !in port && ':' !in port
    ensures SplitHostPort(host + ":" + port) == Some((host, port))
  {
    var hp := host + ":" + port;
    var i := |host|;
    LastIndexOfAt(hp, ':', i);
    assert hp[..i] == host;
    assert hp[i + 1..] == port;
    assert hp[0] != '[';
  }

  // ---------------------------------------------------------------------------
  // net/http

  /** A header map from canonical field name to its values, as `http.Header`. */
  type HeaderFields = map<string, seq<string>>

  /** The values of `key`, empty when it is absent. */
  function Values(h: HeaderFields, key: string): (vs: seq<string>)
    ensures key !in h ==> vs == []
  {
    if key in h then h[key] else []
  }

  /** `Header.Get` on a canonical key: the first of its values, or "" when
      it has none. */
  function HeaderGet(h: HeaderFields, key: string): (v: string)
    ensures Values(h, key) == [] ==> v == ""
    ensures Values(h, key) != [] ==> v == Values(h, key)[0]
    ensures v != "" ==> key in h && |h[key]| > 0 && v == h[key][0]
  {
    if key in h && |h[key]| > 0 then h[key][0] else ""
  }

  /** An `http.Header` that callers update in place. */
  class Header {
    var fields: HeaderFields

    constructor (fields: HeaderFields)
      ensures this.fields == fields
    {
      this.fields := fields;
    }

    /** `Header.Add`: appends `value` to the values of `key`. */
    method Add(key: string, value: string)
      modifies this
      ensures fields == old(fields)[key := Values(old(fields), key) + [value]]
    {
      fields := fields[key := Values(fields, key) + [value]];
    }
  }
}
