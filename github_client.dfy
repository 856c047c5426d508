/** The two decision procedures of the tracker-API client
    (coding_agents/core/github/client.py): validation of the configured base
    URL, and the bounded retry of an API call on rate-limit errors. */
module GitHubClient {
  import opened Outcomes
  import opened Text

  const DefaultBaseUrl: string := "https://api.github.com"

  /** `urlparse` deletes every tab, carriage return and line feed, keeping
      the other characters in order. */
  function DropUnsafe(s: string): (r: string)
    ensures NoUnsafe(r)
  {
    if s == [] then []
    else if s[0] == '\t' || s[0] == '\r' || s[0] == '\n' then DropUnsafe(s[1..])
    else [s[0]] + DropUnsafe(s[1..])
  }

  /** No tab, carriage return or line feed. */
  predicate NoUnsafe(s: string) {
    forall k :: 0 <= k < |s| ==> s[k] != '\t' && s[k] != '\r' && s[k] != '\n'
  }

  /** The deletion keeps exactly the characters other than tab, carriage
      return and line feed. */
  lemma {:induction false} DropUnsafeMembers(s: string)
    ensures forall c :: c in DropUnsafe(s) <==> c in s && c != '\t' && c != '\r' && c != '\n'
    decreases |s|
  {
    if s != [] {
      DropUnsafeMembers(s[1..]);
      assert s == [s[0]] + s[1..];
    }
  }

  /** The deletion distributes over concatenation. */
  lemma {:induction false} DropUnsafeAppend(a: string, b: string)
    ensures DropUnsafe(a + b) == DropUnsafe(a) + DropUnsafe(b)
    decreases |a|
  {
    if a == [] {
      assert a + b == b;
    } else {
      assert (a + b)[1..] == a[1..] + b;
      DropUnsafeAppend(a[1..], b);
    }
  }

  /** It also strips the leading C0 control characters and spaces: the
      result is the suffix after the longest leading run of characters up to
      and including the space. */
  function LStripControl(s: string): (r: string)
    ensures |r| <= |s| && r == s[|s| - |r|..]
    ensures forall k :: 0 <= k < |s| - |r| ==> s[k] <= ' '
    ensures r == [] || r[0] > ' '
  {
    if |s| > 0 && s[0] <= ' ' then LStripControl(s[1..]) else s
  }

  /** The text `urlparse` reads, after the deletion and the strip. */
  function Cleaned(u: string): string {
    LStripControl(DropUnsafe(u))
  }

  predicate IsSchemeChar(c: char) {
    IsAsciiLetter(c) || IsDigit(c) || c == '+' || c == '-' || c == '.'
  }

  /** The text before position `i` of `v` is a scheme: non-empty, starting
      with an ASCII letter, holding only scheme characters, and followed by
      the colon at `i`. */
  predicate SchemeBefore(v: string, i: nat) {
    0 < i < |v| && IsAsciiLetter(v[0]) && forall k :: 0 <= k < i ==> IsSchemeChar(v[k])
  }

  /** The `scheme` field of `urlparse(u)`: the lower-cased text before the first
      colon when that text is a scheme; otherwise empty. */
  function Scheme(u: string): string {
    var v := Cleaned(u);
    var i := Find(v, ':');
    if SchemeBefore(v, i) then Lower(v[..i]) else []
  }

  /** What `urlparse` reads after the scheme and its colon; all of the
      cleaned text when there is no scheme. */
  function AfterScheme(u: string): string {
    var v := Cleaned(u);
    var i := Find(v, ':');
    if SchemeBefore(v, i) then v[i + 1..] else v
  }

  /** The first position at or after `i` holding `/`, `?` or `#`, or the end. */
  function HostEnd(s: string, i: nat): (e: nat)
    requires i <= |s|
    ensures i <= e <= |s|
    ensures forall k :: i <= k < e ==> s[k] != '/' && s[k] != '?' && s[k] != '#'
    ensures e < |s| ==> s[e] == '/' || s[e] == '?' || s[e] == '#'
    decreases |s| - i
  {
    if i == |s| || s[i] == '/' || s[i] == '?' || s[i] == '#' then i else HostEnd(s, i + 1)
  }

  /** The network location: after a leading `//`, the text up to the first
      `/`, `?` or `#`; empty when the text does not start with `//`. */
  function Netloc(rest: string): string {
    if |rest| >= 2 && rest[0] == '/' && rest[1] == '/' then rest[2..HostEnd(rest, 2)] else []
  }

  /** `urlparse` raises ValueError (an invalid IPv6 address) when the network
      location holds one of the brackets `[` and `]` but not the other. */
  predicate SplitFails(u: string) {
    var n := Netloc(AfterScheme(u));
    ('[' in n) != (']' in n)
  }

  /** `ensure_http_url`: the default API address for a missing or blank value;
      ValueError when `urlparse` itself refuses the value; the stripped value
      when its scheme is http or https, and ValueError otherwise. */
  function EnsureHttpUrl(url: Option<string>): (r: Result<string>)
    ensures (url.None? || Strip(url.value) == []) ==> r == Ok(DefaultBaseUrl)
    ensures url.Some? && Strip(url.value) != [] ==>
              (r.Ok? <==> !SplitFails(Strip(url.value)) && Scheme(Strip(url.value)) in {"http", "https"})
    ensures url.Some? && Strip(url.value) != [] && r.Ok? ==> r.value == Strip(url.value)
    ensures r.Err? ==> r.error.ValueError?
  {
    var u := Strip(if url.Some? then url.value else "");
    if u == [] then Ok(DefaultBaseUrl)
    else if SplitFails(u) then Err(ValueError("Invalid IPv6 URL"))
    else if Scheme(u) !in {"http", "https"} then Err(ValueError("Invalid GitHub base_url (missing scheme): " + u))
    else Ok(u)
  }

  lemma {:induction false} DropUnsafeKeepsPrefix(p: string, s: string)
    requires NoUnsafe(p)
    ensures DropUnsafe(p + s) == p + DropUnsafe(s)
    decreases |p|
  {
    if p != [] {
      assert (p + s)[1..] == p[1..] + s;
      assert (p + s)[0] == p[0];
      assert p[0] != '\t' && p[0] != '\r' && p[0] != '\n';
      DropUnsafeKeepsPrefix(p[1..], s);
      assert p == [p[0]] + p[1..];
    } else {
      assert p + s == s;
    }
  }

  /** The cleaned form of a run of lower-case letters, a colon and more text. */
  lemma CleanedOfPrefix(scheme: string, rest: string)
    requires |scheme| > 0 && forall k :: 0 <= k < |scheme| ==> 'a' <= scheme[k] <= 'z'
    requires rest != [] && rest[0] == ':'
    ensures Cleaned(scheme + rest) == scheme + ([':'] + DropUnsafe(rest[1..]))
  {
    DropUnsafeKeepsPrefix(scheme, rest);
    assert rest == [':'] + rest[1..];
    assert DropUnsafe(rest) == [':'] + DropUnsafe(rest[1..]);
    var v := scheme + DropUnsafe(rest);
    assert v[0] == scheme[0];
  }

  /** In a run of lower-case letters followed by a colon, that colon ends a
      scheme. */
  lemma ColonEndsScheme(scheme: string, tail: string)
    requires |scheme| > 0 && forall k :: 0 <= k < |scheme| ==> 'a' <= scheme[k] <= 'z'
    requires tail != [] && tail[0] == ':'
    ensures Find(scheme + tail, ':') == |scheme|
    ensures SchemeBefore(scheme + tail, |scheme|)
    ensures (scheme + tail)[..|scheme|] == scheme
    ensures (scheme + tail)[|scheme| + 1..] == tail[1..]
  {
    assert ':' !in scheme;
    FindPast(scheme, tail, ':');
  }

  /** A run of lower-case letters followed by a colon is read as the scheme,
      and `urlparse` goes on after the colon. */
  lemma SchemeOfPrefix(scheme: string, rest: string)
    requires |scheme| > 0 && forall k :: 0 <= k < |scheme| ==> 'a' <= scheme[k] <= 'z'
    requires rest != [] && rest[0] == ':'
    ensures Scheme(scheme + rest) == scheme
    ensures AfterScheme(scheme + rest) == DropUnsafe(rest[1..])
  {
    CleanedOfPrefix(scheme, rest);
    var tail := [':'] + DropUnsafe(rest[1..]);
    ColonEndsScheme(scheme, tail);
    assert tail[1..] == DropUnsafe(rest[1..]);
    assert Lower(scheme) == scheme;
  }

  /** Text with no tab or line break goes through the deletion unchanged. */
  lemma DropUnsafeKeeps(s: string)
    requires NoUnsafe(s)
    ensures DropUnsafe(s) == s
  {
    DropUnsafeKeepsPrefix(s, []);
    assert s + [] == s;
  }

  /** Without a delimiter after position `i`, the host runs to the end. */
  lemma HostToEnd(s: string, i: nat)
    requires i <= |s|
    requires forall k :: i <= k < |s| ==> s[k] != '/' && s[k] != '?' && s[k] != '#'
    ensures HostEnd(s, i) == |s|
  {
  }

  /** A value whose stripped form begins with `http://` or `https://` in lower
      case, and that `urlparse` does not refuse, is accepted unchanged (apart
      from the strip). */
  lemma AcceptsWebScheme(url: string, scheme: string)
    requires scheme == "http" || scheme == "https"
    requires StartsWith(Strip(url), scheme + "://")
    requires !SplitFails(Strip(url))
    ensures EnsureHttpUrl(Some(url)) == Ok(Strip(url))
  {
    SchemeOfWebAddress(Strip(url), scheme);
    WebSchemeAccepted(url, scheme);
  }

  /** Text starting with a lower-case scheme and `://` has that scheme. */
  lemma SchemeOfWebAddress(u: string, scheme: string)
    requires scheme == "http" || scheme == "https"
    requires StartsWith(u, scheme + "://")
    ensures Scheme(u) == scheme
  {
    var n := |scheme|;
    var rest := u[n..];
    assert u[..n + 3] == scheme + "://";
    assert rest[0] == u[..n + 3][n] == ':';
    assert u == scheme + rest by {
      assert u[..n] == u[..n + 3][..n] == scheme;
      assert u == u[..n] + u[n..];
    }
    SchemeOfPrefix(scheme, rest);
  }

  lemma WebSchemeAccepted(url: string, scheme: string)
    requires scheme == "http" || scheme == "https"
    requires Strip(url) != [] && Scheme(Strip(url)) == scheme && !SplitFails(Strip(url))
    ensures EnsureHttpUrl(Some(url)) == Ok(Strip(url))
  {
  }

  /** A value with no colon at all (a bare host name) is refused. */
  lemma RefusesMissingScheme(url: string)
    requires Strip(url) != [] && ':' !in Strip(url)
    ensures EnsureHttpUrl(Some(url)).Err?
  {
    var u := Strip(url);
    NoColonSurvives(u);
  }

  lemma NoColonSurvives(u: string)
    requires ':' !in u
    ensures Scheme(u) == []
  {
    var w := DropUnsafe(u);
    DropUnsafeMembers(u);
    assert ':' !in w;
    var v := LStripControl(w);
    assert forall k :: 0 <= k < |v| ==> v[k] == w[|w| - |v| + k];
  }

  /** The network location of `//host` followed by a tail is the host, when
      the host holds no delimiter and the tail is empty or starts with one. */
  lemma NetlocOf(host: string, tail: string)
    requires forall k :: 0 <= k < |host| ==> host[k] != '/' && host[k] != '?' && host[k] != '#'
    requires tail == [] || tail[0] == '/' || tail[0] == '?' || tail[0] == '#'
    ensures Netloc("//" + host + tail) == host
  {
    var s := "//" + host + tail;
    assert forall k :: 2 <= k < 2 + |host| ==> s[k] == host[k - 2];
    assert tail != [] ==> s[2 + |host|] == tail[0];
    var e := HostEnd(s, 2);
    assert e == 2 + |host|;
    assert s[2..e] == host;
  }

  /** After a scheme and its colon, `urlparse` reads text free of tabs and
      line breaks as it is. */
  lemma AfterSchemeOf(scheme: string, body: string)
    requires |scheme| > 0 && forall k :: 0 <= k < |scheme| ==> 'a' <= scheme[k] <= 'z'
    requires NoUnsafe(body)
    ensures Scheme(scheme + ":" + body) == scheme
    ensures AfterScheme(scheme + ":" + body) == body
  {
    var rest := ":" + body;
    assert scheme + ":" + body == scheme + rest;
    assert rest[1..] == body;
    SchemeOfPrefix(scheme, rest);
    DropUnsafeKeeps(body);
  }

  /** `//host` followed by a tail is free of tabs and line breaks when both
      parts are. */
  lemma NoUnsafeAddress(host: string, tail: string)
    requires NoUnsafe(host) && NoUnsafe(tail)
    ensures NoUnsafe("//" + host + tail)
  {
    var s := "//" + host + tail;
    assert forall k :: 2 <= k < 2 + |host| ==> s[k] == host[k - 2];
    assert forall k :: 2 + |host| <= k < |s| ==> s[k] == tail[k - 2 - |host|];
  }

  /** Whatever its scheme, a value whose host holds one of the brackets `[`
      and `]` but not the other is refused with the error `urlparse` raises. */
  lemma RefusesUnmatchedBracket(url: string, scheme: string, host: string, tail: string)
    requires |scheme| > 0 && forall k :: 0 <= k < |scheme| ==> 'a' <= scheme[k] <= 'z'
    requires Strip(url) == scheme + "://" + host + tail
    requires NoUnsafe(host) && NoUnsafe(tail)
    requires forall k :: 0 <= k < |host| ==> host[k] != '/' && host[k] != '?' && host[k] != '#'
    requires tail == [] || tail[0] == '/' || tail[0] == '?' || tail[0] == '#'
    requires ('[' in host) != (']' in host)
    ensures EnsureHttpUrl(Some(url)) == Err(ValueError("Invalid IPv6 URL"))
  {
    assert scheme + "://" + host + tail == scheme + ":" + ("//" + host + tail);
    NoUnsafeAddress(host, tail);
    AfterSchemeOf(scheme, "//" + host + tail);
    NetlocOf(host, tail);
  }

  /** A value whose scheme is neither http nor https is refused. */
  lemma RefusesOtherScheme(url: string, scheme: string, rest: string)
    requires |scheme| > 0 && forall k :: 0 <= k < |scheme| ==> 'a' <= scheme[k] <= 'z'
    requires scheme != "http" && scheme != "https"
    requires Strip(url) == scheme + rest && rest != [] && rest[0] == ':'
    ensures EnsureHttpUrl(Some(url)).Err?
  {
    SchemeOfPrefix(scheme, rest);
  }

  /** What one call of the wrapped function does: return a value or raise a
      GithubException with an HTTP status and its message text (`str(e)`). */
  datatype Reply<T> = Returned(value: T) | Raised(status: int, text: string)

  /** The rate-limit test of `_with_retry`. */
  predicate RateLimited<T>(reply: Reply<T>) {
    reply.Raised? && reply.status == 403 && Contains(Lower(reply.text), "rate limit")
  }

  /** What the caller sees of one reply when it is not retried. */
  function Propagated<T>(reply: Reply<T>): (r: Result<T>)
    ensures r.Ok? <==> reply.Returned?
    ensures reply.Returned? ==> r.value == reply.value
    ensures reply.Raised? ==> r.error == GithubException(reply.status, reply.text)
  {
    match reply
    case Returned(v) => Ok(v)
    case Raised(s, t) => Err(GithubException(s, t))
  }

  /** `_with_retry(fn, max_retries)`, where `call(k)` is what the k-th call of
      `fn` does. Returns the result, the number of calls made and the sleeps
      taken (seconds). Every call but the last was rate limited and followed by
      a 60-second sleep; the last call is either the final permitted attempt or
      one that was not rate limited, and its reply, re-raised unchanged when it
      is an error, is the result. With no attempts permitted, `fn` is never
      called and RuntimeError("Unreachable") is raised. */
  method WithRetry<T>(call: nat -> Reply<T>, maxRetries: int) returns (r: Result<T>, calls: nat, ghost sleeps: seq<nat>)
    ensures maxRetries <= 0 ==> calls == 0 && r == Err(RuntimeError("Unreachable"))
    ensures maxRetries > 0 ==> 1 <= calls <= maxRetries
    ensures forall k :: 0 <= k < calls - 1 ==> RateLimited(call(k))
    ensures calls > 0 ==> calls == maxRetries || !RateLimited(call(calls - 1))
    ensures calls > 0 ==> r == Propagated(call(calls - 1))
    ensures |sleeps| == if calls > 0 then calls - 1 else 0
    ensures forall k :: 0 <= k < |sleeps| ==> sleeps[k] == 60
  {
    sleeps := [];
    calls := 0;
    var attempt := 0;
    while attempt < maxRetries
      invariant 0 <= attempt && calls == attempt
      invariant attempt == 0 || attempt < maxRetries
      invariant forall k :: 0 <= k < attempt ==> RateLimited(call(k))
      invariant |sleeps| == attempt && forall k :: 0 <= k < |sleeps| ==> sleeps[k] == 60
      decreases maxRetries - attempt
    {
      var reply := call(attempt);
      calls := calls + 1;
      if reply.Returned? {
        return Ok(reply.value), calls, sleeps;
      }
      if reply.status == 403 && Contains(Lower(reply.text), "rate limit") {
        if attempt < maxRetries - 1 {
          sleeps := sleeps + [60];
          attempt := attempt + 1;
          continue;
        }
      }
      return Err(GithubException(reply.status, reply.text)), calls, sleeps;
    }
    r := Err(RuntimeError("Unreachable"));
  }
}
