/**
 * The HTTP request of crawler/src/requests/http.rs: validating the target, shaping title,
 * headers and meta strings from the reply, and fixing up and filtering the page's links.
 * The transport, the HTML selection and URL parsing are the `World`'s.
 */
module Http {
  import opened Basics
  import opened Text
  import opened Collaborators

  /** The reqwest client; only its presence matters. */
  datatype HttpClient = DefaultClient

  datatype HttpRequest = HttpRequest(target: string, client: Option<HttpClient>, depth: nat)

  datatype Extra = Extra(links: seq<string>, body: string)

  datatype HttpResponse = HttpResponse(
    title: string,
    statusCode: nat,
    headers: seq<string>,
    meta: seq<string>,
    extra: Option<Extra>)

  /** The record a crawl agent publishes for a fetched page. */
  datatype PageData = PageData(
    url: string,
    title: string,
    statusCode: nat,
    headers: seq<string>,
    meta: seq<string>,
    links: seq<string>,
    body: string)

  /** `HttpRequest::new` */
  function New(target: string, depth: nat): (r: HttpRequest)
    ensures r.target == target && r.depth == depth && r.client.Some?
  {
    HttpRequest(target, Some(DefaultClient), depth)
  }

  // ---------------------------------------------------------------- title and headers

  predicate IsTitle(h: Header) {
    h.name == "title"
  }

  /**
   * `headers().get("title")`, then `to_str().ok()`, defaulting to "No title":
   * the first `title` header decides, and a non-text value falls back to the default.
   */
  function TitleOf(hs: seq<Header>): (r: string)
    ensures (forall i | 0 <= i < |hs| :: !IsTitle(hs[i])) ==> r == "No title"
    ensures forall i | 0 <= i < |hs| && IsTitle(hs[i]) && (forall j | 0 <= j < i :: !IsTitle(hs[j])) ::
              r == hs[i].value.GetOr("No title")
  {
    if hs == [] then "No title"
    else if IsTitle(hs[0]) then hs[0].value.GetOr("No title")
    else
      var r := TitleOf(hs[1..]);
      assert forall i | 1 <= i < |hs| :: hs[1..][i - 1] == hs[i];
      r
  }

  /** `format!("{}: {}", name, value.to_str().unwrap_or(""))` */
  function HeaderLine(h: Header): string {
    h.name + ": " + h.value.GetOr("")
  }

  function HeaderLines(hs: seq<Header>): (r: seq<string>)
    ensures |r| == |hs|
  {
    seq(|hs|, i requires 0 <= i < |hs| => HeaderLine(hs[i]))
  }

  /** The name part of a "name: value" line: the text before its first ':'. */
  function LineName(line: string): string {
    Before(line, ':')
  }

  /** The value part of a "name: value" line: what follows the first ": ". */
  function LineValue(line: string): string {
    var rest := After(line, ':');
    if StartsWith(rest, " ") then rest[1..] else rest
  }

  lemma {:induction false} BeforeAfterJoin(a: string, b: string)
    requires ':' !in a
    ensures Before(a + ":" + b, ':') == a && After(a + ":" + b, ':') == b
    decreases |a|
  {
    if a != [] {
      assert (a + ":" + b)[1..] == a[1..] + ":" + b;
      BeforeAfterJoin(a[1..], b);
    }
  }

  /**
   * A header line can be read back: header names never contain ':' (they are HTTP tokens),
   * so the name is what precedes the first ':' and the value what follows ": ".
   */
  lemma HeaderLineRoundTrip(h: Header)
    requires ':' !in h.name
    ensures LineName(HeaderLine(h)) == h.name
    ensures LineValue(HeaderLine(h)) == h.value.GetOr("")
  {
    var v := h.value.GetOr("");
    assert HeaderLine(h) == h.name + ":" + (" " + v);
    BeforeAfterJoin(h.name, " " + v);
    assert StartsWith(" " + v, " ");
    assert (" " + v)[1..] == v;
  }

  // ---------------------------------------------------------------- meta

  predicate HasContent(m: MetaTag) {
    m.content.Some?
  }

  /** The `meta[name]` strings: "name: content" for each element that has both attributes. */
  function NamedMetaLines(ms: seq<MetaTag>): (r: seq<string>)
    ensures |r| <= |ms|
    ensures (forall i | 0 <= i < |ms| :: HasContent(ms[i])) ==> |r| == |ms|
    ensures (forall i | 0 <= i < |ms| :: !HasContent(ms[i])) ==> r == []
  {
    if ms == [] then []
    else
      var rest := NamedMetaLines(ms[1..]);
      assert forall i | 1 <= i < |ms| :: ms[1..][i - 1] == ms[i];
      match ms[0].content
      case Some(c) => [ms[0].name + ": " + c] + rest
      case None => rest
  }

  /** The line of one named meta tag: "name: content" when it has content, none otherwise. */
  lemma NamedMetaLinesOne(m: MetaTag)
    ensures NamedMetaLines([m]) == (if HasContent(m) then [m.name + ": " + m.content.value] else [])
  {
    assert [m][1..] == [];
  }

  /** The lines of two runs of tags are the lines of the first run, then those of the second. */
  lemma {:induction false} NamedMetaLinesAppend(a: seq<MetaTag>, b: seq<MetaTag>)
    ensures NamedMetaLines(a + b) == NamedMetaLines(a) + NamedMetaLines(b)
    decreases |a|
  {
    if a == [] {
      assert a + b == b;
    } else {
      assert (a + b)[0] == a[0];
      assert (a + b)[1..] == a[1..] + b;
      NamedMetaLinesAppend(a[1..], b);
    }
  }

  /** When every tag has content, line `i` is the `i`-th tag's "name: content". */
  lemma {:induction false} NamedMetaLinesEach(ms: seq<MetaTag>)
    requires forall i | 0 <= i < |ms| :: HasContent(ms[i])
    ensures |NamedMetaLines(ms)| == |ms|
    ensures forall i | 0 <= i < |ms| :: NamedMetaLines(ms)[i] == ms[i].name + ": " + ms[i].content.value
    decreases |ms|
  {
    if ms != [] {
      assert forall i | 1 <= i < |ms| :: ms[1..][i - 1] == ms[i];
      NamedMetaLinesEach(ms[1..]);
    }
  }

  function CharsetLine(c: string): string {
    "charset: " + c
  }

  /** The meta strings: the named ones first, then one "charset: X" per `meta[charset]`. */
  function MetaLines(doc: Document): (r: seq<string>)
    ensures |r| == |NamedMetaLines(doc.namedMetas)| + |doc.charsets|
    ensures r[..|NamedMetaLines(doc.namedMetas)|] == NamedMetaLines(doc.namedMetas)
    ensures forall i | 0 <= i < |doc.charsets| ::
              r[|NamedMetaLines(doc.namedMetas)| + i] == CharsetLine(doc.charsets[i])
  {
    NamedMetaLines(doc.namedMetas) + seq(|doc.charsets|, i requires 0 <= i < |doc.charsets| => CharsetLine(doc.charsets[i]))
  }

  // ---------------------------------------------------------------- links

  /** A link that starts with '/' gets the target's origin in front of it; others are kept. */
  function FixLink(origin: string, link: string): string {
    if StartsWith(link, "/") then origin + link else link
  }

  function FixLinks(origin: string, links: seq<string>): (r: seq<string>)
    ensures |r| == |links|
  {
    seq(|links|, i requires 0 <= i < |links| => FixLink(origin, links[i]))
  }

  /**
   * Whenever the origin is a non-empty string that does not itself start with '/', no fixed
   * link is root-relative any more: each is either absolute-form or the untouched original.
   */
  lemma FixedLinksNotRootRelative(origin: string, links: seq<string>)
    requires origin != [] && origin[0] != '/'
    ensures forall i | 0 <= i < |links| ::
              !StartsWith(FixLinks(origin, links)[i], "/") &&
              (StartsWith(links[i], "/") || FixLinks(origin, links)[i] == links[i])
  {
    forall i | 0 <= i < |links|
      ensures !StartsWith(FixLinks(origin, links)[i], "/")
    {
      var r := FixLinks(origin, links)[i];
      if StartsWith(links[i], "/") {
        assert r == origin + links[i];
        assert r[0] == origin[0];
      }
    }
  }

  /** A protocol-relative link ("//host/x") is prefixed like any other root-relative link. */
  lemma ProtocolRelativeLinkPrefixed(origin: string, rest: string)
    ensures FixLink(origin, "//" + rest) == origin + "//" + rest
  {
    assert StartsWith("//" + rest, "/");
  }

  predicate IsValid(validate: string -> Result<(), string>, link: string) {
    validate(link).Success?
  }

  /** `links.retain(|l| validate_url(l).is_ok())` */
  function Retain(links: seq<string>, validate: string -> Result<(), string>): (r: seq<string>)
    ensures |r| <= |links|
    ensures forall l | l in r :: IsValid(validate, l) && l in links
    ensures forall l | l in links && IsValid(validate, l) :: l in r
  {
    if links == [] then []
    else
      var rest := Retain(links[1..], validate);
      if IsValid(validate, links[0]) then [links[0]] + rest else rest
  }

  /** Retain keeps every valid link as often as it occurs, and no invalid one. */
  lemma {:induction false} RetainCounts(links: seq<string>, validate: string -> Result<(), string>, l: string)
    ensures multiset(Retain(links, validate))[l] == if IsValid(validate, l) then multiset(links)[l] else 0
  {
    if links != [] {
      RetainCounts(links[1..], validate, l);
      assert links == [links[0]] + links[1..];
      assert multiset(links) == multiset{links[0]} + multiset(links[1..]);
    }
  }

  /** Retain keeps the original order: it distributes over concatenation. */
  lemma {:induction false} RetainAppend(a: seq<string>, b: seq<string>, validate: string -> Result<(), string>)
    ensures Retain(a + b, validate) == Retain(a, validate) + Retain(b, validate)
  {
    if a == [] {
      assert a + b == b;
    } else {
      assert (a + b)[0] == a[0];
      assert (a + b)[1..] == a[1..] + b;
      RetainAppend(a[1..], b, validate);
    }
  }

  /** One request per link, at the given depth, in link order. */
  function Tasks(links: seq<string>, depth: nat): (r: seq<HttpRequest>)
    ensures |r| == |links|
    ensures forall i | 0 <= i < |r| :: r[i].target == links[i] && r[i].depth == depth && r[i].client.Some?
  {
    seq(|links|, i requires 0 <= i < |links| => New(links[i], depth))
  }

  lemma TasksAppend(a: seq<string>, b: seq<string>, depth: nat)
    ensures Tasks(a + b, depth) == Tasks(a, depth) + Tasks(b, depth)
  {
  }

  // ---------------------------------------------------------------- execute

  /**
   * What `execute` returns for a target: a failing validation is returned before any network
   * access; a transport failure, an unreadable body and an unparsable target are errors;
   * otherwise the response always carries `extra`, whose links are the fixed-up page links
   * that validate, in page order.
   */
  function Respond(target: string, w: World): (r: Result<HttpResponse, string>)
    ensures w.validate(target).Failure? ==> r == Failure(w.validate(target).error)
    ensures r.Success? ==>
              && target in w.pages
              && w.pages[target].body.Some?
              && w.parseUrl(target).Some?
              && r.value.extra.Some?
              && r.value.statusCode == w.pages[target].status
              && r.value.extra.value.body == w.pages[target].body.value
              && r.value.title == TitleOf(w.pages[target].headers)
              && r.value.headers == HeaderLines(w.pages[target].headers)
              && r.value.meta == MetaLines(w.parseHtml(w.pages[target].body.value))
              && r.value.extra.value.links
                 == Retain(FixLinks(w.origin(target), w.parseHtml(w.pages[target].body.value).hrefs), w.validate)
              && |r.value.extra.value.links| <= |w.parseHtml(w.pages[target].body.value).hrefs|
              && (forall l | l in r.value.extra.value.links :: IsValid(w.validate, l))
  {
    match w.validate(target)
    case Failure(e) => Failure(e)
    case Success(_) =>
      if target !in w.pages then Failure("HTTP request error")
      else
        var reply := w.pages[target];
        match reply.body
        case None => Failure("Error reading body")
        case Some(body) =>
          var doc := w.parseHtml(body);
          if w.parseUrl(target).None? then Failure("Error parsing target URL")
          else
            var links := Retain(FixLinks(w.origin(target), doc.hrefs), w.validate);
            Success(HttpResponse(TitleOf(reply.headers), reply.status, HeaderLines(reply.headers),
                                 MetaLines(doc), Some(Extra(links, body))))
  }

  /**
   * With a validator that parses, a valid target whose page arrives with a readable body is
   * always a success: the "Error parsing target URL" branch is never taken.
   */
  lemma ValidReadablePageSucceeds(target: string, w: World)
    requires UrlsCoherent(w)
    requires w.validate(target).Success? && target in w.pages && w.pages[target].body.Some?
    ensures Respond(target, w).Success?
  {
  }

  /** The in-place `iter_mut` rewrite of the collected links. */
  method FixUpLinks(links: array<string>, origin: string)
    modifies links
    ensures links[..] == FixLinks(origin, old(links[..]))
  {
    ghost var s := links[..];
    for i := 0 to links.Length
      invariant forall j | 0 <= j < i :: links[j] == FixLink(origin, s[j])
      invariant forall j | i <= j < links.Length :: links[j] == s[j]
    {
      if StartsWith(links[i], "/") {
        links[i] := origin + links[i];
      }
    }
  }

  /** The in-place `retain`: valid links are compacted to the front, in order; `n` is the new length. */
  method RetainValid(links: array<string>, validate: string -> Result<(), string>) returns (n: nat)
    modifies links
    ensures n <= links.Length
    ensures links[..n] == Retain(old(links[..]), validate)
  {
    ghost var s := links[..];
    n := 0;
    for i := 0 to links.Length
      invariant n <= i
      invariant links[..n] == Retain(s[..i], validate)
      invariant forall j | i <= j < links.Length :: links[j] == s[j]
    {
      var l := links[i];
      RetainStep(s, i, validate);
      ghost var before := links[..n];
      if IsValid(validate, l) {
        links[n] := l;
        assert links[..n] == before;
        assert links[..n + 1] == before + [l];
        n := n + 1;
      }
    }
    assert s[..links.Length] == s;
  }

  lemma RetainStep(s: seq<string>, i: nat, validate: string -> Result<(), string>)
    requires i < |s|
    ensures Retain(s[..i + 1], validate) ==
            Retain(s[..i], validate) + (if IsValid(validate, s[i]) then [s[i]] else [])
  {
    assert s[..i + 1] == s[..i] + [s[i]];
    RetainAppend(s[..i], [s[i]], validate);
    assert [s[i]][1..] == [];
  }

  /** The body of `execute` once the request exists: the same computation as `Respond`. */
  method Fetch(target: string, w: World) returns (r: Result<HttpResponse, string>)
    ensures r == Respond(target, w)
  {
    var v := w.validate(target);
    if v.Failure? {
      return Failure(v.error);
    }
    if target !in w.pages {
      return Failure("HTTP request error");
    }
    var reply := w.pages[target];
    var title := TitleOf(reply.headers);
    var headers := HeaderLines(reply.headers);
    if reply.body.None? {
      return Failure("Error reading body");
    }
    var body := reply.body.value;
    var doc := w.parseHtml(body);
    var links := new string[|doc.hrefs|](i requires 0 <= i < |doc.hrefs| => doc.hrefs[i]);
    assert links[..] == doc.hrefs;
    if w.parseUrl(target).None? {
      return Failure("Error parsing target URL");
    }
    FixUpLinks(links, w.origin(target));
    var n := RetainValid(links, w.validate);
    var meta := MetaLines(doc);
    r := Success(HttpResponse(title, reply.status, headers, meta, Some(Extra(links[..n], body))));
  }

  /** `execute`: the client is unwrapped once the target has validated, so it must be present then. */
  method Execute(req: HttpRequest, w: World) returns (r: Result<HttpResponse, string>)
    requires w.validate(req.target).Success? ==> req.client.Some?
    ensures r == Respond(req.target, w)
  {
    r := Fetch(req.target, w);
  }

  /** The page record published for a fetched page (its `extra` is unwrapped). */
  function PageOf(url: string, res: HttpResponse): PageData
    requires res.extra.Some?
  {
    PageData(url, res.title, res.statusCode, res.headers, res.meta, res.extra.value.links, res.extra.value.body)
  }
}
