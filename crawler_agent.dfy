/**
 * The crawl agent of crawler/src/agents/crawler_agent.rs: a FIFO queue of requests, a
 * visited set kept in Redis that every discovered link is checked against and added to, a
 * depth bound, keyword-matching links queued before the others, and one published page
 * record per fetched page.
 */
module CrawlerAgent {
  import opened Basics
  import opened Text
  import opened Collaborators
  import opened Http
  import Robots

  /** The keywords whose links are queued first. */
  const Keywords: seq<string> := ["news", "article", "blog"]

  /** `keywords.iter().any(|keyword| link.contains(keyword))` */
  predicate IsPriority(link: string, keywords: seq<string>) {
    exists k | k in keywords :: Contains(link, k)
  }

  // ---------------------------------------------------------------- link selection

  /**
   * The links of a page that the dedup pass keeps, in page order: each link not visited
   * before the page and not already seen earlier on the same page.
   */
  function Fresh(links: seq<string>, visited: set<string>): (r: seq<string>)
    ensures |r| <= |links|
    decreases |links|
  {
    if links == [] then []
    else
      var init, l := links[..|links| - 1], links[|links| - 1];
      assert links == init + [l];
      if l in visited || l in init then Fresh(init, visited) else Fresh(init, visited) + [l]
  }

  /** `Fresh` keeps exactly the links that were not visited. */
  lemma {:induction false} FreshMembers(links: seq<string>, visited: set<string>)
    ensures forall l :: l in Fresh(links, visited) <==> l in links && l !in visited
    decreases |links|
  {
    if links != [] {
      var init, l := links[..|links| - 1], links[|links| - 1];
      assert links == init + [l];
      FreshMembers(init, visited);
    }
  }

  /** One more link: it is kept exactly when it is neither visited nor seen earlier on the page. */
  lemma FreshStep(links: seq<string>, i: nat, visited: set<string>)
    requires i < |links|
    ensures Fresh(links[..i + 1], visited) ==
            Fresh(links[..i], visited) + (if links[i] in visited + Elems(links[..i]) then [] else [links[i]])
  {
    assert links[..i + 1][..i] == links[..i];
  }

  /**
   * The state of the link loop of `execute` after the first `i` links of a page: every one
   * of them is marked, and the two lists hold the unseen ones, split by keyword.
   */
  ghost predicate MarkedUpTo(links: seq<string>, i: nat, visited0: set<string>, visited: set<string>,
                             prioritized: seq<string>, others: seq<string>, keywords: seq<string>)
    requires i <= |links|
  {
    && visited == visited0 + Elems(links[..i])
    && prioritized == Select(Fresh(links[..i], visited0), keywords, true)
    && others == Select(Fresh(links[..i], visited0), keywords, false)
  }

  /** One turn of the link loop keeps `MarkedUpTo`. */
  lemma MarkStep(links: seq<string>, i: nat, visited0: set<string>, visited: set<string>,
                 prioritized: seq<string>, others: seq<string>, keywords: seq<string>)
    requires i < |links| && MarkedUpTo(links, i, visited0, visited, prioritized, others, keywords)
    ensures var l := links[i];
            if l in visited then MarkedUpTo(links, i + 1, visited0, visited, prioritized, others, keywords)
            else if IsPriority(l, keywords) then
              MarkedUpTo(links, i + 1, visited0, visited + {l}, prioritized + [l], others, keywords)
            else MarkedUpTo(links, i + 1, visited0, visited + {l}, prioritized, others + [l], keywords)
  {
    var u, l := Fresh(links[..i], visited0), links[i];
    FreshStep(links, i, visited0);
    assert Elems(links[..i + 1]) == Elems(links[..i]) + {l};
    if l in visited {
      assert Fresh(links[..i + 1], visited0) == u;
    } else {
      assert Fresh(links[..i + 1], visited0) == u + [l];
      SelectSnoc(u, l, keywords, true);
      SelectSnoc(u, l, keywords, false);
      assert Select(u, keywords, true) + [] == Select(u, keywords, true);
      assert Select(u, keywords, false) + [] == Select(u, keywords, false);
    }
  }

  /** `Fresh` never keeps a link twice. */
  lemma {:induction false} FreshDistinct(links: seq<string>, visited: set<string>)
    ensures forall i, j | 0 <= i < j < |Fresh(links, visited)| :: Fresh(links, visited)[i] != Fresh(links, visited)[j]
    decreases |links|
  {
    if links != [] {
      var init := links[..|links| - 1];
      FreshDistinct(init, visited);
      FreshMembers(init, visited);
    }
  }

  /** The links of `s` that match a keyword (`keep`) or that match none (`!keep`), in order. */
  function Select(s: seq<string>, keywords: seq<string>, keep: bool): (r: seq<string>)
    ensures |r| <= |s|
    decreases |s|
  {
    if s == [] then []
    else
      var init, l := s[..|s| - 1], s[|s| - 1];
      assert s == init + [l];
      Select(init, keywords, keep) + (if IsPriority(l, keywords) == keep then [l] else [])
  }

  /** `Select` keeps exactly the elements on its side of the keyword test. */
  lemma {:induction false} SelectMembers(s: seq<string>, keywords: seq<string>, keep: bool)
    ensures forall l :: l in Select(s, keywords, keep) <==> l in s && IsPriority(l, keywords) == keep
    decreases |s|
  {
    if s != [] {
      var init, l := s[..|s| - 1], s[|s| - 1];
      assert s == init + [l];
      SelectMembers(init, keywords, keep);
    }
  }

  lemma SelectSnoc(s: seq<string>, l: string, keywords: seq<string>, keep: bool)
    ensures Select(s + [l], keywords, keep) == Select(s, keywords, keep) + (if IsPriority(l, keywords) == keep then [l] else [])
  {
    assert (s + [l])[..|s|] == s;
  }

  /** Selection keeps order: selecting from a concatenation concatenates the selections. */
  lemma {:induction false} SelectAppend(a: seq<string>, b: seq<string>, keywords: seq<string>, keep: bool)
    ensures Select(a + b, keywords, keep) == Select(a, keywords, keep) + Select(b, keywords, keep)
    decreases |b|
  {
    if b == [] {
      assert a + b == a;
    } else {
      var init := b[..|b| - 1];
      assert a + b == (a + init) + [b[|b| - 1]];
      assert (a + b)[..|a + b| - 1] == a + init;
      SelectAppend(a, init, keywords, keep);
    }
  }

  /** The two selections split `s`: together they hold every element as often as `s` does. */
  lemma {:induction false} SelectSplits(s: seq<string>, keywords: seq<string>)
    ensures multiset(Select(s, keywords, true)) + multiset(Select(s, keywords, false)) == multiset(s)
    decreases |s|
  {
    if s != [] {
      var init := s[..|s| - 1];
      SelectSplits(init, keywords);
      assert s == init + [s[|s| - 1]];
    }
  }

  /**
   * The links one page adds to the queue, in queue order: its unseen keyword links, then its
   * other unseen links; exactly the page's links that were not visited.
   */
  function ChildLinks(links: seq<string>, visited: set<string>, keywords: seq<string>): seq<string> {
    var unseen := Fresh(links, visited);
    Select(unseen, keywords, true) + Select(unseen, keywords, false)
  }

  /** The requests one page adds to the queue: its child links, one level deeper. */
  function Children(links: seq<string>, visited: set<string>, keywords: seq<string>, depth: nat): seq<HttpRequest> {
    Tasks(ChildLinks(links, visited, keywords), depth + 1)
  }

  /** The child links are exactly the page's links that were not visited. */
  lemma ChildLinksMembers(links: seq<string>, visited: set<string>, keywords: seq<string>)
    ensures forall l :: l in ChildLinks(links, visited, keywords) <==> l in links && l !in visited
  {
    var unseen := Fresh(links, visited);
    FreshMembers(links, visited);
    SelectMembers(unseen, keywords, true);
    SelectMembers(unseen, keywords, false);
  }

  /** A link repeated on a page, or queued from an earlier page, is queued at most once. */
  lemma ChildLinksDistinct(links: seq<string>, visited: set<string>, keywords: seq<string>)
    ensures var c := ChildLinks(links, visited, keywords);
            forall i, j | 0 <= i < j < |c| :: c[i] != c[j]
  {
    var unseen := Fresh(links, visited);
    var p, o := Select(unseen, keywords, true), Select(unseen, keywords, false);
    var c := ChildLinks(links, visited, keywords);
    SelectMembers(unseen, keywords, true);
    SelectMembers(unseen, keywords, false);
    FreshDistinct(links, visited);
    SelectDistinct(unseen, keywords, true);
    SelectDistinct(unseen, keywords, false);
    forall i, j | 0 <= i < j < |c| ensures c[i] != c[j] {
      if j < |p| {
        assert c[i] == p[i] && c[j] == p[j];
      } else if i >= |p| {
        assert c[i] == o[i - |p|] && c[j] == o[j - |p|];
      } else {
        assert c[i] in p && c[j] in o;
      }
    }
  }

  /** Keyword links come first: no keyword link is queued after a link without a keyword. */
  lemma ChildLinksPriorityFirst(links: seq<string>, visited: set<string>, keywords: seq<string>)
    ensures var c := ChildLinks(links, visited, keywords);
            forall i, j | 0 <= i < j < |c| && IsPriority(c[j], keywords) :: IsPriority(c[i], keywords)
  {
    var unseen := Fresh(links, visited);
    var p, o := Select(unseen, keywords, true), Select(unseen, keywords, false);
    var c := ChildLinks(links, visited, keywords);
    SelectMembers(unseen, keywords, true);
    SelectMembers(unseen, keywords, false);
    forall i, j | 0 <= i < j < |c| && IsPriority(c[j], keywords) ensures IsPriority(c[i], keywords) {
      if j >= |p| {
        assert false;
      }
      assert c[i] in p;
    }
  }

  /** A page whose links were all visited adds no request. */
  lemma NoChildrenWhenAllVisited(links: seq<string>, visited: set<string>, keywords: seq<string>)
    requires Elems(links) <= visited
    ensures ChildLinks(links, visited, keywords) == []
  {
    FreshAllVisited(links, visited);
  }

  lemma {:induction false} FreshAllVisited(links: seq<string>, visited: set<string>)
    requires Elems(links) <= visited
    ensures Fresh(links, visited) == []
    decreases |links|
  {
    if links != [] {
      var init := links[..|links| - 1];
      assert Elems(init) <= Elems(links);
      FreshAllVisited(init, visited);
    }
  }

  /** Selecting from a sequence without repetitions gives one without repetitions. */
  lemma {:induction false} SelectDistinct(s: seq<string>, keywords: seq<string>, keep: bool)
    requires forall i, j | 0 <= i < j < |s| :: s[i] != s[j]
    ensures forall i, j | 0 <= i < j < |Select(s, keywords, keep)| :: Select(s, keywords, keep)[i] != Select(s, keywords, keep)[j]
    decreases |s|
  {
    if s != [] {
      var init := s[..|s| - 1];
      SelectDistinct(init, keywords, keep);
      SelectMembers(init, keywords, keep);
    }
  }

  // ---------------------------------------------------------------- what a crawl can reach

  /** Every link that some successful fetch in `w` returns: the only URLs a crawl ever marks. */
  ghost function Reach(w: World): set<string> {
    set u, l | u in w.pages && Respond(u, w).Success? && l in Respond(u, w).value.extra.value.links :: l
  }

  /** Marking new reachable URLs leaves fewer reachable URLs unmarked. */
  lemma RemainderShrinks(reach: set<string>, before: set<string>, after: set<string>)
    requires before <= after <= before + reach && after != before
    ensures |reach - after| < |reach - before|
  {
    assert !(after <= before);
    var x :| x in after && x !in before;
    assert x in (reach - before) - (reach - after);
    ProperSubsetSmaller(reach - after, reach - before);
  }

  /**
   * What `execute` does once `req` is popped (leaving `rest`) and admitted by robots.txt: a
   * failed fetch is an error and changes nothing else; otherwise, below the depth bound, the
   * page's unseen links are queued (keyword links first) one level deeper and all its links
   * are marked, and in every case the page record is published.
   */
  ghost predicate Fetched(req: HttpRequest, rest: seq<HttpRequest>, visited0: set<string>, published0: seq<PageData>,
                          r: Result<HttpResponse, string>, queue: seq<HttpRequest>, visited: set<string>,
                          published: seq<PageData>, maxDepth: nat, keywords: seq<string>, w: World)
  {
    match Respond(req.target, w)
    case Failure(e) =>
      && r == Failure("Request error: " + e)
      && queue == rest && visited == visited0 && published == published0
    case Success(res) =>
      && r == Success(res)
      && published == published0 + [PageOf(req.target, res)]
      && (req.depth >= maxDepth ==> queue == rest && visited == visited0)
      && (req.depth < maxDepth ==>
            && queue == rest + Children(res.extra.value.links, visited0, keywords, req.depth)
            && visited == visited0 + Elems(res.extra.value.links))
  }

  class CrawlerAgent {
    const name: string
    const keywords: seq<string>
    const maxDepth: nat
    const respectRobotsTxt: bool
    const robots: Robots.RobotsTxtClient
    var queue: seq<HttpRequest>
    /** The `visited_urls` hash in Redis. */
    var visited: set<string>
    /** The page records sent to RabbitMQ, oldest first. */
    ghost var published: seq<PageData>

    /** Every queued request can be executed: its client is present. */
    predicate ClientsPresent()
      reads this
    {
      forall i | 0 <= i < |queue| :: queue[i].client.Some?
    }

    /** No queued request is deeper than `maxDepth`. */
    predicate DepthsBounded()
      reads this
    {
      forall i | 0 <= i < |queue| :: queue[i].depth <= maxDepth
    }

    /**
     * `new_with_seeds`, once both connections are up: the name `crawler-<type>-<id>`, the
     * keywords, and one depth-0 request per seed, in seed order. The Redis hash starts with
     * whatever `visited0` it already holds.
     */
    constructor NewWithSeeds(id: nat, typeName: string, seeds: seq<string>, maxDepth: nat,
                             respectRobotsTxt: bool, visited0: set<string>)
      ensures name == "crawler-" + typeName + "-" + Decimal(id)
      ensures this.maxDepth == maxDepth && this.respectRobotsTxt == respectRobotsTxt
      ensures keywords == Keywords
      ensures queue == Tasks(seeds, 0)
      ensures visited == visited0 && published == []
      ensures fresh(robots) && robots.cache == map[]
      ensures ClientsPresent() && DepthsBounded()
    {
      name := "crawler-" + typeName + "-" + Decimal(id);
      keywords := Keywords;
      this.maxDepth := maxDepth;
      this.respectRobotsTxt := respectRobotsTxt;
      robots := new Robots.RobotsTxtClient();
      queue := [];
      visited := visited0;
      published := [];
      new;
      for i := 0 to |seeds|
        invariant queue == Tasks(seeds[..i], 0)
        invariant visited == visited0 && published == []
        invariant robots.cache == map[]
      {
        Push(New(seeds[i], 0));
        assert seeds[..i + 1] == seeds[..i] + [seeds[i]];
        TasksAppend(seeds[..i], [seeds[i]], 0);
      }
      assert seeds[..|seeds|] == seeds;
    }

    /** `push`: the request goes to the back; nothing else changes. */
    method Push(req: HttpRequest)
      modifies this
      ensures queue == old(queue) + [req]
      ensures visited == old(visited) && published == old(published)
    {
      queue := queue + [req];
    }

    /**
     * `execute`: pop the head; deny it by robots.txt if configured; fetch it; below the depth
     * bound, mark its unseen links visited and queue them, keyword links first; publish the
     * page record. Redis and RabbitMQ failures are `unwrap()`ed in the source, so both must
     * be up.
     */
    method Execute(w: World) returns (r: Result<HttpResponse, string>)
      requires w.storeUp && w.brokerUp
      requires queue != [] && w.validate(queue[0].target).Success? ==> queue[0].client.Some?
      modifies this, robots
      // an empty queue: an error, and nothing changes
      ensures old(queue) == [] ==>
                && r == Failure("Queue is empty")
                && queue == old(queue) && visited == old(visited) && published == old(published)
                && robots.cache == old(robots.cache)
      // the robots gate runs only when configured, and only on the popped head
      ensures old(queue) != [] ==>
                robots.cache == (if respectRobotsTxt then Robots.Decide(old(robots.cache), old(queue)[0].target, w).1
                                 else old(robots.cache))
      // a denial or a failed fetch drops the head and changes nothing else
      ensures old(queue) != [] && respectRobotsTxt && !Robots.Decide(old(robots.cache), old(queue)[0].target, w).0 ==>
                && r == Failure("URL is not allowed by robots.txt: " + old(queue)[0].target)
                && queue == old(queue)[1..] && visited == old(visited) && published == old(published)
      ensures old(queue) != [] && (!respectRobotsTxt || Robots.Decide(old(robots.cache), old(queue)[0].target, w).0) ==>
                Fetched(old(queue)[0], old(queue)[1..], old(visited), old(published), r, queue, visited, published,
                        maxDepth, keywords, w)
      // what `start` relies on
      ensures old(visited) <= visited <= old(visited) + Reach(w)
      ensures old(published) <= published
      ensures old(queue) != [] && visited == old(visited) ==> |queue| < |old(queue)|
      ensures old(ClientsPresent()) ==> ClientsPresent()
      ensures old(DepthsBounded()) ==> DepthsBounded()
    {
      if queue == [] {
        return Failure("Queue is empty");
      }
      var req := queue[0];
      queue := queue[1..];
      if respectRobotsTxt {
        var allowed := robots.IsAllowed(req.target, w);
        if !allowed {
          return Failure("URL is not allowed by robots.txt: " + req.target);
        }
      }
      r := FetchAndEnroll(req, w);
    }

    /** The part of `execute` from the fetch of the popped, admitted request `req` on. */
    method FetchAndEnroll(req: HttpRequest, w: World) returns (r: Result<HttpResponse, string>)
      requires w.validate(req.target).Success? ==> req.client.Some?
      modifies this
      ensures Fetched(req, old(queue), old(visited), old(published), r, queue, visited, published, maxDepth, keywords, w)
      ensures old(visited) <= visited <= old(visited) + Reach(w)
      ensures old(published) <= published
      ensures visited == old(visited) ==> queue == old(queue)
      ensures old(ClientsPresent()) ==> ClientsPresent()
      ensures old(DepthsBounded()) ==> DepthsBounded()
    {
      var res := Http.Execute(req, w);
      if res.Failure? {
        return Failure("Request error: " + res.error);
      }
      var response := res.value;
      if req.depth < maxDepth {
        ghost var v0 := visited;
        EnrollLinks(response.extra.value.links, req.depth);
        assert Elems(response.extra.value.links) <= Reach(w);
        if visited == v0 {
          NoChildrenWhenAllVisited(response.extra.value.links, v0, keywords);
        }
      }
      published := published + [PageOf(req.target, response)];
      r := Success(response);
    }

    /**
     * The enrolment step of `execute` for a page at `depth`: each link is checked against
     * the visited set and skipped if visited, else marked and sorted by keyword; then the
     * keyword links and the other links are pushed, one level deeper.
     */
    method EnrollLinks(links: seq<string>, depth: nat)
      modifies this
      ensures queue == old(queue) + Children(links, old(visited), keywords, depth)
      ensures visited == old(visited) + Elems(links)
      ensures published == old(published)
    {
      var prioritized, others := MarkUnseen(links);
      PushAll(prioritized, depth + 1);
      PushAll(others, depth + 1);
      TasksAppend(prioritized, others, depth + 1);
    }

    /**
     * The link loop of `execute`: a link already in the visited set is skipped; any other
     * is marked visited and goes to the keyword list or to the other list.
     */
    method MarkUnseen(links: seq<string>) returns (prioritized: seq<string>, others: seq<string>)
      modifies this
      ensures prioritized == Select(Fresh(links, old(visited)), keywords, true)
      ensures others == Select(Fresh(links, old(visited)), keywords, false)
      ensures visited == old(visited) + Elems(links)
      ensures queue == old(queue) && published == old(published)
    {
      ghost var visited0 := visited;
      prioritized, others := [], [];
      for i := 0 to |links|
        invariant MarkedUpTo(links, i, visited0, visited, prioritized, others, keywords)
        invariant queue == old(queue) && published == old(published)
      {
        var link := links[i];
        MarkStep(links, i, visited0, visited, prioritized, others, keywords);
        if link !in visited {
          visited := visited + {link};
          if IsPriority(link, keywords) {
            prioritized := prioritized + [link];
          } else {
            others := others + [link];
          }
        }
      }
      assert links[..|links|] == links;
    }

    /** One of the two push loops of `execute`: a request per link, at `depth`, in order. */
    method PushAll(links: seq<string>, depth: nat)
      modifies this
      ensures queue == old(queue) + Tasks(links, depth)
      ensures visited == old(visited) && published == old(published)
    {
      for i := 0 to |links|
        invariant queue == old(queue) + Tasks(links[..i], depth)
        invariant visited == old(visited) && published == old(published)
      {
        Push(New(links[i], depth));
        assert links[..i + 1] == links[..i] + [links[i]];
        TasksAppend(links[..i], [links[i]], depth);
      }
      assert links[..|links|] == links;
    }

    /**
     * `start`: execute until the queue is empty. Every discovered URL is marked visited before
     * it is queued, so each can be queued once and the crawl of a finite web ends.
     */
    method Start(w: World)
      requires w.storeUp && w.brokerUp
      requires ClientsPresent()
      modifies this, robots
      ensures queue == []
      ensures old(visited) <= visited
      ensures old(published) <= published
    {
      while queue != []
        invariant ClientsPresent()
        invariant old(visited) <= visited
        invariant old(published) <= published
        decreases |Reach(w) - visited|, |queue|
      {
        ghost var v0 := visited;
        var _ := Execute(w);
        if visited != v0 {
          RemainderShrinks(Reach(w), v0, visited);
        }
      }
    }
  }
}
