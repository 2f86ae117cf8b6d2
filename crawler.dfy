/**
 * The older crawl loop of crawler/src/crawler.rs. Like the agent it pops requests from a FIFO
 * queue, gates them by robots.txt and fetches them, but it deduplicates only the fetched
 * target (through the visited-URL service) and queues every link of a page, unfiltered,
 * one level deeper. The Redis store is the `store` map; whether it and the broker answer
 * comes from the world.
 */
module Crawler {
  import opened Basics
  import opened Collaborators
  import opened Http
  import Robots
  import UrlService

  // ---------------------------------------------------------------- why `start` ends

  /**
   * The weight of one request with `k` levels left below it, when no page has more than
   * `fan` links: itself, plus the weight of every request it can add.
   */
  function Levels(k: nat, fan: nat): (r: nat)
    ensures r >= 1
  {
    if k == 0 then 1 else 1 + fan * Levels(k - 1, fan)
  }

  function Cost(req: HttpRequest, maxDepth: nat, fan: nat): nat {
    Levels(if req.depth < maxDepth then maxDepth - req.depth else 0, fan)
  }

  /** The work a queue can still cause: the sum of its requests' costs. */
  function Weight(q: seq<HttpRequest>, maxDepth: nat, fan: nat): (r: nat)
    ensures q != [] ==> r >= 1
  {
    if q == [] then 0 else Cost(q[0], maxDepth, fan) + Weight(q[1..], maxDepth, fan)
  }

  lemma {:induction false} WeightAppend(a: seq<HttpRequest>, b: seq<HttpRequest>, maxDepth: nat, fan: nat)
    ensures Weight(a + b, maxDepth, fan) == Weight(a, maxDepth, fan) + Weight(b, maxDepth, fan)
    decreases |a|
  {
    if a == [] {
      assert a + b == b;
    } else {
      assert (a + b)[1..] == a[1..] + b;
      WeightAppend(a[1..], b, maxDepth, fan);
    }
  }

  /** The requests for the links of a page at `depth` weigh one level less than the page each. */
  lemma {:induction false} WeightTasks(links: seq<string>, depth: nat, maxDepth: nat, fan: nat)
    requires depth < maxDepth
    ensures Weight(Tasks(links, depth + 1), maxDepth, fan) == |links| * Levels(maxDepth - depth - 1, fan)
    decreases |links|
  {
    if links != [] {
      assert Tasks(links, depth + 1)[1..] == Tasks(links[1..], depth + 1);
      WeightTasks(links[1..], depth, maxDepth, fan);
    }
  }

  /** Expanding a page with at most `fan` links replaces it by requests that weigh less. */
  lemma ExpansionShrinks(req: HttpRequest, rest: seq<HttpRequest>, links: seq<string>, maxDepth: nat, fan: nat)
    requires req.depth < maxDepth && |links| <= fan
    ensures Weight(rest + Tasks(links, req.depth + 1), maxDepth, fan) < Cost(req, maxDepth, fan) + Weight(rest, maxDepth, fan)
  {
    var below := Levels(maxDepth - req.depth - 1, fan);
    WeightAppend(rest, Tasks(links, req.depth + 1), maxDepth, fan);
    WeightTasks(links, req.depth, maxDepth, fan);
    MulMono(|links|, fan, below);
  }

  /** How many links a successful fetch of `u` returns. */
  ghost function LinkCount(u: string, w: World): nat {
    if Respond(u, w).Success? then |Respond(u, w).value.extra.value.links| else 0
  }

  /** The most links any of the pages `keys` returns. */
  ghost function MaxLinks(keys: set<string>, w: World): (r: nat)
    ensures forall u | u in keys :: LinkCount(u, w) <= r
    decreases keys
  {
    if keys == {} then 0
    else
      var u :| u in keys;
      var m := MaxLinks(keys - {u}, w);
      if LinkCount(u, w) <= m then m else LinkCount(u, w)
  }

  /** The most links any page of `w` returns: every successful fetch returns at most this many. */
  ghost function Fan(w: World): (r: nat)
    ensures forall u | Respond(u, w).Success? :: |Respond(u, w).value.extra.value.links| <= r
  {
    MaxLinks(w.pages.Keys, w)
  }

  // ---------------------------------------------------------------- the crawler

  /** The outcome of the final publish of `execute`: the page record is sent only if the broker answers. */
  ghost predicate PublishedOrFailed(before: seq<PageData>, after: seq<PageData>, r: Result<HttpResponse, string>,
                                    target: string, res: HttpResponse, w: World)
    requires res.extra.Some?
  {
    if w.brokerUp then r == Success(res) && after == before + [PageOf(target, res)]
    else r == Failure("RabbitMQ enqueue error") && after == before
  }

  /**
   * What `execute` does once `req` is popped (leaving `rest`) and admitted by robots.txt:
   * a failed fetch is an error and changes nothing else; at the depth bound the page is
   * only published; below it, a target the store reports visited ends the call with the
   * response, and any other target is marked and all its links are queued one level deeper
   * before the page is published.
   */
  ghost predicate Fetched(req: HttpRequest, rest: seq<HttpRequest>, store0: map<string, string>, published0: seq<PageData>,
                          r: Result<HttpResponse, string>, queue: seq<HttpRequest>, store: map<string, string>,
                          published: seq<PageData>, maxDepth: nat, w: World)
  {
    match Respond(req.target, w)
    case Failure(e) =>
      && r == Failure("Request error: " + e)
      && queue == rest && store == store0 && published == published0
    case Success(res) =>
      var key := w.parseUrl(req.target).value;
      var seen := UrlService.IsVisited(store0, w.storeUp, key) == Success(true);
      && (req.depth >= maxDepth ==>
            && queue == rest && store == store0
            && PublishedOrFailed(published0, published, r, req.target, res, w))
      && (req.depth < maxDepth && seen ==>
            && r == Success(res)
            && queue == rest && store == store0 && published == published0)
      && (req.depth < maxDepth && !seen ==>
            && store == UrlService.MarkVisited(store0, w.storeUp, key).1
            && queue == rest + Tasks(res.extra.value.links, req.depth + 1)
            && PublishedOrFailed(published0, published, r, req.target, res, w))
  }

  class Crawler {
    const name: string
    const maxDepth: nat
    const respectRobotsTxt: bool
    const robots: Robots.RobotsTxtClient
    var queue: seq<HttpRequest>
    /** The Redis entries of the visited-URL service. */
    var store: map<string, string>
    /** The page records sent to RabbitMQ, oldest first. */
    ghost var published: seq<PageData>

    predicate ClientsPresent()
      reads this
    {
      forall i | 0 <= i < |queue| :: queue[i].client.Some?
    }

    predicate DepthsBounded()
      reads this
    {
      forall i | 0 <= i < |queue| :: queue[i].depth <= maxDepth
    }

    /** `new`: one depth-0 request per seed, in seed order, over the store's current entries. */
    constructor New(name: string, store0: map<string, string>, respectRobotsTxt: bool, maxDepth: nat, seeds: seq<string>)
      ensures this.name == name && this.maxDepth == maxDepth && this.respectRobotsTxt == respectRobotsTxt
      ensures queue == Tasks(seeds, 0)
      ensures store == store0 && published == []
      ensures fresh(robots) && robots.cache == map[]
      ensures ClientsPresent() && DepthsBounded()
    {
      this.name := name;
      this.maxDepth := maxDepth;
      this.respectRobotsTxt := respectRobotsTxt;
      robots := new Robots.RobotsTxtClient();
      queue := [];
      store := store0;
      published := [];
      new;
      PushAll(seeds, 0);
    }

    /** `push`: the request goes to the back; nothing else changes. */
    method Push(req: HttpRequest)
      modifies this
      ensures queue == old(queue) + [req]
      ensures store == old(store) && published == old(published)
    {
      queue := queue + [req];
    }

    /** The seed loop of `new` and the link loop of `execute`: a request per link, at `depth`, in order. */
    method PushAll(links: seq<string>, depth: nat)
      modifies this
      ensures queue == old(queue) + Tasks(links, depth)
      ensures store == old(store) && published == old(published)
    {
      for i := 0 to |links|
        invariant queue == old(queue) + Tasks(links[..i], depth)
        invariant store == old(store) && published == old(published)
      {
        Push(Http.New(links[i], depth));
        assert links[..i + 1] == links[..i] + [links[i]];
        TasksAppend(links[..i], [links[i]], depth);
      }
      assert links[..|links|] == links;
    }

    /**
     * `execute`: pop the head; deny it by robots.txt if configured; fetch it. Below the depth
     * bound, a target the store reports visited ends the call with the response and nothing
     * published; any other target is marked (a store error is ignored) and every link of the
     * page is queued one level deeper. Then the page record is published.
     */
    method Execute(w: World) returns (r: Result<HttpResponse, string>)
      requires queue != [] && w.validate(queue[0].target).Success? ==> queue[0].client.Some?
      modifies this, robots
      ensures old(queue) == [] ==>
                && r == Failure("Queue is empty")
                && queue == old(queue) && store == old(store) && published == old(published)
                && robots.cache == old(robots.cache)
      ensures old(queue) != [] ==>
                robots.cache == (if respectRobotsTxt then Robots.Decide(old(robots.cache), old(queue)[0].target, w).1
                                 else old(robots.cache))
      ensures old(queue) != [] && respectRobotsTxt && !Robots.Decide(old(robots.cache), old(queue)[0].target, w).0 ==>
                && r == Failure("URL is not allowed by robots.txt: " + old(queue)[0].target)
                && queue == old(queue)[1..] && store == old(store) && published == old(published)
      ensures old(queue) != [] && (!respectRobotsTxt || Robots.Decide(old(robots.cache), old(queue)[0].target, w).0) ==>
                Fetched(old(queue)[0], old(queue)[1..], old(store), old(published), r, queue, store, published, maxDepth, w)
      // what `start` relies on
      ensures old(queue) != [] ==> Weight(queue, maxDepth, Fan(w)) < Weight(old(queue), maxDepth, Fan(w))
      ensures old(published) <= published
      ensures old(ClientsPresent()) ==> ClientsPresent()
      ensures old(DepthsBounded()) ==> DepthsBounded()
    {
      if queue == [] {
        return Failure("Queue is empty");
      }
      var req := queue[0];
      queue := queue[1..];
      if respectRobotsTxt {
        var allowed := robots.IsAllowed(req.target, w);
        if !allowed {
          return Failure("URL is not allowed by robots.txt: " + req.target);
        }
      }
      r := FetchAndExpand(req, w);
    }

    /** The part of `execute` from the fetch of the popped, admitted request `req` on. */
    method FetchAndExpand(req: HttpRequest, w: World) returns (r: Result<HttpResponse, string>)
      requires w.validate(req.target).Success? ==> req.client.Some?
      modifies this
      ensures Fetched(req, old(queue), old(store), old(published), r, queue, store, published, maxDepth, w)
      ensures Weight(queue, maxDepth, Fan(w)) < Cost(req, maxDepth, Fan(w)) + Weight(old(queue), maxDepth, Fan(w))
      ensures old(published) <= published
      ensures old(ClientsPresent()) ==> ClientsPresent()
      ensures old(DepthsBounded()) ==> DepthsBounded()
    {
      var res := Http.Execute(req, w);
      if res.Failure? {
        return Failure("Request error: " + res.error);
      }
      r := Expand(req, res.value, w);
    }

    /**
     * The part of `execute` after a successful fetch of `req`, whose head is already popped:
     * the depth bound, the store check and mark, the link loop and the publish.
     */
    method Expand(req: HttpRequest, res: HttpResponse, w: World) returns (r: Result<HttpResponse, string>)
      requires res.extra.Some? && w.parseUrl(req.target).Some?
      requires |res.extra.value.links| <= Fan(w)
      modifies this
      ensures var key := w.parseUrl(req.target).value;
              var seen := UrlService.IsVisited(old(store), w.storeUp, key) == Success(true);
              && (req.depth >= maxDepth ==>
                    && queue == old(queue) && store == old(store)
                    && PublishedOrFailed(old(published), published, r, req.target, res, w))
              && (req.depth < maxDepth && seen ==>
                    && r == Success(res)
                    && queue == old(queue) && store == old(store) && published == old(published))
              && (req.depth < maxDepth && !seen ==>
                    && store == UrlService.MarkVisited(old(store), w.storeUp, key).1
                    && queue == old(queue) + Tasks(res.extra.value.links, req.depth + 1)
                    && PublishedOrFailed(old(published), published, r, req.target, res, w))
      ensures Weight(queue, maxDepth, Fan(w)) < Cost(req, maxDepth, Fan(w)) + Weight(old(queue), maxDepth, Fan(w))
      ensures old(published) <= published
      ensures old(ClientsPresent()) ==> ClientsPresent()
      ensures old(DepthsBounded()) ==> DepthsBounded()
    {
      if req.depth < maxDepth {
        var key := w.parseUrl(req.target).value;
        var visited := UrlService.IsVisited(store, w.storeUp, key);
        if visited == Success(true) {
          return Success(res);
        }
        var marked := UrlService.MarkVisited(store, w.storeUp, key);
        store := marked.1;
        PushAll(res.extra.value.links, req.depth + 1);
        ExpansionShrinks(req, old(queue), res.extra.value.links, maxDepth, Fan(w));
      }
      if !w.brokerUp {
        return Failure("RabbitMQ enqueue error");
      }
      published := published + [PageOf(req.target, res)];
      r := Success(res);
    }

    /**
     * `start`: execute until the queue is empty, whatever each call returns. Every page sits
     * a bounded number of levels above the depth bound, so the loop ends.
     */
    method Start(w: World)
      requires ClientsPresent()
      modifies this, robots
      ensures queue == []
      ensures old(published) <= published
    {
      while queue != []
        invariant ClientsPresent()
        invariant old(published) <= published
        decreases Weight(queue, maxDepth, Fan(w))
      {
        var _ := Execute(w);
      }
    }
  }
}
