/**
 * The crawler's external collaborators, reduced to what its decision code observes:
 * URL parsing (the `url` crate), the HTTP transport (reqwest), HTML selection (scraper),
 * the robots.txt fetch, and whether the Redis store and the RabbitMQ broker answer.
 */
module Collaborators {
  import opened Basics

  /** One response header; `value` is None when it is not visible ASCII (`to_str()` fails). */
  datatype Header = Header(name: string, value: Option<string>)

  /** A `<meta name=...>` element; `content` is None when the attribute is absent. */
  datatype MetaTag = MetaTag(name: string, content: Option<string>)

  /** What scraper selects from a body: `a[href]` values, `meta[name]` elements, `meta[charset]` values. */
  datatype Document = Document(hrefs: seq<string>, namedMetas: seq<MetaTag>, charsets: seq<string>)

  /** An HTTP reply that arrived; `body` is None when reading it as text failed. */
  datatype Reply = Reply(status: nat, headers: seq<Header>, body: Option<string>)

  /** The outcome of fetching `<url>/robots.txt`. */
  datatype RobotsReply =
    | JoinFailed                                   // `url.join("/robots.txt")` failed
    | TransportFailed                              // `reqwest::get` failed
    | Received(status: nat, body: Option<string>)  // body None: `text()` failed

  predicate IsSuccess(status: nat) {
    200 <= status < 300
  }

  datatype World = World(
    validate: string -> Result<(), string>, // validators::validate_url
    parseUrl: string -> Option<string>,     // url::Url::parse, as the parsed URL's serialisation
    origin: string -> string,               // origin().ascii_serialization() of a parsed URL
    domainOf: string -> Option<string>,     // Url::parse(..) then .domain(); None if either fails
    pages: map<string, Reply>,              // HTTP GET by URL; a URL outside the map fails in transport
    parseHtml: string -> Document,          // scraper selections on a body
    robotsReply: string -> RobotsReply,     // the robots.txt fetch made for a URL
    storeUp: bool,                          // the Redis store answers
    brokerUp: bool                          // the RabbitMQ broker accepts publishes
  )

  /** `validate_url` parses the URL with `Url::parse` before checking its scheme, so a valid URL parses. */
  ghost predicate UrlsCoherent(w: World) {
    forall u :: w.validate(u).Success? ==> w.parseUrl(u).Some?
  }
}
