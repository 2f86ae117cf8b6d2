/**
 * The visited-URL service of crawler/src/services/urlservice.rs over the Redis key-value
 * driver. The store is a map from keys to stored values plus whether Redis answers; the URL
 * is stored under its own string, with itself as the value (its JSON encoding is left out).
 */
module UrlService {
  import opened Basics

  /** `DriverError::InternalError`; the driver's messages keep only their fixed prefix. */
  datatype DriverError = InternalError(msg: string)

  /**
   * `RedisDriver::get`: a Redis failure is a get error; a missing key reads as no bytes,
   * which then fails to deserialise.
   */
  function Get(entries: map<string, string>, up: bool, key: string): (r: Result<string, DriverError>)
    ensures r.Success? <==> up && key in entries
    ensures r.Success? ==> r.value == entries[key]
  {
    if !up then Failure(InternalError("Redis get error"))
    else if key !in entries then Failure(InternalError("Deserialization error"))
    else Success(entries[key])
  }

  /** `RedisDriver::set`: the new entries and the outcome. */
  function Set(entries: map<string, string>, up: bool, key: string, value: string): (r: (Result<(), DriverError>, map<string, string>))
    ensures r.0.Success? <==> up
    ensures up ==> r.1 == entries[key := value]
    ensures !up ==> r.1 == entries
  {
    if up then (Success(()), entries[key := value])
    else (Failure(InternalError("Redis set error")), entries)
  }

  /**
   * `is_visited`: a successful `get` maps to `Ok(true)` and every error is passed on
   * unchanged, so the answer is never `Ok(false)`: an unvisited URL reads as an error.
   */
  function IsVisited(entries: map<string, string>, up: bool, url: string): (r: Result<bool, DriverError>)
    ensures r != Success(false)
    ensures r == Success(true) <==> up && url in entries
    ensures r.Failure? ==> r == Failure(Get(entries, up, url).error)
  {
    match Get(entries, up, url)
    case Success(_) => Success(true)
    case Failure(e) => Failure(e)
  }

  /** `mark_visited`: `set(url, url)`, whose outcome is returned unchanged. */
  function MarkVisited(entries: map<string, string>, up: bool, url: string): (r: (Result<(), DriverError>, map<string, string>))
    ensures r.0.Success? <==> up
    ensures up ==> url in r.1 && r.1[url] == url
    ensures forall k | k in entries && k != url :: k in r.1 && r.1[k] == entries[k]
    ensures forall k | k in r.1 :: k in entries || k == url
  {
    Set(entries, up, url, url)
  }

  /** Marking a URL, then asking about it, answers `Ok(true)`. */
  lemma MarkThenVisited(entries: map<string, string>, up: bool, url: string)
    requires up
    ensures IsVisited(MarkVisited(entries, up, url).1, up, url) == Success(true)
  {
  }

  /** Marking one URL does not change the answer for any other URL. */
  lemma MarkLeavesOthers(entries: map<string, string>, up: bool, url: string, other: string)
    requires other != url
    ensures IsVisited(MarkVisited(entries, up, url).1, up, other) == IsVisited(entries, up, other)
  {
  }
}
