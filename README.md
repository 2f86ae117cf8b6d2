# Web crawler core, modelled in Dafny

This project models the sequential decision code of a Rust web crawler and proves properties of it:

- **Crawl agents.** There are two variants, each a class over a FIFO queue of `(target, depth)` requests.
  - `CrawlerAgent` (crawler/src/agents/crawler_agent.rs) checks every discovered link against a visited set and marks it. It queues links that match a keyword before the others, and it stops expanding at a depth bound.
  - `Crawler` (crawler/src/crawler.rs) checks only the fetched target against the visited-URL store. It then appends every link of the page, one level deeper.
- **robots.txt gate** (crawler/src/clients/robots.rs). A per-domain cache of raw robots.txt bodies that fails open when the fetch goes wrong. It uses a line scan that only knows `User-agent: *` and `Disallow:` lines. The scan is not the matching of RFC 9309, section 2.2.2. A `Disallow:` path is looked for anywhere in the whole URL string, and any line starting with `Disallow: /` denies every URL.
- **HTTP request** (crawler/src/requests/http.rs and its depth-less predecessor crawler/src/requests/http_request.rs). It validates the target, shapes the title, header and meta strings, prefixes root-relative links with the origin, and keeps only the links that validate. The link fix-up and the filter are in-place array methods.
- **Text extraction** (crawler/src/parsers/http_parser.rs). A tag strip, a replacement of twelve special characters by spaces, whitespace tokenising and stemming.
- **JSON-lines writer** (crawler/src/agents/crawler_writer.rs). It buffers lines in batches of ten and appends them to a file, which is modelled as the sequence of strings written.
- **Consumer message gate** (crawler/src/messages.rs). A content-type check with a `*` wildcard, then removal of backslashes and line feeds before JSON parsing.
- **Start-up partition** (crawler/src/main.rs). `N_AGENTS` is parsed (default 4), the seeds are cut into `div_ceil`-sized contiguous chunks, and one agent starts per chunk.
- **Visited-URL service** (crawler/src/services/urlservice.rs) over the Redis key-value driver (drivers/src/redis.rs).

Everything outside the process is a `Collaborators.World` value:
- URL validation and parsing, origin serialisation and domain extraction;
- the pages an HTTP GET returns, as a finite map from URL to reply;
- the HTML selection of links and meta tags;
- the robots.txt fetch;
- whether the Redis store and the RabbitMQ broker answer.

The published page records are a ghost sequence in each agent.

Termination of both `start` loops is proved:
- the agent marks a link before queueing it as a child, so each URL of the finite `World` is queued as a child at most once. The seeds are pushed without being marked (crawler/src/agents/crawler_agent.rs:72-75), so a seed may be queued again; the measure is the pair (unvisited reachable URLs, queue length), compared lexicographically;
- the `Crawler` does no per-link dedup, so its measure is a weighted queue size. Each request weighs `1 + F + F^2 + ...` up to the levels left before the depth bound, where `F` is the largest link count of any page.

Behaviour of the code worth knowing, all modelled as written:
- **robots.txt cache.** The cache holds the raw robots.txt body of each domain and rescans it on every hit (crawler/src/clients/robots.rs:27-30, :52).
- **Robots `Disallow: /` lines.** Any `Disallow: /…` line after `User-agent: *` sets `disallow_all` (crawler/src/clients/robots.rs:68-69), so `Disallow: /private` also denies `https://example.com/public/x`. `Robots.PrivateRuleDeniesPublicPage` proves this.
- **Visited check.** `is_visited` can never answer `Ok(false)`: a URL that is not in the store reads as an error (crawler/src/services/urlservice.rs:29). `Crawler.execute` logs that error and goes on as if the URL were unvisited (crawler/src/crawler.rs:93-100).

## Model

| member | source | states |
|---|---|---|
| Text.TrimSlice | crawler/src/clients/robots.rs:73 | `trim()` is a slice of the line that drops exactly the leading and trailing whitespace; its ends are not whitespace |
| Text.Decimal | crawler/src/agents/crawler_agent.rs:58 | the decimal rendering of the agent id is a non-empty digit string; `Supervisor.DecimalValue` reads it back |
| Http.New | crawler/src/requests/http.rs:47-57 | the request keeps target and depth and always has a client |
| Http.TitleOf | crawler/src/requests/http.rs:86-91 | the title is the value of the first `title` header, or "No title" when there is none or its value is not text |
| Http.HeaderLineRoundTrip | crawler/src/requests/http.rs:95-99 | each "name: value" header string reads back as the header's name and its value ("" when not text) |
| Http.NamedMetaLines | crawler/src/requests/http.rs:143-150 | at most one string per named meta tag: exactly one per tag when every tag has content, none when no tag has content |
| Http.NamedMetaLinesOne | crawler/src/requests/http.rs:143-150 | a tag with content gives the single string "name: content", a tag without content gives none |
| Http.NamedMetaLinesAppend | crawler/src/requests/http.rs:143-150 | the strings follow the tags' document order: the lines of two runs of tags are the first run's lines, then the second's |
| Http.NamedMetaLinesEach | crawler/src/requests/http.rs:143-150 | when every tag has content, the `i`-th string is the `i`-th tag's "name: content" |
| Http.MetaLines | crawler/src/requests/http.rs:140-164 | the named meta strings come first, then one "charset: X" per charset meta, in document order |
| Http.FixedLinksNotRootRelative | crawler/src/requests/http.rs:125-129 | after the fix-up no link starts with '/', and every link that did not start with '/' is unchanged |
| Http.ProtocolRelativeLinkPrefixed | crawler/src/requests/http.rs:125-129 | a protocol-relative `//host/x` link is also prefixed with the origin |
| Http.Retain | crawler/src/requests/http.rs:132-138 | the kept links are exactly the page's links that validate |
| Http.RetainCounts | crawler/src/requests/http.rs:132-138 | a valid link is kept as often as it occurs and an invalid one never |
| Http.RetainAppend | crawler/src/requests/http.rs:132-138 | the filter keeps the original order: it distributes over concatenation |
| Http.Tasks | crawler/src/crawler.rs:108-110 | one request per link, at the given depth, in link order, each with a client |
| Http.TasksAppend | crawler/src/agents/crawler_agent.rs:131-139 | the requests for two link lists pushed one after the other are the requests of the joined list |
| Http.Respond | crawler/src/requests/http.rs:60-174 | a failing validation returns the validator's error; a success needs a reply with a readable body and a parsable target, and carries the status, the title, the header and meta strings, the body and the fixed-up valid links |
| Http.ValidReadablePageSucceeds | crawler/src/requests/http.rs:63-123 | when the validator parses the URL, as `validate_url` does, a valid target whose page arrives with a readable body always yields a response, so the "Error parsing target URL" branch is never taken |
| Http.FixUpLinks | crawler/src/requests/http.rs:125-129 | the in-place rewrite leaves the array equal to the fixed-up links |
| Http.RetainValid | crawler/src/requests/http.rs:132-138 | the in-place filter leaves the kept links, in order, in the first `n` cells |
| Http.Fetch | crawler/src/requests/http.rs:60-174 | the imperative `execute` body returns what `Respond` specifies |
| Http.Execute | crawler/src/requests/http.rs:60-174 | `execute` returns what `Respond` specifies, given a client whenever the target validates |
| HttpLegacy.New | crawler/src/requests/http_request.rs:33-38 | the depth-less request keeps its target and always has a client |
| HttpLegacy.Execute | crawler/src/requests/http_request.rs:40-137 | an invalid target returns the validator's error; every result equals the one `http.rs` gives |
| Robots.Lines | crawler/src/clients/robots.rs:63 | Rust's `lines()`: no line contains a line feed |
| Robots.LinesRoundTrip | crawler/src/clients/robots.rs:63 | for a text without '\r', the lines joined by line feeds, plus the final line feed if the text had one, give the text back: nothing but the separators is lost and no empty last line is added |
| Robots.CRLFLineStripped | crawler/src/clients/robots.rs:63 | a line ending in "\r\n" is yielded without its '\r', followed by the lines of the rest |
| Robots.NoUserAgentAllowsAll | crawler/src/clients/robots.rs:63-66 | without a `User-agent: *` line every URL is allowed |
| Robots.LinesBeforeUserAgentIgnored | crawler/src/clients/robots.rs:60-66 | lines before the first `User-agent: *` never change the decision |
| Robots.OtherLinesIgnored | crawler/src/clients/robots.rs:63-79 | a line that is neither `User-agent: *` nor `Disallow:`, such as another agent's `User-agent:` line, changes nothing wherever it stands: the flag is sticky |
| Robots.DisallowSlashDeniesEverything | crawler/src/clients/robots.rs:68-69 | after `User-agent: *`, a `Disallow: /…` line denies every URL |
| Robots.DisallowSubstringDenies | crawler/src/clients/robots.rs:72-78 | after `User-agent: *`, a `Disallow:` path found anywhere in the URL denies it |
| Robots.EmptyDisallowDeniesEverything | crawler/src/clients/robots.rs:72-78 | after `User-agent: *`, an empty `Disallow:` denies every URL |
| Robots.PrivateRuleDeniesPublicPage | crawler/src/clients/robots.rs:68-69 | `Disallow: /private` denies `https://example.com/public/x` |
| Robots.ScanEndDecides | crawler/src/clients/robots.rs:80-82 | a scan with no early denial answers the negation of `disallow_all` |
| Robots.Decide | crawler/src/clients/robots.rs:16-57 | the cache only grows, by the URL's own domain; cached bodies are never overwritten |
| Robots.SuccessCachesBody | crawler/src/clients/robots.rs:46-53 | for an uncached domain, a robots.txt fetched with a success status and a readable body decides the URL by its rules, and the raw body is cached under the domain |
| Robots.JoinFailedDenies | crawler/src/clients/robots.rs:32-35 | when the robots.txt location cannot be built, the URL is denied and the cache is unchanged |
| Robots.MalformedUrlDenied | crawler/src/clients/robots.rs:17-25 | a URL without a parsable domain is denied with no fetch and no cache change |
| Robots.FetchProblemsAllow | crawler/src/clients/robots.rs:38-56 | a transport failure, an unreadable body or a non-success status allows and leaves the cache unchanged |
| Robots.CacheHitDecidesFromBody | crawler/src/clients/robots.rs:27-30 | a cache hit decides from the cached body and changes nothing |
| Robots.DecideIdempotent | crawler/src/clients/robots.rs:46-53 | asking again gives the same answer and the same cache: a freshly cached body decides as a later hit does |
| Robots.RobotsTxtClient.constructor | crawler/src/clients/robots.rs:10-14 | the cache starts empty |
| Robots.RobotsTxtClient.ParseRobotsTxt | crawler/src/clients/robots.rs:59-83 | the flag scan with its early return answers `Allows`: no line at or after a `User-agent: *` line denies the URL |
| Robots.RobotsTxtClient.IsAllowed | crawler/src/clients/robots.rs:16-57 | the answer and the new cache are those of `Decide` |
| UrlService.Get | drivers/src/redis.rs:53-62 | a get succeeds exactly when Redis answers and the key is present, with the stored value |
| UrlService.Set | drivers/src/redis.rs:42-51 | a set succeeds exactly when Redis answers, and then stores the value under the key |
| UrlService.IsVisited | crawler/src/services/urlservice.rs:28-30 | never `Ok(false)`; `Ok(true)` exactly when the URL is stored; any get error is passed on unchanged |
| UrlService.MarkVisited | crawler/src/services/urlservice.rs:32-36 | stores the URL under itself; other keys keep their values; the outcome is the set's |
| UrlService.MarkThenVisited | crawler/src/services/urlservice.rs:28-36 | after a successful mark, the URL reads as visited |
| UrlService.MarkLeavesOthers | crawler/src/services/urlservice.rs:28-36 | marking one URL does not change the answer for another |
| CrawlerAgent.FreshMembers | crawler/src/agents/crawler_agent.rs:117-122 | the links the dedup pass keeps are exactly the page's links that were not visited |
| CrawlerAgent.FreshDistinct | crawler/src/agents/crawler_agent.rs:117-122 | the dedup pass never keeps a link twice, even one repeated on the page |
| CrawlerAgent.SelectMembers | crawler/src/agents/crawler_agent.rs:124-128 | each of the two lists holds exactly the links on its side of the keyword test |
| CrawlerAgent.SelectAppend | crawler/src/agents/crawler_agent.rs:124-128 | the keyword split keeps discovery order |
| CrawlerAgent.SelectSplits | crawler/src/agents/crawler_agent.rs:124-128 | the two lists together hold every kept link as often as it was kept |
| CrawlerAgent.SelectDistinct | crawler/src/agents/crawler_agent.rs:124-128 | splitting a list without repetitions gives lists without repetitions |
| CrawlerAgent.ChildLinksMembers | crawler/src/agents/crawler_agent.rs:117-139 | a page queues exactly its links that were unvisited beforehand |
| CrawlerAgent.ChildLinksDistinct | crawler/src/agents/crawler_agent.rs:117-139 | a page queues each link at most once |
| CrawlerAgent.ChildLinksPriorityFirst | crawler/src/agents/crawler_agent.rs:124-139 | no keyword link is queued after a link without a keyword |
| CrawlerAgent.NoChildrenWhenAllVisited | crawler/src/agents/crawler_agent.rs:117-121 | a page whose links were all visited queues nothing |
| CrawlerAgent.RemainderShrinks | crawler/src/agents/crawler_agent.rs:170 | marking a new URL shrinks the set of URLs still unvisited, which bounds `start` |
| CrawlerAgent.CrawlerAgent.NewWithSeeds | crawler/src/agents/crawler_agent.rs:50-79 | the name is `crawler-<type>-<id>`, the depth bound is the argument, and the queue is the seeds at depth 0 in order |
| CrawlerAgent.CrawlerAgent.Push | crawler/src/agents/crawler_agent.rs:83-86 | the request is appended at the back; nothing else changes |
| CrawlerAgent.CrawlerAgent.Execute | crawler/src/agents/crawler_agent.rs:90-163 | an empty queue is an error with no change; a robots denial or a failed fetch drops the head and changes nothing else; at the depth bound nothing is queued or marked; below it, the queue becomes the tail, then the unseen keyword links, then the other unseen links, all one level deeper, and every page link is marked; the page is published; no queued depth exceeds the bound |
| CrawlerAgent.CrawlerAgent.FetchAndEnroll | crawler/src/agents/crawler_agent.rs:103-162 | from the fetch on, `execute` does what `Fetched` states: a failed fetch changes nothing else; a fetched page is published, and below the depth bound its unseen links are queued keyword-first and all its links marked |
| CrawlerAgent.CrawlerAgent.EnrollLinks | crawler/src/agents/crawler_agent.rs:111-140 | the queue gains the page's child requests and the visited set gains its links |
| CrawlerAgent.CrawlerAgent.MarkUnseen | crawler/src/agents/crawler_agent.rs:114-129 | the loop splits the unseen links by keyword, in order, and marks every link |
| CrawlerAgent.CrawlerAgent.PushAll | crawler/src/agents/crawler_agent.rs:131-139 | each push loop appends one request per link, in order, at the given depth |
| CrawlerAgent.CrawlerAgent.Start | crawler/src/agents/crawler_agent.rs:167-184 | the loop ends, with an empty queue; the visited set and the published records only grow |
| Crawler.WeightAppend | crawler/src/crawler.rs:142-159 | the weight of a queue is the sum of the weights of its parts |
| Crawler.WeightTasks | crawler/src/crawler.rs:108-110 | the children of a page weigh one level less each |
| Crawler.ExpansionShrinks | crawler/src/crawler.rs:85-110 | replacing a popped request by its children lowers the queue's weight |
| Crawler.Fan | crawler/src/crawler.rs:108-110 | no page the crawler can fetch has more links than `Fan` |
| Crawler.Crawler.New | crawler/src/crawler.rs:26-52 | the queue is the seeds at depth 0, in order |
| Crawler.Crawler.Push | crawler/src/crawler.rs:56-59 | the request is appended at the back; nothing else changes |
| Crawler.Crawler.PushAll | crawler/src/crawler.rs:108-110 | every link of the page is appended one level deeper, duplicates kept, in order |
| Crawler.Crawler.Execute | crawler/src/crawler.rs:63-138 | an empty queue is an error with no change; a robots denial or a failed fetch drops the head with no store access or publish; at the depth bound the page is only published; a target the store reports visited returns the response with nothing queued or published; otherwise the target is marked, all links are queued one level deeper before the publish, and a broker failure is an error that keeps them queued; the queue's weight drops |
| Crawler.Crawler.FetchAndExpand | crawler/src/crawler.rs:77-138 | from the fetch on, `execute` does what `Fetched` states, and the weight drops by at least the popped request's |
| Crawler.Crawler.Expand | crawler/src/crawler.rs:84-137 | the depth bound, the store check and mark, the link loop and the publish, with their outcomes |
| Crawler.Crawler.Start | crawler/src/crawler.rs:142-159 | the loop ends, with an empty queue; published records only grow |
| HttpParser.StripTagsChars | crawler/src/parsers/http_parser.rs:47-48 | stripping only removes characters |
| HttpParser.StripTagsTagFree | crawler/src/parsers/http_parser.rs:47-48 | after stripping, no `<` is followed anywhere later by a `>` |
| HttpParser.StripTagsKeepsText | crawler/src/parsers/http_parser.rs:47-48 | tag-free text is left unchanged |
| HttpParser.StripTagsIdempotent | crawler/src/parsers/http_parser.rs:47-48 | stripping twice is stripping once |
| HttpParser.ReplaceChar | crawler/src/parsers/http_parser.rs:52 | one replacement keeps the length |
| HttpParser.ReplaceEachBlanks | crawler/src/parsers/http_parser.rs:51-63 | the chain of replacements equals one pass that turns each listed character into a space |
| HttpParser.ReplaceFromEach | crawler/src/parsers/http_parser.rs:51-63 | the replacement chain from any step on equals the chain over the remaining characters |
| HttpParser.CleanTextIsBlank | crawler/src/parsers/http_parser.rs:51-63 | the twelve chained replacements are one pass that turns each special character into a space |
| HttpParser.CleanTextBlanks | crawler/src/parsers/http_parser.rs:51-63 | the length is unchanged, each special character becomes a space, others stay, and no special character is left |
| HttpParser.CleanTextTagFree | crawler/src/parsers/http_parser.rs:47-63 | the replacement keeps tag-free text tag-free |
| HttpParser.WordLength | crawler/src/parsers/http_parser.rs:66-69 | a word run never exceeds the text |
| HttpParser.WordLengthRun | crawler/src/parsers/http_parser.rs:66-69 | the run is all non-whitespace and ends at whitespace or at the end |
| HttpParser.WordLengthOfWord | crawler/src/parsers/http_parser.rs:66-69 | a word followed by whitespace is read whole |
| HttpParser.TokensAreWords | crawler/src/parsers/http_parser.rs:66-69 | each token is non-empty and has no whitespace |
| HttpParser.NonSpaceAppend | crawler/src/parsers/http_parser.rs:66-69 | dropping whitespace distributes over concatenation |
| HttpParser.NonSpaceOfWord | crawler/src/parsers/http_parser.rs:66-69 | a word has no whitespace to drop |
| HttpParser.TokensConcat | crawler/src/parsers/http_parser.rs:66-69 | the tokens put together are the text's non-whitespace characters, in order |
| HttpParser.TokensOfJoin | crawler/src/parsers/http_parser.rs:66-69 | words joined by single spaces split back into the same words |
| HttpParser.TokensOfWord | crawler/src/parsers/http_parser.rs:66-69 | a text that is one word without whitespace is a single token |
| HttpParser.TokensSplit | crawler/src/parsers/http_parser.rs:66-69 | no token spans a whitespace character: the tokens of `a + [c] + b` with whitespace `c` are those of `a` followed by those of `b` |
| HttpParser.TokensSplitAt | crawler/src/parsers/http_parser.rs:66-69 | splitting the text at any of its whitespace characters splits its tokens there |
| HttpParser.TokensNormalForm | crawler/src/parsers/http_parser.rs:66-69 | re-joining the tokens and splitting again gives the same tokens |
| HttpParser.BlankTextHasNoTokens | crawler/src/parsers/http_parser.rs:66-69 | text that is all whitespace has no tokens |
| HttpParser.ParseHttpMeets | crawler/src/parsers/http_parser.rs:24-86 | the clean text keeps the stripped length, has no tag and no special character; the tokens are words that concatenate to its non-whitespace characters, and they are maximal: cutting the text at any whitespace character cuts the tokens there, and a one-word text is one token; each stem is `stem` of its token; no `extra` gives no text and no tokens |
| HttpParser.Stems | crawler/src/parsers/http_parser.rs:75-78 | one stem per token, in order |
| CrawlerWriter.Record | crawler/src/agents/crawler_writer.rs:46-50 | the written record has the clean text as body, the original links (none without `extra`), and all other fields unchanged |
| CrawlerWriter.NewlinedAppend | crawler/src/agents/crawler_writer.rs:58-60 | terminating lines distributes over concatenation |
| CrawlerWriter.AcceptedSnoc | crawler/src/agents/crawler_writer.rs:30-54 | one more response adds its line, if any, at the end |
| CrawlerWriter.EmptyTextNeverWritten | crawler/src/agents/crawler_writer.rs:40-44 | responses with empty clean text are never written |
| CrawlerWriter.TextAlwaysWritten | crawler/src/agents/crawler_writer.rs:46-54 | every response with clean text is written once, in arrival order, as its record |
| CrawlerWriter.WriteLines | crawler/src/agents/crawler_writer.rs:58-60 | the file gains each line followed by "\n", in order |
| CrawlerWriter.Take | crawler/src/agents/crawler_writer.rs:37-63 | below ten buffered lines the response's line (if any) is only buffered and the file is unchanged; at ten the whole buffer is written to the file, in order, and emptied; the buffer stays below ten lines |
| CrawlerWriter.CrawlerWriter.New | crawler/src/agents/crawler_writer.rs:12-14 | the writer holds its channel |
| CrawlerWriter.CrawlerWriter.ListenAndWrite | crawler/src/agents/crawler_writer.rs:16-72 | the file keeps its contents and gains exactly the accepted lines, each once, in order; the count is the number of responses received |
| Messages.New | crawler/src/messages.rs:22-30 | the expected type is `EXPECTED_CONTENT_TYPE`, or "*" when unset |
| Messages.Supported | crawler/src/messages.rs:44-63 | the gate passes exactly when "*" is expected or the content type is present and equal |
| Messages.RemoveAppend | crawler/src/messages.rs:72 | removing a character distributes over concatenation |
| Messages.SanitizeKeepsPlain | crawler/src/messages.rs:72 | the two removals are one pass that keeps every character other than backslash and line feed, in order |
| Messages.KeepPlainChars | crawler/src/messages.rs:72 | the sanitised text has no backslash and no line feed, and every other character as often as before |
| Messages.KeepPlainUnchanged | crawler/src/messages.rs:72 | text without either character is unchanged |
| Messages.SanitizeIdempotent | crawler/src/messages.rs:72 | sanitising twice is sanitising once |
| Messages.ParseMessage | crawler/src/messages.rs:38-77 | an unsupported type is "Unsupported content type" without reading the body; otherwise the JSON parser's answer on the sanitised text, which has no backslash or line feed |
| Supervisor.ParseUsize | crawler/src/main.rs:39 | a parsed count fits in `usize` |
| Supervisor.DecimalValue | crawler/src/main.rs:37-40 | a decimal rendering reads back as its number |
| Supervisor.ParseDecimal | crawler/src/main.rs:37-40 | every `usize` written in decimal parses back to itself |
| Supervisor.DefaultAgentCount | crawler/src/main.rs:37-40 | without `N_AGENTS` there are four agents |
| Supervisor.ChunkSize | crawler/src/main.rs:43 | `div_ceil`: the least chunk size whose multiple covers the seeds |
| Supervisor.ChunksConcat | crawler/src/main.rs:59 | the chunks put back together are the seeds, in order |
| Supervisor.ChunksShape | crawler/src/main.rs:59 | every chunk is non-empty and full, except the last, which has at most the chunk size |
| Supervisor.ChunksCount | crawler/src/main.rs:59 | there are `div_ceil(len, k)` chunks |
| Supervisor.ChunkSizeStep | crawler/src/main.rs:43 | one full chunk less is one chunk less |
| Supervisor.ChunkCountBounded | crawler/src/main.rs:43-59 | cutting for `n` agents never makes more than `n` chunks |
| Supervisor.PlanPartitions | crawler/src/main.rs:37-71 | the agents' seeds are non-empty contiguous runs that cover the seeds in order, and there are no more agents than requested |
| Supervisor.DefaultPlanHasFourAgents | crawler/src/main.rs:11-71 | the thirteen built-in seeds and the default count start four agents |
| Supervisor.Run | crawler/src/main.rs:37-71 | the spawning loop does what `Plan` states: a panic for an unparsable or zero count, an early return without a broker, a panic for chunk size zero, else one agent per chunk |

## Left out

- Network clients are not modelled. RabbitMQ, Redis, reqwest, Kafka and their connection set-up are reduced to the `World` value and two health flags, `storeUp` and `brokerUp`, which stay the same throughout a call. The connection failures of `new_with_seeds` are not modelled: the constructor assumes both clients were built.
- The Redis store is a `map<string, string>` from URL to URL. The JSON encoding of keys and values is not modelled.
- Concurrency is not modelled: the `tokio::spawn` fan-out, awaiting the handles, and shared store races across agents. `Supervisor.Run` collects each agent's seeds instead of spawning.
- Foreign libraries are functions supplied by the caller: serde_json, the scraper selections, the three block-removing regexes, the English stemmer, URL parsing and origin serialisation, and UTF-8 decoding.
- Logging, `println!`, and the writer's every-hundredth-response progress line are not modelled.
- The two `f64` coordinates of `JsonMessage` are not modelled.
- Integer widths are partly modelled. Depths and status codes are `nat`, so the `u32` depth overflow is not modelled. The agent id of `new_with_seeds` is a `u16` in the source and a `nat` in CrawlerAgent.CrawlerAgent.NewWithSeeds and Text.Decimal. The `usize` bound of `N_AGENTS` is modelled.
- Error messages that embed a foreign error's text keep only their fixed prefix, e.g. "HTTP request error", "RabbitMQ enqueue error" and the driver errors.
- The `Selector::parse` failures in `execute` are not modelled: the selectors are constant and always parse.
- robots.txt fetch: the URL whose robots.txt is fetched is given by `robotsReply` per URL. A failed `url.join` is its `JoinFailed` outcome.
- CrawlerAgent.CrawlerAgent.Execute requires the store and the broker to be up. The source `unwrap()`s both results, so a failure there is a panic, which the model does not represent.
- crawler_agent.rs imports a request type without depth. The agent is modelled with the request of crawler/src/requests/http.rs, whose `new(target, depth)` it calls.
- Crawler.Crawler.Execute does not model the "Invalid URL" branch (crawler/src/crawler.rs:89-90). `Http.Respond` succeeds only for a target that parses, so the branch cannot be reached after a successful fetch. `Collaborators.UrlsCoherent` states that a URL `validate_url` accepts parses, as crawler/src/validators.rs:8 makes it; under it, `Http.ValidReadablePageSucceeds` proves that the parse failure of `execute` is never reached either. Likewise the `if let Some(extra)` tests always hold, because every successful response has `extra`.
- Crawler.Crawler.Execute does not model a `serde_json::to_string` failure for the page record (crawler/src/crawler.rs:132): serialising that plain record does not fail.
- Messages.ParseMessage requires a supported message's body to be valid UTF-8. The source `unwrap()`s the decoding and would panic otherwise.
- CrawlerWriter.CrawlerWriter.ListenAndWrite always returns the written file. The writer's `expect` panics are not modelled: opening the file (crawler/src/agents/crawler_writer.rs:27), serialising a response (:53), writing a line (:60, :69) and flushing (:62, :71). The file is a sequence that always accepts what is appended.
- Supervisor.Plan reports an unparsable `N_AGENTS`, a zero count and an empty seed list (chunk size zero) as `Panic` values rather than aborting.
