/**
 * The start-up of crawler/src/main.rs: the number of agents comes from `N_AGENTS` (default 4),
 * the seed list is cut into `div_ceil(len, n)`-sized contiguous chunks, and one agent is
 * spawned per chunk. Spawning is reduced to collecting each agent's seeds.
 */
module Supervisor {
  import opened Basics
  import opened Text

  /** The seeds hard-coded in `main`. */
  const Seeds: seq<string> := [
    "https://en.wikipedia.org/wiki/Main_Page", "https://www.bbc.com", "https://news.ycombinator.com/",
    "https://arxiv.org/", "https://scholar.google.com/", "https://data.gov/",
    "https://github.com/trending", "https://stackoverflow.com/", "https://www.producthunt.com/",
    "https://www.reddit.com/r/technology/", "https://medium.com/",
    "https://www.amazon.com/", "https://www.ebay.com/"]

  const DefaultAgents: string := "4"

  /** One more than the largest `usize` on a 64-bit target. */
  const UsizeBound: nat := 0x1_0000_0000_0000_0000

  // ---------------------------------------------------------------- parsing N_AGENTS

  /** The number a non-empty string of decimal digits denotes. */
  function DigitsValue(ds: string): nat
    requires forall i | 0 <= i < |ds| :: IsDigit(ds[i])
  {
    if ds == [] then 0 else 10 * DigitsValue(ds[..|ds| - 1]) + DigitValue(ds[|ds| - 1])
  }

  /** `s.parse::<usize>()`: an optional `+`, then one or more digits, below `UsizeBound`. */
  function ParseUsize(s: string): (r: Option<nat>)
    ensures r.Some? ==> r.value < UsizeBound
  {
    var ds := if s != [] && s[0] == '+' then s[1..] else s;
    if ds == [] || !(forall i | 0 <= i < |ds| :: IsDigit(ds[i])) then None
    else if DigitsValue(ds) < UsizeBound then Some(DigitsValue(ds))
    else None
  }

  lemma {:induction false} DecimalValue(n: nat)
    ensures DigitsValue(Decimal(n)) == n
    decreases n
  {
    var d := Decimal(n);
    if n < 10 {
      assert d[..0] == [];
    } else {
      assert d[..|d| - 1] == Decimal(n / 10);
      DecimalValue(n / 10);
    }
  }

  /** Parsing what `format!` writes for a `usize` gives the number back. */
  lemma ParseDecimal(n: nat)
    requires n < UsizeBound
    ensures ParseUsize(Decimal(n)) == Some(n)
  {
    DecimalValue(n);
  }

  /** The agent count: `N_AGENTS`, or `"4"` when it is not set; None when it does not parse. */
  function AgentCount(nAgentsVar: Option<string>): Option<nat> {
    ParseUsize(nAgentsVar.GetOr(DefaultAgents))
  }

  lemma DefaultAgentCount()
    ensures AgentCount(None) == Some(4)
  {
    assert DefaultAgents == Decimal(4);
    ParseDecimal(4);
  }

  // ---------------------------------------------------------------- cutting the seeds

  /** `len.div_ceil(n)`: the least `k` with `k * n >= len`. */
  function ChunkSize(len: nat, n: nat): (k: nat)
    requires n > 0
    ensures k * n >= len
    ensures k > 0 ==> (k - 1) * n < len
  {
    if len % n == 0 then len / n else len / n + 1
  }

  /** `s.chunks(k)`: consecutive slices of `k` elements, the last one possibly shorter. */
  function Chunks<T>(s: seq<T>, k: nat): seq<seq<T>>
    requires k > 0
    decreases |s|
  {
    if s == [] then [] else if |s| <= k then [s] else [s[..k]] + Chunks(s[k..], k)
  }

  /** The chunks put back together are the seeds, in order. */
  lemma {:induction false} ChunksConcat<T>(s: seq<T>, k: nat)
    requires k > 0
    ensures Concat(Chunks(s, k)) == s
    decreases |s|
  {
    if s != [] && |s| > k {
      ChunksConcat(s[k..], k);
      assert s == s[..k] + s[k..];
    } else if s != [] {
      assert s + [] == s;
    }
  }

  /** Every chunk is non-empty and has `k` elements, except the last, which has at most `k`. */
  lemma {:induction false} ChunksShape<T>(s: seq<T>, k: nat)
    requires k > 0
    ensures forall i | 0 <= i < |Chunks(s, k)| ::
              0 < |Chunks(s, k)[i]| <= k && (i < |Chunks(s, k)| - 1 ==> |Chunks(s, k)[i]| == k)
    decreases |s|
  {
    if s != [] && |s| > k {
      var tail := Chunks(s[k..], k);
      ChunksShape(s[k..], k);
      var c := Chunks(s, k);
      assert c == [s[..k]] + tail;
      forall i | 1 <= i < |c| ensures 0 < |c[i]| <= k && (i < |c| - 1 ==> |c[i]| == k) {
        var j := i - 1;
        assert c[i] == tail[j];
        assert 0 < |tail[j]| <= k && (j < |tail| - 1 ==> |tail[j]| == k);
      }
    }
  }

  /** There are `div_ceil(len, k)` chunks. */
  lemma {:induction false} ChunksCount<T>(s: seq<T>, k: nat)
    requires k > 0
    ensures |Chunks(s, k)| == ChunkSize(|s|, k)
    decreases |s|
  {
    if s == [] {
      ChunkSizeEmpty(k);
    } else if |s| <= k {
      ChunkSizeOne(|s|, k);
    } else {
      ChunksCount(s[k..], k);
      ChunkSizeStep(|s|, k);
    }
  }

  /** No seeds, no chunks. */
  lemma ChunkSizeEmpty(k: nat)
    requires k > 0
    ensures ChunkSize(0, k) == 0
  {
    var c := ChunkSize(0, k);
    if c > 0 {
      MulMono(0, c - 1, k);
    }
  }

  /** At most one full chunk of seeds is one chunk. */
  lemma ChunkSizeOne(len: nat, k: nat)
    requires 0 < len <= k
    ensures ChunkSize(len, k) == 1
  {
    var c := ChunkSize(len, k);
    MulMono(c, 0, k);
    MulMono(1, c - 1, k);
  }

  /** One full chunk less is one chunk less. */
  lemma ChunkSizeStep(len: nat, k: nat)
    requires len > k > 0
    ensures ChunkSize(len, k) == ChunkSize(len - k, k) + 1
  {
    var k0, k1 := ChunkSize(len - k, k), ChunkSize(len, k);
    assert k0 > 0;
    assert (k0 + 1) * k == k0 * k + k;
    assert (k0 - 1) * k == k0 * k - k;
    assert (k1 - 1) * k == k1 * k - k;
    MulMono(k1, k0, k);
    MulMono(k0 + 1, k1 - 1, k);
  }

  /** Cutting `len` seeds for `n` agents never makes more than `n` chunks. */
  lemma ChunkCountBounded(len: nat, n: nat)
    requires n > 0 && ChunkSize(len, n) > 0
    ensures ChunkSize(len, ChunkSize(len, n)) <= n
  {
    var k := ChunkSize(len, n);
    var c := ChunkSize(len, k);
    if c > 0 {
      assert (c - 1) * k < len <= k * n;
      assert k * n == n * k;
      MulMono(n, c - 1, k);
    }
  }

  // ---------------------------------------------------------------- main

  /** How `main` ends: a panic, an early return without a broker, or one agent per chunk. */
  datatype Outcome = Panic(reason: string) | BrokerDown | Spawned(agentSeeds: seq<seq<string>>)

  /**
   * `main`'s decisions in order: parse `N_AGENTS` (a panic if it does not parse); `div_ceil`
   * (a panic for zero agents); connect to RabbitMQ (return if it fails); `chunks` (a panic
   * for a zero chunk size, which an empty seed list gives); one agent per chunk.
   */
  function Plan(seeds: seq<string>, nAgentsVar: Option<string>, brokerUp: bool): Outcome {
    match AgentCount(nAgentsVar)
    case None => Panic("invalid N_AGENTS")
    case Some(n) =>
      if n == 0 then Panic("attempt to divide by zero")
      else if !brokerUp then BrokerDown
      else if ChunkSize(|seeds|, n) == 0 then Panic("chunk size must be non-zero")
      else Spawned(Chunks(seeds, ChunkSize(|seeds|, n)))
  }

  /**
   * Every planned agent gets a non-empty contiguous run of seeds, the runs cover the seeds in
   * order, and there are no more agents than requested.
   */
  lemma PlanPartitions(seeds: seq<string>, nAgentsVar: Option<string>, brokerUp: bool)
    requires Plan(seeds, nAgentsVar, brokerUp).Spawned?
    ensures var agents := Plan(seeds, nAgentsVar, brokerUp).agentSeeds;
            && Concat(agents) == seeds
            && (forall i | 0 <= i < |agents| :: agents[i] != [])
            && |agents| <= AgentCount(nAgentsVar).value
  {
    var n := AgentCount(nAgentsVar).value;
    var k := ChunkSize(|seeds|, n);
    ChunksConcat(seeds, k);
    ChunksShape(seeds, k);
    ChunksCount(seeds, k);
    ChunkCountBounded(|seeds|, n);
  }

  /** With the built-in seeds and the default agent count, four agents start. */
  lemma DefaultPlanHasFourAgents()
    ensures Plan(Seeds, None, true).Spawned?
    ensures |Plan(Seeds, None, true).agentSeeds| == 4
  {
    DefaultAgentCount();
    assert ChunkSize(13, 4) == 4;
    ChunksCount(Seeds, 4);
  }

  /** The spawning loop of `main`: one agent per chunk of `chunk_size` seeds, in order. */
  method Run(seeds: seq<string>, nAgentsVar: Option<string>, brokerUp: bool) returns (r: Outcome)
    ensures r == Plan(seeds, nAgentsVar, brokerUp)
  {
    var parsed := AgentCount(nAgentsVar);
    if parsed.None? {
      return Panic("invalid N_AGENTS");
    }
    var n := parsed.value;
    if n == 0 {
      return Panic("attempt to divide by zero");
    }
    var k := ChunkSize(|seeds|, n);
    if !brokerUp {
      return BrokerDown;
    }
    if k == 0 {
      return Panic("chunk size must be non-zero");
    }
    var handles: seq<seq<string>> := [];
    var start := 0;
    while start < |seeds|
      invariant start <= |seeds|
      invariant handles + Chunks(seeds[start..], k) == Chunks(seeds, k)
      decreases |seeds| - start
    {
      var end := if start + k <= |seeds| then start + k else |seeds|;
      var rest := seeds[start..];
      if |rest| > k {
        assert rest[..k] == seeds[start..end] && rest[k..] == seeds[end..];
      } else {
        assert rest == seeds[start..end] && seeds[end..] == [];
      }
      handles := handles + [seeds[start..end]];
      start := end;
    }
    assert handles + [] == handles;
    r := Spawned(handles);
  }
}
