/** Proxy selection: the rotating pool of proxy/proxy_pool.rs and the per-account assignment of
    modules/proxy_pool.rs. */
module ProxyRotation {
  import opened Wrappers
  import opened AccountModel

  const USIZE_LIMIT: nat := 0x1_0000_0000_0000_0000

  datatype Mode = Direct | System | Custom | Pool

  datatype Strategy = RoundRobin | RandomPick | PerAccount

  datatype PoolConfig = PoolConfig(mode: Mode, strategy: Strategy, url: string, proxyUrls: seq<string>)

  datatype PoolError = CustomUrlEmpty | PoolEmpty | AccountMissing | ClientFailed

  /** URLs that do not parse are skipped. */
  function ParsedUrls(raw: seq<string>, parse: string -> Option<string>): seq<string> {
    if raw == [] then []
    else (match parse(raw[0]) case Some(url) => [url] case None => []) + ParsedUrls(raw[1..], parse)
  }

  /** Exactly the results of the URLs that parse, in order. */
  lemma {:induction false} ParsedMeaning(raw: seq<string>, more: seq<string>, parse: string -> Option<string>)
    ensures ParsedUrls(raw + more, parse) == ParsedUrls(raw, parse) + ParsedUrls(more, parse)
    ensures forall x :: ParsedUrls([x], parse) == if parse(x).Some? then [parse(x).value] else []
    ensures forall u :: u in ParsedUrls(raw, parse) <==> exists x :: x in raw && parse(x) == Some(u)
    decreases |raw|
  {
    forall x ensures ParsedUrls([x], parse) == if parse(x).Some? then [parse(x).value] else [] {
      assert [x][1..] == [];
    }
    if raw == [] {
      assert raw + more == more;
    } else {
      assert (raw + more)[0] == raw[0] && (raw + more)[1..] == raw[1..] + more;
      ParsedMeaning(raw[1..], more, parse);
      assert raw == [raw[0]] + raw[1..];
    }
  }

  /** Clients are abstract identities. */
  class ProxyPool {
    const directClient: nat
    var clients: map<string, nat>
    var proxyUrls: seq<string>
    var rrCounter: nat
    var strategy: Strategy
    var mode: Mode
    var customUrl: string

    constructor (direct: nat, config: PoolConfig, parse: string -> Option<string>)
      ensures directClient == direct && clients == map[] && rrCounter == 0
      ensures proxyUrls == ParsedUrls(config.proxyUrls, parse)
      ensures mode == config.mode && strategy == config.strategy && customUrl == config.url
    {
      directClient, clients, rrCounter := direct, map[], 0;
      proxyUrls := ParsedUrls(config.proxyUrls, parse);
      mode, strategy, customUrl := config.mode, config.strategy, config.url;
    }

    /** A hot reload. The rotation counter goes on; clients of dropped URLs go when the list changed. */
    method UpdateConfig(config: PoolConfig, parse: string -> Option<string>)
      modifies this
      ensures proxyUrls == ParsedUrls(config.proxyUrls, parse)
      ensures mode == config.mode && strategy == config.strategy && customUrl == config.url
      ensures rrCounter == old(rrCounter)
      ensures proxyUrls == old(proxyUrls) ==> clients == old(clients)
      ensures proxyUrls != old(proxyUrls) ==> clients == map u | u in old(clients) && u in proxyUrls :: old(clients)[u]
    {
      var parsed := ParsedUrls(config.proxyUrls, parse);
      mode, strategy, customUrl := config.mode, config.strategy, config.url;
      if proxyUrls != parsed {
        clients := map u | u in clients && u in parsed :: clients[u];
        proxyUrls := parsed;
      }
    }

    /** `nanos` is the clock's sub-second part, `hash` the default hasher. In pool and custom mode the
        answer is never "no proxy". */
    method SelectProxyUrl(email: Option<string>, nanos: nat, hash: string -> nat)
      returns (r: Result<Option<string>, PoolError>)
      requires rrCounter < USIZE_LIMIT
      modifies this`rrCounter
      ensures rrCounter < USIZE_LIMIT
      ensures mode in {Direct, System} <==> r == Success(None)
      ensures mode == Custom ==> r == if customUrl == "" then Failure(CustomUrlEmpty) else Success(Some(customUrl))
      ensures mode == Pool && proxyUrls == [] ==> r == Failure(PoolEmpty)
      ensures mode == Pool && proxyUrls != [] ==>
        && (r.Failure? <==> strategy == PerAccount && email.None?)
        && (r.Success? ==> r.value.Some? && r.value.value in proxyUrls)
        && (strategy == PerAccount && email.Some? ==> r == Success(Some(proxyUrls[hash(email.value) % |proxyUrls|])))
      ensures if mode == Pool && proxyUrls != [] && strategy == RoundRobin
              then
                && r == Success(Some(proxyUrls[old(rrCounter) % |proxyUrls|]))
                && rrCounter == (old(rrCounter) + 1) % USIZE_LIMIT
              else rrCounter == old(rrCounter)
    {
      match mode
      case Direct =>
        return Success(None);
      case System =>
        return Success(None);
      case Custom =>
        if customUrl == "" {
          return Failure(CustomUrlEmpty);
        }
        return Success(Some(customUrl));
      case Pool =>
        if proxyUrls == [] {
          return Failure(PoolEmpty);
        }
        var idx: nat;
        match strategy {
          case RoundRobin =>
            idx := rrCounter % |proxyUrls|;
            rrCounter := (rrCounter + 1) % USIZE_LIMIT;
          case RandomPick =>
            idx := nanos % |proxyUrls|;
          case PerAccount =>
            if email.None? {
              return Failure(AccountMissing);
            }
            idx := hash(email.value) % |proxyUrls|;
        }
        return Success(Some(proxyUrls[idx]));
    }

    /** A cached client is reused; otherwise `built` is the outcome of building one. */
    method GetOrCreateClient(url: string, built: Option<nat>) returns (r: Result<nat, PoolError>)
      modifies this`clients
      ensures url in old(clients) ==> r == Success(old(clients)[url]) && clients == old(clients)
      ensures url !in old(clients) && built.None? ==> r == Failure(ClientFailed) && clients == old(clients)
      ensures url !in old(clients) && built.Some? ==>
        r == Success(built.value) && clients == old(clients)[url := built.value]
    {
      if url in clients {
        return Success(clients[url]);
      }
      if built.None? {
        return Failure(ClientFailed);
      }
      clients := clients[url := built.value];
      return Success(built.value);
    }
  }

  // ---------- Round robin is fair ----------

  /** The index picked `m` selections after the counter stood at `c`; the counter wraps. */
  function Position(c: nat, m: nat, n: nat): nat
    requires n > 0
  {
    ((c + m) % USIZE_LIMIT) % n
  }

  /** How often index `j` comes up in `len` consecutive picks from counter `c` over `n` URLs. */
  function PickCount(c: nat, len: nat, n: nat, j: nat): nat
    requires n > 0
  {
    if len == 0 then 0 else PickCount(c, len - 1, n, j) + if Position(c, len - 1, n) == j then 1 else 0
  }

  lemma {:induction false} PickCountConcat(c: nat, a: nat, b: nat, n: nat, j: nat)
    requires n > 0
    ensures PickCount(c, a + b, n, j) == PickCount(c, a, n, j) + PickCount(c + a, b, n, j)
    decreases b
  {
    if b > 0 {
      PickCountConcat(c, a, b - 1, n, j);
      assert c + (a + b - 1) == c + a + (b - 1);
    }
  }

  lemma SmallRemainder(x: nat, n: nat)
    requires x < n
    ensures x % n == x
  {}

  lemma RemainderStep(c: nat, n: nat)
    requires n > 0
    ensures (c + n) % n == c % n
  {
    var q, r, q', r' := c / n, c % n, (c + n) / n, (c + n) % n;
    assert c == q * n + r && c + n == q' * n + r';
    var k := q' - q - 1;
    assert k * n == r - r' by {
      assert k * n == q' * n - q * n - n;
    }
    if k >= 1 {
      MultipleAtLeast(k, n);
    } else if k <= -1 {
      MultipleAtLeast(-k, n);
    }
  }

  lemma MultipleAtLeast(k: int, n: int)
    requires k >= 1 && n >= 0
    ensures k * n >= n
    ensures (-k) * n <= -n
  {
    assert (k - 1) * n >= 0;
    assert (-k) * n == -(k * n);
  }

  lemma {:induction false} RemainderOfSum(r: nat, k: nat, n: nat)
    requires n > 0
    ensures (r + k * n) % n == r % n
  {
    if k > 0 {
      RemainderOfSum(r, k - 1, n);
      RemainderStep(r + (k - 1) * n, n);
      assert r + k * n == r + (k - 1) * n + n;
    }
  }

  /** The pool size divides 2^64, or the counter does not wrap within `len` picks. */
  predicate KeepsStep(c: nat, len: nat, n: nat)
    requires n > 0
  {
    USIZE_LIMIT % n == 0 || c + len <= USIZE_LIMIT
  }

  /** Then a position is the plain remainder. */
  lemma PlainPosition(c: nat, m: nat, n: nat)
    requires n > 0 && KeepsStep(c, m + 1, n)
    ensures Position(c, m, n) == (c + m) % n
  {
    var x := c + m;
    if x < USIZE_LIMIT {
      SmallRemainder(x, USIZE_LIMIT);
    } else {
      var q, r, t := x / USIZE_LIMIT, x % USIZE_LIMIT, USIZE_LIMIT / n;
      assert x == r + q * USIZE_LIMIT && USIZE_LIMIT == t * n;
      assert q * (t * n) == (q * t) * n;
      RemainderOfSum(r, q * t, n);
    }
  }

  /** `m` picks that start at a multiple of 2^64 take the first `m` positions. */
  lemma {:induction false} FirstRound(w: nat, m: nat, n: nat, j: nat)
    requires m <= n <= USIZE_LIMIT && j < n && (w == 0 || w == USIZE_LIMIT)
    ensures PickCount(w, m, n, j) == if j < m then 1 else 0
  {
    if m > 0 {
      FirstRound(w, m - 1, n, j);
      SmallRemainder(m - 1, USIZE_LIMIT);
      RemainderStep(m - 1, USIZE_LIMIT);
      SmallRemainder(m - 1, n);
    }
  }

  /** Any `n` consecutive picks choose each index once, wherever the counter stands. */
  lemma {:induction false} OneRound(c: nat, n: nat, j: nat)
    requires j < n <= USIZE_LIMIT && KeepsStep(c, n, n)
    ensures PickCount(c, n, n, j) == 1
  {
    if c == 0 {
      FirstRound(0, n, n, j);
    } else {
      OneRound(c - 1, n, j);
      PickCountConcat(c - 1, 1, n, n, j);
      PickCountConcat(c - 1, n, 1, n, j);
      RemainderStep(c - 1, n);
      PlainPosition(c - 1, 0, n);
      PlainPosition(c - 1 + n, 0, n);
      OnePick(c - 1, n, j);
      OnePick(c - 1 + n, n, j);
      assert 1 + n == n + 1 && c - 1 + 1 == c;
    }
  }

  lemma OnePick(c: nat, n: nat, j: nat)
    requires n > 0
    ensures PickCount(c, 1, n, j) == if Position(c, 0, n) == j then 1 else 0
  {
    assert PickCount(c, 1, n, j) == PickCount(c, 0, n, j) + if Position(c, 0, n) == j then 1 else 0;
  }

  lemma KeepsPart(c: nat, a: nat, b: nat, n: nat)
    requires n > 0 && KeepsStep(c, a + b, n)
    ensures KeepsStep(c, a, n) && KeepsStep(c + a, b, n)
  {}

  /** `k` rounds over an unchanged list use every position `k` times, when the counter does not wrap on
      the way or the pool size divides 2^64. */
  lemma {:induction false} RoundRobinFair(c: nat, k: nat, n: nat, j: nat)
    requires j < n <= USIZE_LIMIT && KeepsStep(c, k * n, n)
    ensures PickCount(c, k * n, n, j) == k
  {
    if k > 0 {
      var earlier := (k - 1) * n;
      assert k * n == earlier + n;
      KeepsPart(c, earlier, n, n);
      hide PickCount, KeepsStep;
      RoundRobinFair(c, k - 1, n, j);
      PickCountConcat(c, earlier, n, n, j);
      OneRound(c + earlier, n, j);
    }
  }

  /** A round across the wrap: the index just before it comes again. */
  lemma WrapRepeats(n: nat)
    requires 0 < n <= USIZE_LIMIT && USIZE_LIMIT % n != 0
    ensures PickCount(USIZE_LIMIT - 1, n, n, USIZE_LIMIT % n - 1) == 2
  {
    var r := USIZE_LIMIT % n;
    var last := USIZE_LIMIT - 1;
    SmallRemainder(last, USIZE_LIMIT);
    assert last % n == r - 1 by {
      var q := USIZE_LIMIT / n;
      assert USIZE_LIMIT == q * n + r;
      assert last == (r - 1) + q * n;
      RemainderOfSum(r - 1, q, n);
      SmallRemainder(r - 1, n);
    }
    OnePick(last, n, r - 1);
    FirstRound(USIZE_LIMIT, n - 1, n, r - 1);
    PickCountConcat(last, 1, n - 1, n, r - 1);
    assert last + 1 == USIZE_LIMIT && 1 + (n - 1) == n;
  }

  /** `k` rounds from counter `c` pick every index `k` times. */
  ghost predicate Fair(c: nat, k: nat, n: nat)
    requires n > 0
  {
    forall j | 0 <= j < n :: PickCount(c, k * n, n, j) == k
  }

  lemma {:induction false} NeverPicked(c: nat, len: nat, n: nat, j: nat)
    requires n > 0 && forall m | 0 <= m < len :: Position(c, m, n) != j
    ensures PickCount(c, len, n, j) == 0
  {
    hide Position;
    if len > 0 {
      NeverPicked(c, len - 1, n, j);
    }
  }

  /** Where the picks stand that lie `d` before the wrap. */
  lemma BeforeWrap(d: nat, n: nat)
    requires 0 < n <= USIZE_LIMIT && 0 < d <= n
    ensures var r := USIZE_LIMIT % n;
      Position(USIZE_LIMIT - d, 0, n) == if d <= r then r - d else r + n - d
  {
    var q, r := USIZE_LIMIT / n, USIZE_LIMIT % n;
    assert USIZE_LIMIT == q * n + r && q >= 1;
    SmallRemainder(USIZE_LIMIT - d, USIZE_LIMIT);
    if d <= r {
      RemainderOfSum(r - d, q, n);
      SmallRemainder(r - d, n);
    } else {
      assert (q - 1) * n == q * n - n;
      RemainderOfSum(r + n - d, q - 1, n);
      SmallRemainder(r + n - d, n);
    }
  }

  /** A round with the wrap inside it is not fair: either the first index comes twice or the last one
      does not come. */
  lemma WrapInside(a: nat, n: nat) returns (j: nat)
    requires 0 < a < n <= USIZE_LIMIT && USIZE_LIMIT % n != 0
    ensures j < n && PickCount(USIZE_LIMIT - a, n, n, j) != 1
  {
    var r, c := USIZE_LIMIT % n, USIZE_LIMIT - a;
    j := if r < a then 0 else n - 1;
    assert a + (n - a) == n && c + a == USIZE_LIMIT;
    PickCountConcat(c, a, n - a, n, j);
    FirstRound(USIZE_LIMIT, n - a, n, j);
    if r < a {
      assert (a - r) + r == a && 1 + (r - 1) == r && c + (a - r) == USIZE_LIMIT - r;
      PickCountConcat(c, a - r, r, n, 0);
      PickCountConcat(USIZE_LIMIT - r, 1, r - 1, n, 0);
      OnePick(USIZE_LIMIT - r, n, 0);
      BeforeWrap(r, n);
    } else {
      forall m | 0 <= m < a ensures Position(c, m, n) != j {
        BeforeWrap(a - m, n);
        assert c + m == USIZE_LIMIT - (a - m) + 0;
      }
      NeverPicked(c, a, n, j);
    }
  }

  /** One round from any counter is fair exactly when the pool size divides 2^64 or the counter does not
      wrap within it. */
  lemma OneRoundIff(c: nat, n: nat)
    requires 0 < n <= USIZE_LIMIT && c < USIZE_LIMIT
    ensures (forall j | 0 <= j < n :: PickCount(c, n, n, j) == 1) <==> KeepsStep(c, n, n)
  {
    if KeepsStep(c, n, n) {
      forall j | 0 <= j < n ensures PickCount(c, n, n, j) == 1 {
        OneRound(c, n, j);
      }
    } else {
      var j := WrapInside(USIZE_LIMIT - c, n);
    }
  }

  /** So rounds are fair from every counter exactly when the pool size divides 2^64. */
  lemma FairEverywhereIff(n: nat)
    requires 0 < n <= USIZE_LIMIT
    ensures (forall c, j | 0 <= c < USIZE_LIMIT && 0 <= j < n :: PickCount(c, n, n, j) == 1) <==> USIZE_LIMIT % n == 0
  {
    OneRoundIff(USIZE_LIMIT - 1, n);
    if USIZE_LIMIT % n == 0 {
      forall c, j | 0 <= c < USIZE_LIMIT && 0 <= j < n ensures PickCount(c, n, n, j) == 1 {
        OneRound(c, n, j);
      }
    } else {
      assert n != 1;
    }
  }

  lemma {:induction false} Wrapped(c: nat, len: nat, n: nat, j: nat)
    requires n > 0
    ensures PickCount(c + USIZE_LIMIT, len, n, j) == PickCount(c, len, n, j)
  {
    if len > 0 {
      Wrapped(c, len - 1, n, j);
      RemainderStep(c + len - 1, USIZE_LIMIT);
      assert c + USIZE_LIMIT + (len - 1) == c + len - 1 + USIZE_LIMIT;
    }
  }

  /** Of `k` rounds that wrap once, all but the `i`-th are fair. */
  lemma AllButOne(c: nat, i: nat, k: nat, n: nat, j: nat)
    requires j < n && k * n <= USIZE_LIMIT && c + i * n <= USIZE_LIMIT < c + i * n + n <= c + k * n
    ensures PickCount(c, k * n, n, j) == k - 1 + PickCount(c + i * n, n, n, j)
  {
    var start := c + i * n;
    var rest, left := k - i - 1, start + n - USIZE_LIMIT;
    RestOfRounds(i, k, n);
    PickCountConcat(c, i * n, n + rest * n, n, j);
    PickCountConcat(start, n, rest * n, n, j);
    RoundRobinFair(c, i, n, j);
    RoundRobinFair(left, rest, n, j);
    Wrapped(left, rest * n, n, j);
  }

  lemma RestOfRounds(i: nat, k: nat, n: nat)
    requires i * n + n <= k * n && 0 < n
    ensures i < k && i * n + n + (k - i - 1) * n == k * n && i * n <= k * n && n <= k * n
  {
    if i >= k {
      Monotone(k, i, n);
    }
    assert (k - i - 1) * n == k * n - i * n - n;
  }

  lemma Monotone(i: nat, k: nat, n: nat)
    requires i <= k
    ensures i * n <= k * n
  {
    assert (k - i) * n >= 0;
    assert (k - i) * n == k * n - i * n;
  }

  /** `k` rounds with at most one wrap use every position equally often exactly when the pool size
      divides 2^64, the counter does not wrap, or it wraps between two rounds. */
  lemma FairIff(c: nat, k: nat, n: nat)
    requires 0 < n && k * n <= USIZE_LIMIT && 0 < k && c < USIZE_LIMIT
    ensures Fair(c, k, n) <==> KeepsStep(c, k * n, n) || (USIZE_LIMIT - c) % n == 0
  {
    RestOfRounds(0, k, n);
    if KeepsStep(c, k * n, n) {
      forall j | 0 <= j < n ensures PickCount(c, k * n, n, j) == k {
        RoundRobinFair(c, k, n, j);
      }
    } else {
      var a := USIZE_LIMIT - c;
      assert a == (a / n) * n + a % n;
      FairAcrossWrap(c, a / n, a % n, k, n);
    }
  }

  lemma WholeRounds(i: nat, part: nat, k: nat, n: nat)
    requires part < n && i * n + part < k * n
    ensures i * n + n <= k * n
  {
    if i >= k {
      Monotone(k, i, n);
    } else {
      Monotone(i + 1, k, n);
      assert (i + 1) * n == i * n + n;
    }
  }

  lemma FairAcrossWrap(c: nat, i: nat, part: nat, k: nat, n: nat)
    requires 0 < n && k * n <= USIZE_LIMIT && part < n && USIZE_LIMIT % n != 0
    requires c + i * n + part == USIZE_LIMIT < c + k * n
    ensures Fair(c, k, n) <==> part == 0
  {
    WholeRounds(i, part, k, n);
    RestOfRounds(0, k, n);
    var start := USIZE_LIMIT - part;
    hide PickCount, KeepsStep;
    forall j | 0 <= j < n ensures PickCount(c, k * n, n, j) == k - 1 + PickCount(start, n, n, j) {
      assert start == c + i * n;
      AllButOne(c, i, k, n, j);
    }
    if part == 0 {
      forall j | 0 <= j < n ensures PickCount(start, n, n, j) == 1 {
        FirstRound(start, n, n, j);
      }
    } else {
      var j := WrapInside(part, n);
      assert PickCount(c, k * n, n, j) != k;
    }
  }

  /** Three URLs, at the last counter value: the first is picked twice in a row. */
  lemma ThreeAreUnfair()
    ensures PickCount(USIZE_LIMIT - 1, 3, 3, 0) == 2
    ensures Position(USIZE_LIMIT - 1, 0, 3) == 0 == Position(USIZE_LIMIT - 1, 1, 3)
  {
    assert USIZE_LIMIT % 3 == 1;
    WrapRepeats(3);
  }

  // ---------- From positions to URLs ----------

  lemma Distributes(k: nat, x: nat)
    ensures k * (x + 1) == k * x + k
  {}

  /** Picks of URL `u` among the first `top` positions. */
  function PicksOf(c: nat, len: nat, urls: seq<string>, u: string, top: nat): nat
    requires top <= |urls| && urls != []
  {
    if top == 0 then 0
    else PicksOf(c, len, urls, u, top - 1) + if urls[top - 1] == u then PickCount(c, len, |urls|, top - 1) else 0
  }

  lemma {:induction false} PicksOfNext(c: nat, len: nat, urls: seq<string>, u: string, top: nat)
    requires top <= |urls| && urls != []
    ensures PicksOf(c, 0, urls, u, top) == 0
    ensures var p := Position(c, len, |urls|);
      PicksOf(c, len + 1, urls, u, top) == PicksOf(c, len, urls, u, top) + if p < top && urls[p] == u then 1 else 0
  {
    hide Position;
    if top > 0 {
      PicksOfNext(c, len, urls, u, top - 1);
    }
  }

  lemma {:induction false} PicksOfFair(c: nat, len: nat, urls: seq<string>, u: string, top: nat, k: nat)
    requires top <= |urls| && urls != []
    requires forall j | 0 <= j < |urls| :: PickCount(c, len, |urls|, j) == k
    ensures PicksOf(c, len, urls, u, top) == k * multiset(urls[..top])[u]
  {
    hide PickCount;
    if top > 0 {
      PicksOfFair(c, len, urls, u, top - 1, k);
      assert urls[..top] == urls[..top - 1] + [urls[top - 1]];
      Distributes(k, multiset(urls[..top - 1])[u]);
    }
  }

  lemma PositionBound(c: nat, m: nat, n: nat)
    requires n > 0
    ensures Position(c, m, n) < n
  {}

  /** The picked URLs, counted. */
  lemma {:induction false} PickedCount(c: nat, urls: seq<string>, picked: seq<string>, u: string)
    requires urls != [] && forall m | 0 <= m < |picked| :: picked[m] == urls[Position(c, m, |urls|)]
    ensures multiset(picked)[u] == PicksOf(c, |picked|, urls, u, |urls|)
  {
    hide Position;
    PicksOfNext(c, 0, urls, u, |urls|);
    if picked != [] {
      var last := |picked| - 1;
      PickedCount(c, urls, picked[..last], u);
      assert picked == picked[..last] + [picked[last]];
      PositionBound(c, last, |urls|);
      PicksOfNext(c, last, urls, u, |urls|);
    }
  }

  /** Selecting many times in a row over an unchanged list. Whole rounds pick every URL equally often,
      as many times as it stands in the list, when the counter does not wrap on the way or the pool size
      divides 2^64. */
  method SelectRounds(pool: ProxyPool, rounds: nat, hash: string -> nat) returns (picked: seq<string>)
    requires pool.mode == Pool && pool.strategy == RoundRobin && 0 < |pool.proxyUrls| <= USIZE_LIMIT
    requires pool.rrCounter < USIZE_LIMIT
    modifies pool`rrCounter
    ensures |picked| == rounds * |pool.proxyUrls|
    ensures pool.rrCounter == (old(pool.rrCounter) + |picked|) % USIZE_LIMIT
    ensures forall m | 0 <= m < |picked| ::
      picked[m] == pool.proxyUrls[Position(old(pool.rrCounter), m, |pool.proxyUrls|)]
    ensures KeepsStep(old(pool.rrCounter), |picked|, |pool.proxyUrls|) ==>
      forall u :: multiset(picked)[u] == rounds * multiset(pool.proxyUrls)[u]
  {
    var n := |pool.proxyUrls|;
    picked := SelectTimes(pool, rounds * n, hash);
    ghost var c := old(pool.rrCounter);
    if KeepsStep(c, |picked|, n) {
      forall u ensures multiset(picked)[u] == rounds * multiset(pool.proxyUrls)[u] {
        forall j | 0 <= j < n ensures PickCount(c, |picked|, n, j) == rounds {
          RoundRobinFair(c, rounds, n, j);
        }
        PickedCount(c, pool.proxyUrls, picked, u);
        PicksOfFair(c, |picked|, pool.proxyUrls, u, n, rounds);
        assert pool.proxyUrls[..n] == pool.proxyUrls;
      }
    }
  }

  method SelectTimes(pool: ProxyPool, times: nat, hash: string -> nat) returns (picked: seq<string>)
    requires pool.mode == Pool && pool.strategy == RoundRobin && pool.proxyUrls != []
    requires pool.rrCounter < USIZE_LIMIT
    modifies pool`rrCounter
    ensures |picked| == times && pool.rrCounter == (old(pool.rrCounter) + times) % USIZE_LIMIT
    ensures forall m | 0 <= m < times ::
      picked[m] == pool.proxyUrls[Position(old(pool.rrCounter), m, |pool.proxyUrls|)]
  {
    picked := [];
    ghost var c := pool.rrCounter;
    SmallRemainder(c, USIZE_LIMIT);
    for m := 0 to times
      invariant |picked| == m && pool.rrCounter == (c + m) % USIZE_LIMIT
      invariant forall l | 0 <= l < m :: picked[l] == pool.proxyUrls[Position(c, l, |pool.proxyUrls|)]
    {
      var r := pool.SelectProxyUrl(None, 0, hash);
      NextCounter(c + m);
      picked := picked + [r.value.value];
    }
  }

  lemma NextCounter(x: nat)
    ensures (x % USIZE_LIMIT + 1) % USIZE_LIMIT == (x + 1) % USIZE_LIMIT
  {
    var q, r := x / USIZE_LIMIT, x % USIZE_LIMIT;
    assert x + 1 == (r + 1) + q * USIZE_LIMIT;
    RemainderOfSum(r + 1, q, USIZE_LIMIT);
  }

  // ---------- Least-used assignment ----------

  datatype AssignStrategy = AssignRoundRobin | AssignLeastUsed | AssignRandom

  datatype AssignPool = AssignPool(enabled: bool, strategy: AssignStrategy, urls: seq<string>)

  function Usage(accounts: seq<Account>, url: string): nat {
    if accounts == [] then 0
    else Usage(accounts[..|accounts| - 1], url) + if accounts[|accounts| - 1].proxyUrl == Some(url) then 1 else 0
  }

  /** The number of accounts that use the URL. */
  lemma {:induction false} UsageMeaning(accounts: seq<Account>, url: string)
    ensures Usage(accounts, url) == |set i | 0 <= i < |accounts| && accounts[i].proxyUrl == Some(url)|
  {
    if accounts != [] {
      var last := |accounts| - 1;
      UsageMeaning(accounts[..last], url);
      var before := set i | 0 <= i < last && accounts[..last][i].proxyUrl == Some(url);
      var all := set i | 0 <= i < |accounts| && accounts[i].proxyUrl == Some(url);
      assert all == before + if accounts[last].proxyUrl == Some(url) then {last} else {};
    }
  }

  ghost predicate LeastUsed(accounts: seq<Account>, urls: seq<string>, url: string) {
    url in urls && forall u | u in urls :: Usage(accounts, url) <= Usage(accounts, u)
  }

  /** `accounts` is `None` when listing them fails. The source minimises over a hash map, so which of
      several least-used URLs is taken is left open here too. */
  method PickLeastUsed(urls: seq<string>, accounts: Option<seq<Account>>) returns (url: string)
    requires urls != []
    ensures accounts.None? ==> url == urls[0]
    ensures accounts.Some? ==> LeastUsed(accounts.value, urls, url)
  {
    if accounts.None? {
      return urls[0];
    }
    var counts: map<string, nat> := map[];
    for n := 0 to |urls|
      invariant counts.Keys == set u | u in urls[..n]
      invariant forall u | u in counts :: counts[u] == 0
    {
      assert urls[..n + 1] == urls[..n] + [urls[n]];
      counts := counts[urls[n] := 0];
    }
    assert urls[..|urls|] == urls;
    var list := accounts.value;
    for n := 0 to |list|
      invariant counts.Keys == set u | u in urls
      invariant forall u | u in counts :: counts[u] == Usage(list[..n], u)
    {
      assert list[..n + 1][..n] == list[..n];
      var proxy := list[n].proxyUrl;
      if proxy.Some? && proxy.value in counts {
        counts := counts[proxy.value := counts[proxy.value] + 1];
      }
    }
    assert list[..|list|] == list;
    assert urls[0] in counts;
    var pending := counts.Keys;
    url :| url in pending;
    pending := pending - {url};
    while pending != {}
      invariant pending <= counts.Keys && url in counts
      invariant forall u | u in counts && u !in pending :: counts[url] <= counts[u]
      decreases pending
    {
      var u :| u in pending;
      if counts[u] < counts[url] {
        url := u;
      }
      pending := pending - {u};
    }
  }

  /** `random` is any index the generator may return. */
  method AssignProxyFromPool(pool: AssignPool, existing: Option<string>, accounts: Option<seq<Account>>, random: nat)
    returns (url: Option<string>)
    ensures url.None? <==> existing.Some? || !pool.enabled || pool.urls == []
    ensures url.Some? ==> url.value in pool.urls
    ensures url.Some? && pool.strategy != AssignRandom && accounts.Some? ==>
      LeastUsed(accounts.value, pool.urls, url.value)
  {
    if existing.Some? {
      return None;
    }
    if !pool.enabled || pool.urls == [] {
      return None;
    }
    match pool.strategy
    case AssignRandom =>
      return Some(pool.urls[random % |pool.urls|]);
    case _ =>
      var picked := PickLeastUsed(pool.urls, accounts);
      return Some(picked);
  }

  /** No two pool URLs differ in usage by more than `d`. */
  ghost predicate SpreadWithin(accounts: seq<Account>, urls: seq<string>, d: nat) {
    forall u, v | u in urls && v in urls :: Usage(accounts, u) <= Usage(accounts, v) + d
  }

  /** Accounts arriving one by one, each taking some least-used URL at its arrival. */
  ghost predicate AssignedInTurn(accounts: seq<Account>, arrivals: seq<Account>, urls: seq<string>)
    decreases |arrivals|
  {
    arrivals == [] ||
    (&& arrivals[0].proxyUrl.Some? && LeastUsed(accounts, urls, arrivals[0].proxyUrl.value)
     && AssignedInTurn(accounts + [arrivals[0]], arrivals[1..], urls))
  }

  lemma UsageAfter(accounts: seq<Account>, a: Account, u: string)
    ensures Usage(accounts + [a], u) == Usage(accounts, u) + if a.proxyUrl == Some(u) then 1 else 0
  {
    assert (accounts + [a])[..|accounts|] == accounts;
  }

  /** Whichever ties are taken, the spread never grows beyond what it was, or one. */
  lemma {:induction false} SpreadStaysWithin(accounts: seq<Account>, arrivals: seq<Account>, urls: seq<string>, d: nat)
    requires SpreadWithin(accounts, urls, d) && d >= 1
    requires AssignedInTurn(accounts, arrivals, urls)
    ensures SpreadWithin(accounts + arrivals, urls, d)
    decreases |arrivals|
  {
    if arrivals == [] {
      assert accounts + arrivals == accounts;
    } else {
      var a := arrivals[0];
      forall u, v | u in urls && v in urls ensures Usage(accounts + [a], u) <= Usage(accounts + [a], v) + d {
        UsageAfter(accounts, a, u);
        UsageAfter(accounts, a, v);
        assert Usage(accounts, u) <= Usage(accounts, v) + d;
      }
      SpreadStaysWithin(accounts + [a], arrivals[1..], urls, d);
      assert accounts + [a] + arrivals[1..] == accounts + arrivals;
    }
  }

  /** Usage missing below a level. */
  function Deficit(accounts: seq<Account>, urls: seq<string>, level: nat): nat {
    if urls == [] then 0
    else
      var used := Usage(accounts, urls[0]);
      (if used < level then level - used else 0) + Deficit(accounts, urls[1..], level)
  }

  lemma {:induction false} DeficitZero(accounts: seq<Account>, urls: seq<string>, level: nat)
    ensures Deficit(accounts, urls, level) == 0 <==> forall u | u in urls :: Usage(accounts, u) >= level
  {
    if urls != [] {
      DeficitZero(accounts, urls[1..], level);
      assert urls == [urls[0]] + urls[1..] && urls[0] in urls;
      assert (forall u | u in urls :: Usage(accounts, u) >= level) <==>
        Usage(accounts, urls[0]) >= level && forall u | u in urls[1..] :: Usage(accounts, u) >= level;
    }
  }

  lemma {:induction false} DeficitStep(accounts: seq<Account>, a: Account, urls: seq<string>, level: nat)
    requires a.proxyUrl.Some?
    ensures Deficit(accounts + [a], urls, level) <= Deficit(accounts, urls, level)
    ensures a.proxyUrl.value in urls && Usage(accounts, a.proxyUrl.value) < level ==>
      Deficit(accounts + [a], urls, level) < Deficit(accounts, urls, level)
  {
    if urls != [] {
      DeficitStep(accounts, a, urls[1..], level);
      UsageAfter(accounts, a, urls[0]);
      assert urls == [urls[0]] + urls[1..];
    }
  }

  /** From any start, once as many accounts have arrived as the pool is short of its most-used URL,
      every URL has caught up with that level; so an uneven pool evens out. */
  lemma {:induction false} AssignmentsCatchUp(accounts: seq<Account>, arrivals: seq<Account>, urls: seq<string>,
                                              level: nat)
    requires AssignedInTurn(accounts, arrivals, urls)
    requires |arrivals| >= Deficit(accounts, urls, level)
    ensures forall u | u in urls :: Usage(accounts + arrivals, u) >= level
    decreases |arrivals|
  {
    DeficitZero(accounts, urls, level);
    if arrivals == [] {
      assert accounts + arrivals == accounts;
    } else {
      var a := arrivals[0];
      DeficitStep(accounts, a, urls, level);
      AssignmentsCatchUp(accounts + [a], arrivals[1..], urls, level);
      assert accounts + [a] + arrivals[1..] == accounts + arrivals;
    }
  }
}
