/** What a request costs, and that it never costs less for carrying more. */
module Pricing {
  import opened Wrappers

  const TOKENS_PER_PRICE_UNIT := 1_000_000

  function Min(a: int, b: int): int {
    if a < b then a else b
  }

  function CostNanos(tokens: int, pricePerMillion: int): int {
    if tokens <= 0 || pricePerMillion <= 0 then 0 else tokens * pricePerMillion / TOKENS_PER_PRICE_UNIT
  }

  datatype Usage = Usage(prompt: int, completion: int, cached: int, cacheWrite: int, longCacheWrite: int) {
    function Uncached(): int {
      Max(0, prompt - cached - cacheWrite)
    }

    /** The hour's share of the cache writes, clamped into them. */
    function LongWrites(): int {
      Min(Max(0, longCacheWrite), Max(0, cacheWrite))
    }

    function ShortWrites(): int {
      cacheWrite - LongWrites()
    }
  }

  datatype Rates = Rates(input: int, output: int, cachedInput: Option<int>, cacheWrite: Option<int>) {
    function CachedInputRate(): int {
      if cachedInput.Some? then cachedInput.value else input
    }

    function CacheWriteRate(): int {
      if cacheWrite.Some? then cacheWrite.value else input * 5 / 4
    }

    function LongCacheWriteRate(): int {
      Max(input * 2, CacheWriteRate())
    }

    function Cost(u: Usage): int {
      CostNanos(u.Uncached(), input) + CostNanos(u.completion, output)
      + CostNanos(u.cached, CachedInputRate())
      + CostNanos(u.ShortWrites(), CacheWriteRate())
      + CostNanos(u.LongWrites(), LongCacheWriteRate())
    }
  }

  datatype Price = Price(rates: Rates, threshold: Option<int>, longContext: Option<Rates>) {
    function RatesFor(promptTokens: int): Rates {
      if longContext.Some? && threshold.Some? && promptTokens > threshold.value then longContext.value else rates
    }

    function Cost(u: Usage): int {
      RatesFor(u.prompt).Cost(u)
    }
  }

  // ---- monotonicity ---------------------------------------------------------------------

  /** What a rate charges: one below zero charges nothing. */
  function Charged(rate: int): int {
    Max(0, rate)
  }

  /** None of the five rates of `b` charges less than that of `a`. */
  predicate NoLower(a: Rates, b: Rates) {
    && Charged(a.input) <= Charged(b.input) && Charged(a.output) <= Charged(b.output)
    && Charged(a.CachedInputRate()) <= Charged(b.CachedInputRate())
    && Charged(a.CacheWriteRate()) <= Charged(b.CacheWriteRate())
    && Charged(a.LongCacheWriteRate()) <= Charged(b.LongCacheWriteRate())
  }

  /** `v` carries at least as many tokens of every kind that is billed apart. */
  predicate Carries(u: Usage, v: Usage) {
    && u.prompt <= v.prompt && u.completion <= v.completion
    && u.Uncached() <= v.Uncached() && u.cached <= v.cached
    && u.ShortWrites() <= v.ShortWrites() && u.LongWrites() <= v.LongWrites()
  }

  lemma ProductGrows(a: int, b: int, p: int, q: int)
    requires 0 <= a <= b && 0 <= p <= q
    ensures a * p <= b * q
  {
    assert a * p <= a * q;
    assert a * q <= b * q;
  }

  lemma CostGrows(tokens: int, more: int, price: int, higher: int)
    requires tokens <= more && Charged(price) <= Charged(higher)
    ensures 0 <= CostNanos(tokens, price) <= CostNanos(more, higher)
  {
    if tokens > 0 && price > 0 {
      ProductGrows(tokens, more, price, higher);
    } else if more > 0 && higher > 0 {
      ProductGrows(0, more, 0, higher);
    }
  }

  lemma RatesGrow(a: Rates, b: Rates, u: Usage, v: Usage)
    requires NoLower(a, b) && Carries(u, v)
    ensures a.Cost(u) <= b.Cost(v)
  {
    CostGrows(u.Uncached(), v.Uncached(), a.input, b.input);
    CostGrows(u.completion, v.completion, a.output, b.output);
    CostGrows(u.cached, v.cached, a.CachedInputRate(), b.CachedInputRate());
    CostGrows(u.ShortWrites(), v.ShortWrites(), a.CacheWriteRate(), b.CacheWriteRate());
    CostGrows(u.LongWrites(), v.LongWrites(), a.LongCacheWriteRate(), b.LongCacheWriteRate());
  }

  /** Carrying more never costs less, the jump to the long-context rates included, when those are no
      lower than the ordinary ones. */
  lemma CarryingMoreCostsNoLess(price: Price, u: Usage, v: Usage)
    requires price.longContext.None? || price.threshold.None? || NoLower(price.rates, price.longContext.value)
    requires Carries(u, v)
    ensures price.Cost(u) <= price.Cost(v)
  {
    RatesGrow(price.RatesFor(u.prompt), price.RatesFor(v.prompt), u, v);
    hide Rates.Cost, Charged;
  }

  /** The kinds of token a report can grow by. */
  datatype Kind = UncachedInput | CacheRead | CacheWrite | Completion

  function Grown(u: Usage, kind: Kind, n: nat): Usage {
    match kind
    case UncachedInput => u.(prompt := u.prompt + n)
    case CacheRead => u.(prompt := u.prompt + n, cached := u.cached + n)
    case CacheWrite => u.(prompt := u.prompt + n, cacheWrite := u.cacheWrite + n)
    case Completion => u.(completion := u.completion + n)
  }

  /** One more token of any kind, in any report whatever it claims about its cache, never makes a
      request cheaper. */
  lemma GrowingNeverCheaper(price: Price, u: Usage, kind: Kind, n: nat)
    requires price.longContext.None? || price.threshold.None? || NoLower(price.rates, price.longContext.value)
    ensures price.Cost(u) <= price.Cost(Grown(u, kind, n))
  {
    CarryingMoreCostsNoLess(price, u, Grown(u, kind, n));
  }

  // ---- when it does ---------------------------------------------------------------------

  /** The five rates a request is billed at. */
  datatype Rate = Input | Output | CachedInput | ShortWrite | LongWrite

  function RateOf(r: Rates, rate: Rate): int {
    match rate
    case Input => r.input
    case Output => r.output
    case CachedInput => r.CachedInputRate()
    case ShortWrite => r.CacheWriteRate()
    case LongWrite => r.LongCacheWriteRate()
  }

  /** A report whose prompt is this long and that carries `n` tokens billed at the one rate. Only a
      negative cached count lets a prompt carry more ordinary input than its length. */
  function Report(n: nat, prompt: int, rate: Rate): Usage {
    match rate
    case Input => Usage(prompt, 0, prompt - n, 0, 0)
    case Output => Usage(prompt, n, 0, 0, 0)
    case CachedInput => Usage(prompt, 0, n, 0, 0)
    case ShortWrite => Usage(prompt, 0, 0, n, 0)
    case LongWrite => Usage(prompt, 0, 0, n, n)
  }

  /** The ordinary input such a report is billed besides: its prompt, beside an answer. */
  function Beside(prompt: int, rate: Rate): int {
    if rate.Output? then prompt else 0
  }

  /** With one prompt token more it is one token more of ordinary input. */
  lemma ReportCost(r: Rates, n: nat, prompt: int, rate: Rate)
    requires n > prompt
    ensures r.Cost(Report(n, prompt, rate)) == CostNanos(n, RateOf(r, rate)) + CostNanos(Beside(prompt, rate), r.input)
    ensures r.Cost(Grown(Report(n, prompt, rate), UncachedInput, 1)) ==
            CostNanos(if rate.Input? then n + 1 else n, RateOf(r, rate)) + CostNanos(Beside(prompt + 1, rate), r.input)
  {
    Unbilled(r, prompt);
    if rate.Input? {
      Unbilled(r, prompt - n);
    }
    hide Rates.CachedInputRate, Rates.CacheWriteRate, Rates.LongCacheWriteRate;
  }

  lemma Unbilled(r: Rates, tokens: int)
    ensures CostNanos(0, r.input) == CostNanos(0, r.output) == CostNanos(0, r.CachedInputRate()) == 0
    ensures CostNanos(0, r.CacheWriteRate()) == CostNanos(0, r.LongCacheWriteRate()) == 0
    ensures tokens <= 0 ==> CostNanos(tokens, r.CachedInputRate()) == CostNanos(tokens, r.input) == 0
    ensures CostNanos(Max(0, tokens), r.input) == CostNanos(tokens, r.input)
    ensures CostNanos(Max(0, tokens + 1), r.input) == CostNanos(tokens + 1, r.input)
  {
    hide Rates.CachedInputRate, Rates.CacheWriteRate, Rates.LongCacheWriteRate;
  }

  lemma PlusRemainder(a: int, b: int)
    ensures (a * TOKENS_PER_PRICE_UNIT + b) / TOKENS_PER_PRICE_UNIT == a + b / TOKENS_PER_PRICE_UNIT
  {
  }

  lemma CostOfMillions(k: int, price: int)
    requires k > 0
    ensures CostNanos(k * TOKENS_PER_PRICE_UNIT, price) == k * Charged(price)
    ensures CostNanos(k * TOKENS_PER_PRICE_UNIT + 1, price) <= k * Charged(price) + Charged(price)
  {
    if price > 0 {
      assert k * TOKENS_PER_PRICE_UNIT * price == (k * price) * TOKENS_PER_PRICE_UNIT + 0;
      assert (k * TOKENS_PER_PRICE_UNIT + 1) * price == (k * price) * TOKENS_PER_PRICE_UNIT + price;
      PlusRemainder(k * price, 0);
      PlusRemainder(k * price, price);
    }
  }

  lemma FallGrows(k: int, low: int, high: int)
    requires k > 0 && low < high
    ensures k * low + k <= k * high
  {
    Distributes(k, low, high - low);
    ProductGrows(k, k, 1, high - low);
  }

  lemma Distributes(k: int, a: int, b: int)
    ensures k * (a + b) == k * a + k * b
  {
  }

  /** Where any one rate charges less above the threshold, one more prompt token makes some request cheaper:
      one with enough tokens billed at that rate. */
  lemma LowerRateBreaksIt(price: Price, rate: Rate) returns (u: Usage)
    requires price.longContext.Some? && price.threshold.Some?
    requires Charged(RateOf(price.longContext.value, rate)) < Charged(RateOf(price.rates, rate))
    ensures price.Cost(Grown(u, UncachedInput, 1)) < price.Cost(u)
  {
    var long, t := price.longContext.value, price.threshold.value;
    var low, high := Charged(RateOf(long, rate)), Charged(RateOf(price.rates, rate));
    var beside := CostNanos(Beside(t + 1, rate), long.input);
    var k := Max(low + beside + 1, Max(1, t + 1));
    var n := k * TOKENS_PER_PRICE_UNIT;
    u := Report(n, t, rate);
    ReportCost(price.rates, n, t, rate);
    ReportCost(long, n, t, rate);
    CostOfMillions(k, RateOf(price.rates, rate));
    CostOfMillions(k, RateOf(long, rate));
    CostGrows(Min(0, Beside(t, rate)), Beside(t, rate), price.rates.input, price.rates.input);
    FallGrows(k, low, high);
    assert u.prompt == t;
    hide CostNanos, Charged, RateOf, Rates.Cost, Report;
  }

  /** No request gets cheaper by growing, whatever it reports about its cache and by however much of
      whichever kind it grows, exactly when no second set of rates can apply or none of that set's five
      rates charges less than the ordinary one. */
  lemma NeverCheaperExactlyWhen(price: Price)
    ensures (forall u, kind, n :: price.Cost(u) <= price.Cost(Grown(u, kind, n))) <==>
            price.longContext.None? || price.threshold.None? || NoLower(price.rates, price.longContext.value)
  {
    hide Rates.Cost, Charged;
    if price.longContext.None? || price.threshold.None? || NoLower(price.rates, price.longContext.value) {
      forall u, kind, n ensures price.Cost(u) <= price.Cost(Grown(u, kind, n)) {
        GrowingNeverCheaper(price, u, kind, n);
      }
    } else {
      var rate :| Charged(RateOf(price.longContext.value, rate)) < Charged(RateOf(price.rates, rate)) by {
        SomeRateFalls(price.rates, price.longContext.value);
      }
      var u := LowerRateBreaksIt(price, rate);
      assert !(price.Cost(u) <= price.Cost(Grown(u, UncachedInput, 1)));
    }
  }

  lemma SomeRateFalls(a: Rates, b: Rates)
    requires !NoLower(a, b)
    ensures exists rate :: Charged(RateOf(b, rate)) < Charged(RateOf(a, rate))
  {
    hide Charged, Rates.CachedInputRate, Rates.CacheWriteRate, Rates.LongCacheWriteRate;
    assert RateOf(b, Input) == b.input && RateOf(b, Output) == b.output;
    assert RateOf(b, CachedInput) == b.CachedInputRate();
    assert RateOf(b, ShortWrite) == b.CacheWriteRate() && RateOf(b, LongWrite) == b.LongCacheWriteRate();
  }

  // ---- the two cache-write shares -------------------------------------------------------

  /** The shares add up to the writes and neither is negative, whatever the provider reports. */
  lemma SharesPartitionWrites(u: Usage)
    requires u.cacheWrite >= 0
    ensures u.ShortWrites() + u.LongWrites() == u.cacheWrite
    ensures 0 <= u.ShortWrites() && 0 <= u.LongWrites()
  {
  }

  lemma FloorsOfSums(x: int, y: int, z: int, t: int)
    requires z + t <= x + y
    ensures z / TOKENS_PER_PRICE_UNIT + t / TOKENS_PER_PRICE_UNIT - 1
            <= x / TOKENS_PER_PRICE_UNIT + y / TOKENS_PER_PRICE_UNIT
  {
  }

  lemma CostOfShare(tokens: int, price: int)
    requires 0 <= tokens && 0 <= price
    ensures 0 <= tokens * price && CostNanos(tokens, price) == tokens * price / TOKENS_PER_PRICE_UNIT
  {
    ProductGrows(0, tokens, 0, price);
    if tokens == 0 || price == 0 {
      assert tokens * price == 0;
    }
  }

  lemma MovedShare(short: int, long: int, moved: int, p: int, q: int)
    requires 0 <= moved <= short && 0 <= long && 0 <= p <= q
    ensures CostNanos(short, p) + CostNanos(long, q) - 1
            <= CostNanos(short - moved, p) + CostNanos(long + moved, q)
  {
    CostOfShare(short, p);
    CostOfShare(long, q);
    CostOfShare(short - moved, p);
    CostOfShare(long + moved, q);
    ProductGrows(moved, moved, p, q);
    assert short * p == (short - moved) * p + moved * p;
    assert (long + moved) * q == long * q + moved * q;
    FloorsOfSums((short - moved) * p, (long + moved) * q, short * p, long * q);
  }

  /** Keeping more of the writes for the hour lowers a cost by one nano-unit at the most, which is what
      rounding the two shares apart can lose. */
  lemma LongerCachingCostsNoLess(rates: Rates, u: Usage, longer: int)
    requires u.cacheWrite >= 0 && u.longCacheWrite <= longer && rates.CacheWriteRate() >= 0
    ensures rates.Cost(u) - 1 <= rates.Cost(u.(longCacheWrite := longer))
  {
    var v := u.(longCacheWrite := longer);
    MovedShare(u.ShortWrites(), u.LongWrites(), v.LongWrites() - u.LongWrites(),
               rates.CacheWriteRate(), rates.LongCacheWriteRate());
  }

  lemma FallOfFloors(x: int, y: int, z: int, t: int)
    ensures z / TOKENS_PER_PRICE_UNIT + t / TOKENS_PER_PRICE_UNIT
            < x / TOKENS_PER_PRICE_UNIT + y / TOKENS_PER_PRICE_UNIT
            <==> z + t - x - y + x % TOKENS_PER_PRICE_UNIT + y % TOKENS_PER_PRICE_UNIT
                 < z % TOKENS_PER_PRICE_UNIT + t % TOKENS_PER_PRICE_UNIT
  {
  }

  lemma FallOfShares(short: int, long: int, moved: int, p: int, q: int)
    requires 0 <= moved <= short && 0 <= long && 0 <= p && 0 <= q
    ensures CostNanos(short - moved, p) + CostNanos(long + moved, q) < CostNanos(short, p) + CostNanos(long, q)
            <==> moved * (q - p) + short * p % TOKENS_PER_PRICE_UNIT + long * q % TOKENS_PER_PRICE_UNIT
                 < (short - moved) * p % TOKENS_PER_PRICE_UNIT + (long + moved) * q % TOKENS_PER_PRICE_UNIT
  {
    CostOfShare(short, p);
    CostOfShare(long, q);
    CostOfShare(short - moved, p);
    CostOfShare(long + moved, q);
    assert short * p == (short - moved) * p + moved * p;
    assert (long + moved) * q == long * q + moved * q;
    assert moved * (q - p) == moved * q - moved * p;
    FallOfFloors(short * p, long * q, (short - moved) * p, (long + moved) * q);
  }

  /** It is lost exactly when what the longer lifetime adds to the two products, with the remainders they
      left before, falls short of the remainders they leave now. */
  lemma NanoUnitLostExactlyWhen(rates: Rates, u: Usage, longer: int)
    requires u.cacheWrite >= 0 && u.longCacheWrite <= longer && rates.CacheWriteRate() >= 0
    ensures var v := u.(longCacheWrite := longer);
            var moved, p, q := v.LongWrites() - u.LongWrites(), rates.CacheWriteRate(), rates.LongCacheWriteRate();
            rates.Cost(v) == rates.Cost(u) - 1 <==>
            moved * (q - p)
            + u.ShortWrites() * p % TOKENS_PER_PRICE_UNIT + u.LongWrites() * q % TOKENS_PER_PRICE_UNIT
            < v.ShortWrites() * p % TOKENS_PER_PRICE_UNIT + v.LongWrites() * q % TOKENS_PER_PRICE_UNIT
  {
    var v := u.(longCacheWrite := longer);
    var moved := v.LongWrites() - u.LongWrites();
    LongerCachingCostsNoLess(rates, u, longer);
    FallOfShares(u.ShortWrites(), u.LongWrites(), moved, rates.CacheWriteRate(), rates.LongCacheWriteRate());
    assert v.ShortWrites() == u.ShortWrites() - moved && v.LongWrites() == u.LongWrites() + moved;
    hide CostNanos, Rates.CacheWriteRate, Rates.LongCacheWriteRate;
  }

  /** So it can be: two writes at half a nano each cost one together and none apart. */
  lemma LongerCachingCanCostOneLess()
    ensures var rates := Rates(0, 0, None, Some(500_000));
            rates.Cost(Usage(2, 0, 0, 2, 1)) == rates.Cost(Usage(2, 0, 0, 2, 0)) - 1
  {
  }

  // ---- the catalogue --------------------------------------------------------------------

  /** A catalogue record; every price may be missing. */
  datatype Record = Record(
    input: Option<int>, output: Option<int>, cachedInput: Option<int>, cacheWrite: Option<int>,
    threshold: Option<int>,
    longInput: Option<int>, longOutput: Option<int>, longCachedInput: Option<int>, longCacheWrite: Option<int>)

  /** A length with half a set of rates is no set. */
  function LongContextRates(r: Record): Option<Rates> {
    if r.threshold.None? || r.longInput.None? || r.longOutput.None? then None
    else Some(Rates(r.longInput.value, r.longOutput.value, r.longCachedInput, r.longCacheWrite))
  }

  function PriceFor(r: Record): Option<Price> {
    if r.input.None? || r.output.None? then None
    else
      var rates := Rates(r.input.value, r.output.value, r.cachedInput, r.cacheWrite);
      Some(Price(rates, r.threshold, LongContextRates(r)))
  }

  function RequestCost(r: Option<Record>, u: Option<Usage>): Option<int> {
    if u.None? || r.None? || PriceFor(r.value).None? then None
    else Some(PriceFor(r.value).value.Cost(u.value))
  }

  /** A request has a cost exactly when its usage is known and its model has both ordinary prices, and
      one token more of it never costs less: always where the record states no whole second set, and
      otherwise where that set is no lower. */
  lemma PricedRequestsGrow(r: Option<Record>, u: Option<Usage>, kind: Kind, n: nat)
    ensures RequestCost(r, u).Some? <==> u.Some? && r.Some? && r.value.input.Some? && r.value.output.Some?
    ensures RequestCost(r, u).Some? ==>
      var price := PriceFor(r.value).value;
      (LongContextRates(r.value).None? || NoLower(price.rates, LongContextRates(r.value).value)) ==>
        RequestCost(r, u).value <= RequestCost(r, Some(Grown(u.value, kind, n))).value
  {
    if RequestCost(r, u).Some? {
      var price := PriceFor(r.value).value;
      if LongContextRates(r.value).None? || NoLower(price.rates, LongContextRates(r.value).value) {
        GrowingNeverCheaper(price, u.value, kind, n);
      }
    }
  }

  // ---- the bill -------------------------------------------------------------------------

  /** Tokens of one kind, the rate they are billed at, and the whole nano-units that comes to. */
  datatype Line = Line(tokens: int, rate: int, nanos: int)

  /** One line for each kind of token: ordinary input, answer, cache reads, and the two cache writes. */
  datatype Bill = Bill(input: Line, answer: Line, cached: Line, short: Line, long: Line) {
    ghost function Total(): int {
      input.nanos + answer.nanos + cached.nanos + short.nanos + long.nanos
    }
  }

  /** The rate is per million tokens and what is less than a nano-unit is dropped; nothing is charged for
      no tokens or at no rate. */
  ghost predicate Balances(l: Line) {
    if l.tokens > 0 && l.rate > 0 then l.nanos * 1_000_000 <= l.tokens * l.rate < (l.nanos + 1) * 1_000_000
    else l.nanos == 0
  }

  /** The second set of prices is whole and the prompt is longer than its threshold. */
  ghost predicate IsLong(r: Record, prompt: int) {
    r.threshold.Some? && r.longInput.Some? && r.longOutput.Some? && r.threshold.value < prompt
  }

  /** Cache reads cost what they are priced at, or ordinary input; a write its price or a quarter more than
      that input, rounded down; a write for the hour twice the input, or the write's rate if that is more. */
  ghost predicate RatedBy(bill: Bill, input: int, output: int, cached: Option<int>, write: Option<int>) {
    && bill.input.rate == input && bill.answer.rate == output
    && (cached == Some(bill.cached.rate) || (cached.None? && bill.cached.rate == input))
    && (|| write == Some(bill.short.rate)
        || (write.None? && 4 * bill.short.rate <= 5 * input < 4 * bill.short.rate + 4))
    && 2 * input <= bill.long.rate && bill.short.rate <= bill.long.rate
    && (bill.long.rate == 2 * input || bill.long.rate == bill.short.rate)
  }

  /** Every token of the report stands on one line: what the prompt does not read from the cache or write to
      it is ordinary input, and of the writes as many are for the hour as were reported, up to all of them. */
  ghost predicate Counts(bill: Bill, u: Usage) {
    && bill.answer.tokens == u.completion && bill.cached.tokens == u.cached
    && bill.input.tokens >= 0 && u.prompt <= bill.input.tokens + u.cached + u.cacheWrite
    && (bill.input.tokens == 0 || u.prompt == bill.input.tokens + u.cached + u.cacheWrite)
    && bill.short.tokens + bill.long.tokens == u.cacheWrite
    && (if u.longCacheWrite <= 0 || u.cacheWrite <= 0 then bill.long.tokens == 0
        else if u.longCacheWrite <= u.cacheWrite then bill.long.tokens == u.longCacheWrite
        else bill.short.tokens == 0)
  }

  ghost predicate Itemises(bill: Bill, r: Record, u: Usage) {
    && r.input.Some? && r.output.Some?
    && (if IsLong(r, u.prompt) then
          RatedBy(bill, r.longInput.value, r.longOutput.value, r.longCachedInput, r.longCacheWrite)
        else RatedBy(bill, r.input.value, r.output.value, r.cachedInput, r.cacheWrite))
    && Counts(bill, u)
    && Balances(bill.input) && Balances(bill.answer) && Balances(bill.cached) && Balances(bill.short)
    && Balances(bill.long)
  }

  lemma Balanced(tokens: int, rate: int, nanos: int)
    ensures Balances(Line(tokens, rate, nanos)) <==> nanos == CostNanos(tokens, rate)
  {
    if tokens > 0 && rate > 0 {
      var product := tokens * rate;
      assert product == product / 1_000_000 * 1_000_000 + product % 1_000_000;
    }
  }

  function BillOf(r: Rates, u: Usage): Bill {
    var line := (tokens: int, rate: int) => Line(tokens, rate, CostNanos(tokens, rate));
    Bill(line(u.Uncached(), r.input), line(u.completion, r.output), line(u.cached, r.CachedInputRate()),
         line(u.ShortWrites(), r.CacheWriteRate()), line(u.LongWrites(), r.LongCacheWriteRate()))
  }

  lemma TokensCounted(bill: Bill, u: Usage)
    ensures Counts(bill, u) <==>
            && bill.input.tokens == u.Uncached() && bill.answer.tokens == u.completion
            && bill.cached.tokens == u.cached
            && bill.short.tokens == u.ShortWrites() && bill.long.tokens == u.LongWrites()
  {
  }

  lemma RatesApplied(bill: Bill, r: Rates)
    ensures RatedBy(bill, r.input, r.output, r.cachedInput, r.cacheWrite) <==>
            && bill.input.rate == r.input && bill.answer.rate == r.output
            && bill.cached.rate == r.CachedInputRate()
            && bill.short.rate == r.CacheWriteRate() && bill.long.rate == r.LongCacheWriteRate()
  {
  }

  /** A request costs what its one bill comes to: its model's record gives the rates, by the length of
      the prompt, and every token it reports is billed once. */
  lemma CostIsTheBill(r: Record, u: Usage, cost: int)
    ensures RequestCost(Some(r), Some(u)) == Some(cost) <==> exists bill :: Itemises(bill, r, u) && bill.Total() == cost
  {
    if r.input.Some? && r.output.Some? {
      var rates := PriceFor(r).value.RatesFor(u.prompt);
      forall bill ensures Itemises(bill, r, u) <==> bill == BillOf(rates, u) {
        OneBill(bill, r, u);
      }
      assert BillOf(rates, u).Total() == rates.Cost(u) by {
        hide CostNanos;
      }
      hide Itemises, BillOf, Rates.Cost;
    }
  }

  lemma OneBill(bill: Bill, r: Record, u: Usage)
    requires r.input.Some? && r.output.Some?
    ensures Itemises(bill, r, u) <==> bill == BillOf(PriceFor(r).value.RatesFor(u.prompt), u)
  {
    var rates := PriceFor(r).value.RatesFor(u.prompt);
    RatesApplied(bill, rates);
    TokensCounted(bill, u);
    Balanced(bill.input.tokens, bill.input.rate, bill.input.nanos);
    Balanced(bill.answer.tokens, bill.answer.rate, bill.answer.nanos);
    Balanced(bill.cached.tokens, bill.cached.rate, bill.cached.nanos);
    Balanced(bill.short.tokens, bill.short.rate, bill.short.nanos);
    Balanced(bill.long.tokens, bill.long.rate, bill.long.nanos);
    hide Balances, CostNanos, RatedBy, Counts;
    hide Rates.CachedInputRate, Rates.CacheWriteRate, Rates.LongCacheWriteRate;
    hide Usage.Uncached, Usage.ShortWrites, Usage.LongWrites;
  }
}
