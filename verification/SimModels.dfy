/** A simulated model's declared latency: how an answer is split, and how long it promises to take. */
module SimModels {
  import opened Wrappers

  const TOOL_CALL_TOKENS := 12

  datatype SimModel = SimModel(
    ttftMs: real,
    tokensPerSecond: real,
    tokensPerChunk: int,
    reasoningShare: real,
    defaultMaxTokens: int,
    maxOutputTokens: int)
  {
    function SecondsPerChunk(): real {
      if tokensPerSecond <= 0.0 then 0.0 else tokensPerChunk as real / tokensPerSecond
    }

    function PerChunk(): (n: int)
      ensures n > 0
    {
      if tokensPerChunk < 1 then 1 else tokensPerChunk
    }

    /** `int(x)`, which drops the fraction towards zero. */
    static function Truncate(x: real): int {
      if x < 0.0 then -((-x).Floor) else x.Floor
    }

    function TotalTokens(maxTokens: Option<int>): int {
      var asked := if maxTokens.Some? && maxTokens.value > 0 then maxTokens.value else defaultMaxTokens;
      if asked < maxOutputTokens then asked else maxOutputTokens
    }

    function Thinking(total: int): int {
      Truncate(total as real * reasoningShare)
    }

    /** The visible and the thinking tokens of an answer. */
    function Plan(maxTokens: Option<int>, thinking: bool): (int, int) {
      var total := TotalTokens(maxTokens);
      var reasoning := if thinking then Thinking(total) else 0;
      (total - reasoning, reasoning)
    }

    /** The tokens a streamed or buffered answer carries; a turn ending in a tool call is short. */
    function OutputPlan(maxTokens: Option<int>, thinking: bool, toolCall: bool): (int, int) {
      var (answer, reasoning) := Plan(maxTokens, thinking);
      (if toolCall then TOOL_CALL_TOKENS else answer, reasoning)
    }

    function DeclaredSeconds(answer: int, reasoning: int): real {
      if tokensPerSecond <= 0.0 then ttftMs / 1000.0
      else ttftMs / 1000.0 + (CeilDiv(answer, PerChunk()) + CeilDiv(reasoning, PerChunk())) as real * SecondsPerChunk()
    }
  }

  /** Python's `-(-n // p)` for a positive divisor. */
  function CeilDiv(n: int, p: int): int
    requires p > 0
  {
    -((-n) / p)
  }

  /** How many times `range((n + p - 1) // p)` runs. */
  function RangeCount(n: int, p: int): nat
    requires p > 0
  {
    if n + p - 1 < 0 then 0 else (n + p - 1) / p
  }

  lemma DivIs(a: int, p: int, q: int, r: int)
    requires p > 0 && a == q * p + r && 0 <= r < p
    ensures a / p == q
  {
    var d := a / p - q;
    assert a == a / p * p + a % p;
    assert d * p == r - a % p;
    assert d > 0 ==> d * p >= p;
    assert d < 0 ==> d * p <= -p;
  }

  /** The loop runs as often as the promise counts, for every count of tokens that is not negative by
      a whole chunk. */
  lemma RangeIsCeil(n: int, p: int)
    requires p > 0
    ensures RangeCount(n, p) == CeilDiv(n, p) <==> -p < n
    ensures n <= 0 ==> RangeCount(n, p) == 0
  {
    var q, r := (-n) / p, (-n) % p;
    assert -n == q * p + r;
    assert (-q) * p == -(q * p);
    DivIs(n + p - 1, p, -q, p - 1 - r);
    assert q <= 0 ==> q * p <= 0;
  }

  lemma ShareOfTotal(total: real, share: real, part: real)
    requires 0.0 <= total && 0.0 <= share <= 1.0 && part == total * share
    ensures 0.0 <= part <= total
  {
    assert total * (1.0 - share) >= 0.0;
  }

  lemma TruncateBetween(x: real, n: int)
    requires 0.0 <= x <= n as real
    ensures 0 <= SimModel.Truncate(x) <= n
  {
    assert x.Floor as real <= x < (x.Floor + 1) as real;
  }

  /** What a caller asks for: a cap above zero, and otherwise the model's own. */
  ghost predicate Asks(m: SimModel, maxTokens: Option<int>, n: int) {
    (maxTokens == Some(n) && n > 0) || (n == m.defaultMaxTokens && (maxTokens.None? || maxTokens.value <= 0))
  }

  /** Thinking takes its share out of the answer: the two add up to what was asked for, within the
      model's limit, neither is negative, and thinking has the whole tokens of its share. A turn that
      ends in a tool call answers with a dozen. */
  lemma PlanSplitsTheAnswer(m: SimModel, maxTokens: Option<int>, thinking: bool)
    requires 0.0 <= m.reasoningShare <= 1.0 && 0 <= m.defaultMaxTokens && 0 <= m.maxOutputTokens
    ensures var (answer, reasoning) := m.Plan(maxTokens, thinking);
            && 0 <= answer && 0 <= reasoning
            && answer + reasoning <= m.maxOutputTokens
            && (forall n :: Asks(m, maxTokens, n) ==>
                  answer + reasoning <= n && (answer + reasoning == n || answer + reasoning == m.maxOutputTokens))
            && (if thinking then
                  reasoning as real <= (answer + reasoning) as real * m.reasoningShare < (reasoning + 1) as real
                else reasoning == 0)
            && m.OutputPlan(maxTokens, thinking, false) == (answer, reasoning)
            && m.OutputPlan(maxTokens, thinking, true) == (12, reasoning)
  {
    hide SimModel.Thinking;
    ThinkingIsAShare(m, m.TotalTokens(maxTokens));
  }

  lemma ThinkingIsAShare(m: SimModel, total: int)
    requires 0.0 <= m.reasoningShare <= 1.0 && 0 <= total
    ensures 0 <= m.Thinking(total) <= total
    ensures m.Thinking(total) as real <= total as real * m.reasoningShare < (m.Thinking(total) + 1) as real
  {
    var part := total as real * m.reasoningShare;
    ShareOfTotal(total as real, m.reasoningShare, part);
    TruncateBetween(part, total);
  }

  /** So many chunks carry the tokens, the last of them perhaps in part. */
  ghost predicate AreChunks(n: int, perChunk: int, chunks: int) {
    (chunks - 1) * perChunk < n <= chunks * perChunk
  }

  /** A chunk carries what the model declares, or one token where it declares less. */
  ghost predicate IsPerChunk(m: SimModel, perChunk: int) {
    1 <= perChunk && m.tokensPerChunk <= perChunk && (perChunk == 1 || perChunk == m.tokensPerChunk)
  }

  lemma ChunksAre(n: int, perChunk: int, chunks: int)
    requires perChunk > 0 && AreChunks(n, perChunk, chunks)
    ensures CeilDiv(n, perChunk) == chunks
  {
    assert (-chunks) * perChunk == -(chunks * perChunk);
    assert (chunks - 1) * perChunk == chunks * perChunk - perChunk;
    DivIs(-n, perChunk, -chunks, chunks * perChunk - n);
  }

  /** What is promised: the wait for the first token, and the declared tokens of every chunk of either
      part at the declared speed, or no more than the wait where no speed is declared. */
  lemma PromiseIs(m: SimModel, answer: int, reasoning: int, perChunk: int, answers: int, thoughts: int)
    requires IsPerChunk(m, perChunk)
    requires AreChunks(answer, perChunk, answers) && AreChunks(reasoning, perChunk, thoughts)
    ensures var beyond := m.DeclaredSeconds(answer, reasoning) - m.ttftMs / 1000.0;
            if m.tokensPerSecond > 0.0 then
              beyond * m.tokensPerSecond == ((answers + thoughts) * m.tokensPerChunk) as real
            else beyond == 0.0
  {
    ChunksAre(answer, perChunk, answers);
    ChunksAre(reasoning, perChunk, thoughts);
    if m.tokensPerSecond > 0.0 {
      SpeedTimesTime(m.tokensPerChunk as real, m.tokensPerSecond, (answers + thoughts) as real);
      RealProduct(answers + thoughts, m.tokensPerChunk);
    }
  }

  lemma SpeedTimesTime(tokens: real, speed: real, chunks: real)
    requires speed > 0.0
    ensures chunks * (tokens / speed) * speed == chunks * tokens
  {
    assert tokens / speed * speed == tokens;
    assert chunks * (tokens / speed) * speed == chunks * (tokens / speed * speed);
  }

  lemma {:induction false} RealProduct(a: int, b: int)
    ensures a as real * b as real == (a * b) as real
    decreases if a < 0 then -a else a
  {
    if a > 0 {
      RealProduct(a - 1, b);
      assert a * b == (a - 1) * b + b;
    } else if a < 0 {
      RealProduct(a + 1, b);
      assert a * b == (a + 1) * b - b;
    }
  }
}
