/** The direction-routing rule of createEngine (libs/core/src/index.ts) as pure
    steps over the engine's signals. Forward, the amount of token A drives the
    calculation and the output lands in token B; backward, the reverse. The
    reactive graph that schedules these steps is not part of this model. */
module Routing {
  import opened Results
  import opened Tokens

  /** The engine's signals: the amounts the user sees, the amounts the
      calculation reads, and the two token ids. */
  datatype Signals = Signals(
    direction: Direction,
    tokenAAmt: int, tokenBAmt: int,
    reactiveA: int, reactiveB: int,
    tokenAId: Option<string>, tokenBId: Option<string>)

  /** The signals a new engine starts with. */
  const Initial: Signals := Signals(Forward, 0, 0, 0, 0, None, None)

  /** What the calculated resource hands to `calculate`. */
  datatype Request<R> = Request(amount: int, a: Token, b: Token, direction: Direction, rates: R)

  /** The first effect: the driving amount is copied into the calculation's
      view of it, and nothing else changes. */
  function Sync(s: Signals): (r: Signals)
    ensures s.direction == Forward ==> r.reactiveA == s.tokenAAmt && r.reactiveB == s.reactiveB
    ensures s.direction == Backward ==> r.reactiveB == s.tokenBAmt && r.reactiveA == s.reactiveA
    ensures r.(reactiveA := s.reactiveA, reactiveB := s.reactiveB) == s
  {
    match s.direction
    case Forward => s.(reactiveA := s.tokenAAmt)
    case Backward => s.(reactiveB := s.tokenBAmt)
  }

  /** tokenPair: both ids, once both are set to non-empty strings. */
  function TokenPair(s: Signals): (r: Option<(string, string)>)
    ensures r.Some? <==> s.tokenAId.Some? && s.tokenAId.value != [] && s.tokenBId.Some? && s.tokenBId.value != []
    ensures r.Some? ==> r.value == (s.tokenAId.value, s.tokenBId.value)
  {
    match (s.tokenAId, s.tokenBId)
    case (Some(a), Some(b)) => if a != [] && b != [] then Some((a, b)) else None
    case _ => None
  }

  /** Looking up both ids of a pair in the registry's entries; the rates
      resource fetches rates only for a pair that resolves. */
  function Resolve(registry: map<string, Token>, pair: Option<(string, string)>): (r: Option<(Token, Token)>)
    ensures r.Some? <==> pair.Some? && pair.value.0 in registry && pair.value.1 in registry
    ensures r.Some? ==> r.value == (registry[pair.value.0], registry[pair.value.1])
  {
    match pair
    case None => None
    case Some((a, b)) => if a in registry && b in registry then Some((registry[a], registry[b])) else None
  }

  /** The calculated resource's input: no request without a resolved pair and
      rates; the amount is the calculation's view of the driving side. */
  function CalculatorInput<R>(registry: map<string, Token>, s: Signals, rates: Option<R>): (r: Option<Request<R>>)
    ensures r.Some? <==> Resolve(registry, TokenPair(s)).Some? && rates.Some?
    ensures r.Some? ==>
      && r.value.amount == (if s.direction == Forward then s.reactiveA else s.reactiveB)
      && (r.value.a, r.value.b) == Resolve(registry, TokenPair(s)).value
      && r.value.direction == s.direction
      && r.value.rates == rates.value
  {
    match Resolve(registry, TokenPair(s))
    case None => None
    case Some((a, b)) =>
      match rates
      case None => None
      case Some(rs) =>
        var amount := if s.direction == Forward then s.reactiveA else s.reactiveB;
        Some(Request(amount, a, b, s.direction, rs))
  }

  /** The last effect: the output goes to the driven side, token B forward and
      token A backward; without an output nothing changes. */
  function ApplyOutput(s: Signals, output: Option<int>): (r: Signals)
    ensures output.None? ==> r == s
    ensures output.Some? && s.direction == Forward ==> r == s.(tokenBAmt := output.value)
    ensures output.Some? && s.direction == Backward ==> r == s.(tokenAAmt := output.value)
  {
    match output
    case None => s
    case Some(out) =>
      if s.direction == Forward then s.(tokenBAmt := out) else s.(tokenAAmt := out)
  }

  /** One pass of the rule: sync, calculate (when there is a request), write back. */
  function Step<R>(registry: map<string, Token>, s: Signals, rates: Option<R>,
                   calculate: Request<R> -> Option<int>): Signals
  {
    var synced := Sync(s);
    var request := CalculatorInput(registry, synced, rates);
    ApplyOutput(synced, if request.Some? then calculate(request.value) else None)
  }

  /** Forward, a step feeds token A's amount to the calculation and stores
      the output as token B's amount; token A's amount is untouched. Backward
      is the mirror image. */
  lemma StepRoutes<R>(registry: map<string, Token>, s: Signals, rates: Option<R>,
                      calculate: Request<R> -> Option<int>)
    requires Resolve(registry, TokenPair(s)).Some? && rates.Some?
    ensures var (a, b) := Resolve(registry, TokenPair(s)).value;
      var r := Step(registry, s, rates, calculate);
      var driving := if s.direction == Forward then s.tokenAAmt else s.tokenBAmt;
      var out := calculate(Request(driving, a, b, s.direction, rates.value));
      && (s.direction == Forward ==>
            r.tokenAAmt == s.tokenAAmt && r.tokenBAmt == (if out.Some? then out.value else s.tokenBAmt))
      && (s.direction == Backward ==>
            r.tokenBAmt == s.tokenBAmt && r.tokenAAmt == (if out.Some? then out.value else s.tokenAAmt))
  {
  }

  /** Without both ids set and registered, or without rates, a step changes
      nothing but the synced amount. */
  lemma NoPairNoCalculation<R>(registry: map<string, Token>, s: Signals, rates: Option<R>,
                               calculate: Request<R> -> Option<int>)
    requires Resolve(registry, TokenPair(s)).None? || rates.None?
    ensures Step(registry, s, rates, calculate) == Sync(s)
  {
  }

  /** Only the driving amount reaches the calculation: changing the driven
      side's amount leaves the request as it was. */
  lemma DrivenSideIgnored<R>(registry: map<string, Token>, s: Signals, rates: Option<R>, x: int)
    ensures s.direction == Forward ==>
      CalculatorInput(registry, Sync(s.(tokenBAmt := x)), rates) == CalculatorInput(registry, Sync(s), rates)
    ensures s.direction == Backward ==>
      CalculatorInput(registry, Sync(s.(tokenAAmt := x)), rates) == CalculatorInput(registry, Sync(s), rates)
  {
  }

  /** Writing the output back does not trigger another calculation with a
      different input: once synced, the request is a fixed point of the step. */
  lemma WriteBackSettles<R>(registry: map<string, Token>, s: Signals, rates: Option<R>, output: Option<int>)
    ensures var synced := Sync(s);
      CalculatorInput(registry, Sync(ApplyOutput(synced, output)), rates)
        == CalculatorInput(registry, synced, rates)
  {
  }
}
