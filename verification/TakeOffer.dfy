/**
 * Taking an offer end to end (programs/onreapp/src/instructions/offer/take_offer.rs and offer_utils.rs): find the
 * active vector, price it, split off the fee, convert, move the tokens; and whole runs that mix this with vector
 * instructions.
 */
module TakeOffer {
  import opened Common
  import opened OfferVectors
  import OfferRuns
  import VectorPricing
  import Exchange
  import TokenLedger

  // ---------------------------------------------------------------- the quote

  datatype QuoteError =
    | InvalidAmount | NoActiveVector
    | Pricing(price: VectorPricing.PriceError) | Amounts(amounts: Exchange.ExchangeError)

  datatype Quote = Quote(price: u64, net: u64, fee: u64, out: u64)

  /** What an offer fixes besides its vectors. */
  datatype Terms = Terms(feeBps: u16, decimalsIn: u8, decimalsOut: u8)

  /** What one vector quotes. */
  function QuoteOf(v: OfferVector, terms: Terms, amount: u64, now: u64): Result<Quote, QuoteError>
  {
    match VectorPricing.StepPriceAt(v.apr, v.basePrice, v.baseTime, v.fixDuration, now)
    case Err(e) => Err(Pricing(e))
    case Ok(price) =>
      match Exchange.CalculateFees(amount, terms.feeBps)
      case Err(e) => Err(Amounts(e))
      case Ok(fees) =>
        match Exchange.TokenOutAmount(fees.net, price, terms.decimalsIn, terms.decimalsOut)
        case Err(e) => Err(Amounts(e))
        case Ok(out) => Ok(Quote(price, fees.net, fees.fee, out))
  }

  /** `process_offer_core_at`, after its check of the mints. */
  function ProcessOffer(vs: seq<OfferVector>, terms: Terms, amount: u64, now: u64): Result<Quote, QuoteError>
  {
    if amount == 0 then Err(InvalidAmount)
    else
      match FindActive(vs, now)
      case None => Err(QuoteError.NoActiveVector)
      case Some(v) => QuoteOf(v, terms, amount, now)
  }

  /**
   * The price at `now` of a vector, in a definition of its own: the compounded price at the end of the step in which
   * `now` lies, counted in durations from the base time, if that end and the price can be represented.
   */
  ghost predicate IsPrice(v: OfferVector, now: u64, price: u64)
  {
    && v.baseTime <= now && v.fixDuration > 0
    && exists end: u64 ::
         && end == ((now - v.baseTime) / v.fixDuration + 1) * v.fixDuration
         && VectorPricing.VectorPrice(v.apr, v.basePrice, end) == Ok(price)
         && price == VectorPricing.UnboundedPrice(v.apr, v.basePrice, end)
  }

  /** The amount is split into a fee, rounded up and cut to 64 bits, and the rest; that buys the output at the price. */
  ghost predicate IsQuote(v: OfferVector, terms: Terms, amount: u64, now: u64, q: Quote)
  {
    && IsPrice(v, now, q.price)
    && q.fee == Exchange.CeilFee(amount, terms.feeBps) % 0x1_0000_0000_0000_0000 && q.fee + q.net == amount
    && Exchange.IsOutput(q.net, q.price, terms.decimalsIn, terms.decimalsOut, q.out)
  }

  /** A quote is returned exactly when the latest started vector gives one for a positive amount, and it is that one. */
  lemma QuoteExact(vs: seq<OfferVector>, terms: Terms, amount: u64, now: u64, q: Quote)
    ensures ProcessOffer(vs, terms, amount, now) == Ok(q)
       <==> amount > 0 && exists i: nat :: IsLatestStarted(vs, now, i) && IsQuote(vs[i], terms, amount, now, q)
    ensures amount == 0 ==> ProcessOffer(vs, terms, amount, now) == Err(InvalidAmount)
    ensures amount > 0 && (forall i :: 0 <= i < |vs| ==> !(0 < vs[i].startTime <= now)) ==>
      ProcessOffer(vs, terms, amount, now) == Err(QuoteError.NoActiveVector)
  {
    FindActiveCharacterised(vs, now);
    if FindActive(vs, now).Some? {
      QuoteOfExact(FindActive(vs, now).value, terms, amount, now, q);
    }
  }

  lemma QuoteOfExact(v: OfferVector, terms: Terms, amount: u64, now: u64, q: Quote)
    ensures QuoteOf(v, terms, amount, now) == Ok(q) <==> IsQuote(v, terms, amount, now, q)
  {
    StepPriceExact(v, now, q.price);
    Exchange.FeesExact(amount, terms.feeBps, q.fee, q.net);
    Exchange.TokenOutExact(q.net, q.price, terms.decimalsIn, terms.decimalsOut, q.out);
  }

  lemma StepPriceExact(v: OfferVector, now: u64, price: u64)
    ensures VectorPricing.StepPriceAt(v.apr, v.basePrice, v.baseTime, v.fixDuration, now) == Ok(price)
       <==> IsPrice(v, now, price)
  {
    if v.baseTime <= now && v.fixDuration > 0 {
      var step := (now - v.baseTime) / v.fixDuration;
      DivAtLeast(now - v.baseTime, v.fixDuration, 0);
      MulMonotone(step + 1, step + 1, 1, v.fixDuration);
      var end := (step + 1) * v.fixDuration;
      if end <= U64_MAX && VectorPricing.VectorPrice(v.apr, v.basePrice, end) == Ok(price) {
        VectorPricing.PriceIsUnbounded(v.apr, v.basePrice, end, price);
      }
    }
  }

  /**
   * A quote splits the amount without loss, with the fee covering its fraction by less than a unit more, at a price no
   * better than the base price of the latest started vector, and pays out the largest amount worth no more than the
   * net input at that price, whose unit is a billionth.
   */
  lemma QuoteSound(vs: seq<OfferVector>, terms: Terms, amount: u64, now: u64)
    ensures ProcessOffer(vs, terms, amount, now).Ok? ==>
      FindActive(vs, now).Some? && FindActive(vs, now).value.startTime <= now
    ensures ProcessOffer(vs, terms, amount, now).Ok? ==>
      var q, v := ProcessOffer(vs, terms, amount, now).value, FindActive(vs, now).value;
      && q.net + q.fee == amount
      && (terms.feeBps <= 10_000 ==> amount * terms.feeBps <= q.fee * 10_000 < amount * terms.feeBps + 10_000)
      && IsPrice(v, now, q.price) && v.basePrice <= q.price
      && Exchange.IsOutput(q.net, q.price, terms.decimalsIn, terms.decimalsOut, q.out)
  {
    if ProcessOffer(vs, terms, amount, now).Ok? {
      FindActiveCharacterised(vs, now);
      var q, v := ProcessOffer(vs, terms, amount, now).value, FindActive(vs, now).value;
      QuoteOfExact(v, terms, amount, now, q);
      VectorPricing.StepPriceIsEndOfStep(v.apr, v.basePrice, v.baseTime, v.fixDuration, now);
      Exchange.FeesCharacterised(amount, terms.feeBps);
      Exchange.CeilFeeBounds(amount, terms.feeBps);
    }
  }

  /** A quote is for a positive net input. */
  lemma QuoteBuys(vs: seq<OfferVector>, terms: Terms, amount: u64, now: u64)
    ensures ProcessOffer(vs, terms, amount, now).Ok? ==> ProcessOffer(vs, terms, amount, now).value.net > 0
  {
    if ProcessOffer(vs, terms, amount, now).Ok? {
      QuoteSound(vs, terms, amount, now);
      var q := ProcessOffer(vs, terms, amount, now).value;
      var unit := q.price * Exp(10, terms.decimalsIn);
      Exchange.DenominatorPositive(q.price, terms.decimalsIn);
      MulMonotone(1, q.out, 1, unit);
    }
  }

  // ---------------------------------------------------------------- the token movements

  /** The token accounts and mints a take names, and the limits on minting. */
  datatype Parties = Parties(
    mintIn: nat, mintOut: nat, userIn: nat, bossIn: nat, vaultIn: nat, vaultOut: nat, userOut: nat,
    controlsIn: bool, controlsOut: bool, transferFeeIn: bool, transferFeeOut: bool, maxSupply: u64, maxMint: u64)

  /** How `take_offer` fills in the parameters: no refill, and the fee goes where the proceeds go. */
  function ParamsOf(q: Quote, a: Parties): TokenLedger.Params
  {
    TokenLedger.Params(
      a.mintIn, q.net, q.fee, 0, a.userIn, a.bossIn, None, a.bossIn, a.vaultIn, a.transferFeeIn, a.controlsIn,
      a.mintOut, q.out, a.vaultOut, a.userOut, a.transferFeeOut, a.controlsOut, a.maxSupply, a.maxMint)
  }

  datatype TakeError = NoQuote(quote: QuoteError) | UnknownAccount | Tokens(tokens: TokenLedger.LedgerError)

  /** `take_offer`: one transaction, rolled back when it fails. */
  function Take(vs: seq<OfferVector>, l: TokenLedger.Ledger, terms: Terms, a: Parties, amount: u64, now: u64)
    : (TokenLedger.Ledger, Result<Quote, TakeError>)
  {
    match ProcessOffer(vs, terms, amount, now)
    case Err(e) => (l, Err(NoQuote(e)))
    case Ok(q) =>
      if !TokenLedger.WellFormed(l, ParamsOf(q, a)) then (l, Err(UnknownAccount))
      else
        var (l', r) := TokenLedger.Execute(l, ParamsOf(q, a));
        if r.Err? then (l, Err(Tokens(r.error))) else (l', Ok(q))
  }

  /** Whatever a take does, every supply stays the sum of its balances. */
  lemma TakeConserves(vs: seq<OfferVector>, l: TokenLedger.Ledger, terms: Terms, a: Parties, amount: u64, now: u64)
    requires TokenLedger.Conserved(l)
    ensures TokenLedger.Conserved(Take(vs, l, terms, a, amount, now).0)
  {
    var quote := ProcessOffer(vs, terms, amount, now);
    if quote.Ok? && TokenLedger.WellFormed(l, ParamsOf(quote.value, a)) {
      TokenLedger.ExecuteConserves(l, ParamsOf(quote.value, a));
    }
  }

  /** The change of every balance and every supply in a successful take, for any aliasing among the accounts. */
  lemma TakeMoves(vs: seq<OfferVector>, l: TokenLedger.Ledger, terms: Terms, a: Parties, amount: u64, now: u64)
    ensures var (l', r) := Take(vs, l, terms, a, amount, now); r.Ok? ==>
      var q := r.value;
      && |l'.accounts| == |l.accounts| && |l'.supplies| == |l.supplies|
      && (forall i :: 0 <= i < |l.accounts| ==>
            l'.accounts[i].amount == l.accounts[i].amount
              + TokenLedger.Moved(i, a.userIn, a.bossIn, q.fee)
              + (if a.controlsIn then (if i == a.userIn then -(q.net as int) else 0)
                else TokenLedger.Moved(i, a.userIn, a.bossIn, q.net))
              + (if a.controlsOut then (if i == a.userOut then q.out else 0)
                else TokenLedger.Moved(i, a.vaultOut, a.userOut, q.out)))
      && (forall m :: 0 <= m < |l.supplies| ==>
            l'.supplies[m] == l.supplies[m] - (if a.controlsIn && m == a.mintIn then q.net else 0)
                                            + (if a.controlsOut && m == a.mintOut then q.out else 0))
  {
    if Take(vs, l, terms, a, amount, now).1.Ok? {
      TokenLedger.ExecuteMoves(l, ParamsOf(ProcessOffer(vs, terms, amount, now).value, a));
    }
  }

  /**
   * In a successful take between separate accounts the user pays exactly the amount offered and receives exactly the
   * quoted output; the boss receives all of it, or the fee alone when the net input is burned.
   */
  lemma UserPaysAmountForQuote(vs: seq<OfferVector>, l: TokenLedger.Ledger, terms: Terms, a: Parties, amount: u64,
                               now: u64)
    requires a.userIn !in {a.bossIn, a.vaultIn, a.vaultOut, a.userOut}
      && a.userOut !in {a.bossIn, a.vaultIn, a.vaultOut}
    requires a.bossIn !in {a.vaultIn, a.vaultOut}
    ensures var (l', r) := Take(vs, l, terms, a, amount, now); r.Ok? ==>
      && TokenLedger.WellFormed(l, ParamsOf(r.value, a))
      && l'.accounts[a.userIn].amount == l.accounts[a.userIn].amount - amount
      && l'.accounts[a.userOut].amount == l.accounts[a.userOut].amount + r.value.out
      && l'.accounts[a.bossIn].amount == l.accounts[a.bossIn].amount + (if a.controlsIn then r.value.fee else amount)
      && (a.mintIn != a.mintOut ==>
            && l'.supplies[a.mintIn] == l.supplies[a.mintIn] - (if a.controlsIn then r.value.net else 0)
            && l'.supplies[a.mintOut] == l.supplies[a.mintOut] + (if a.controlsOut then r.value.out else 0))
  {
    if Take(vs, l, terms, a, amount, now).1.Ok? {
      QuoteSound(vs, terms, amount, now);
      TokenLedger.ExecuteMoves(l, ParamsOf(ProcessOffer(vs, terms, amount, now).value, a));
    }
  }

  // ---------------------------------------------------------------- exactly when a take succeeds

  /** The accounts and mints exist. */
  predicate Exist(l: TokenLedger.Ledger, a: Parties)
  {
    && a.mintIn < |l.supplies| && a.mintOut < |l.supplies|
    && a.userIn < |l.accounts| && a.bossIn < |l.accounts| && a.vaultIn < |l.accounts|
    && a.vaultOut < |l.accounts| && a.userOut < |l.accounts|
  }

  /** The accounts for token_in hold that mint, those for token_out the other. */
  predicate RightMints(l: TokenLedger.Ledger, a: Parties)
    requires Exist(l, a)
  {
    && l.accounts[a.userIn].mint == l.accounts[a.bossIn].mint == l.accounts[a.vaultIn].mint == a.mintIn
    && l.accounts[a.vaultOut].mint == l.accounts[a.userOut].mint == a.mintOut
  }

  /** The user can pay: net input and fee together, but when paying himself only the larger. */
  predicate UserCanPay(l: TokenLedger.Ledger, a: Parties, q: Quote)
    requires Exist(l, a)
  {
    var funds := l.accounts[a.userIn].amount;
    if a.controlsIn || a.userIn != a.bossIn then q.net + q.fee <= funds else q.net <= funds && q.fee <= funds
  }

  /** What the payment alone does to the vault account that token_out comes from. */
  function VaultChange(a: Parties, q: Quote): int
  {
    (if a.vaultOut == a.userIn then -(q.net as int) - q.fee else 0)
    + if a.vaultOut == a.bossIn then q.fee + (if a.controlsIn then 0 else q.net) else 0
  }

  /** Token_out can be minted within limit, cap and width, or the vault has it. */
  predicate OutputAvailable(l: TokenLedger.Ledger, a: Parties, q: Quote)
    requires Exist(l, a)
  {
    if a.controlsOut then
      && (a.maxMint == 0 || q.out <= a.maxMint)
      && (a.maxSupply == 0 || l.supplies[a.mintOut] + q.out <= a.maxSupply)
      && l.supplies[a.mintOut] - (if a.controlsIn && a.mintIn == a.mintOut then q.net else 0) + q.out <= U64_MAX
    else q.out <= l.accounts[a.vaultOut].amount + VaultChange(a, q)
  }

  /**
   * In a conserved ledger a take succeeds exactly with a quote, existing accounts, mints without transfer fees, funds
   * of the user and available output; otherwise the ledger is as before. Here with accounts of the right mints.
   */
  lemma TakeExact(vs: seq<OfferVector>, l: TokenLedger.Ledger, terms: Terms, a: Parties, amount: u64, now: u64,
                  q: Quote)
    requires TokenLedger.Conserved(l) && (Exist(l, a) ==> RightMints(l, a))
    ensures Take(vs, l, terms, a, amount, now).1 == Ok(q)
       <==> ProcessOffer(vs, terms, amount, now) == Ok(q) && Exist(l, a) && !a.transferFeeIn && !a.transferFeeOut
            && UserCanPay(l, a, q) && OutputAvailable(l, a, q)
    ensures Take(vs, l, terms, a, amount, now).1.Err? ==> Take(vs, l, terms, a, amount, now).0 == l
  {
    if ProcessOffer(vs, terms, amount, now) == Ok(q) && Exist(l, a) {
      TokenLedger.ExecuteSucceeds(l, ParamsOf(q, a));
    }
  }

  /**
   * In any ledger: a take that mints keeps to the per-mint limit and to the supply cap, and no account is used for a
   * mint it does not hold.
   */
  lemma TakeWithinLimits(vs: seq<OfferVector>, l: TokenLedger.Ledger, terms: Terms, a: Parties, amount: u64, now: u64)
    ensures var r := Take(vs, l, terms, a, amount, now).1; r.Ok? ==>
      && Exist(l, a) && !a.transferFeeIn && !a.transferFeeOut
      && (a.controlsOut ==>
            && (a.maxMint == 0 || r.value.out <= a.maxMint)
            && (a.maxSupply == 0 || l.supplies[a.mintOut] + r.value.out <= a.maxSupply))
      && l.accounts[a.userIn].mint == a.mintIn && l.accounts[a.userOut].mint == a.mintOut
      && (a.controlsIn ==> l.accounts[a.vaultIn].mint == a.mintIn)
      && (!a.controlsIn || r.value.fee > 0 ==> l.accounts[a.bossIn].mint == a.mintIn)
      && (!a.controlsOut ==> l.accounts[a.vaultOut].mint == a.mintOut)
  {
    var r := Take(vs, l, terms, a, amount, now).1;
    if r.Ok? {
      QuoteBuys(vs, terms, amount, now);
      TokenLedger.ExecuteChecked(l, ParamsOf(r.value, a));
    }
  }

  // ---------------------------------------------------------------- runs of the whole system

  datatype Action =
    | Vector(op: OfferRuns.Op)
    | TakeIt(terms: Terms, parties: Parties, amount: u64)

  type Event = OfferRuns.Event<Action>

  datatype Outcome = Vectors(vectors: OfferRuns.Outcome) | Taken(quote: Result<Quote, TakeError>)

  datatype System = System(vectors: seq<OfferVector>, ledger: TokenLedger.Ledger)

  /** One transaction on the ten slots and the ledger. */
  function Step(s: System, e: Event): (System, Outcome)
  {
    match e.op
    case Vector(op) =>
      var (vs, r) := OfferRuns.Process(s.vectors, OfferRuns.Event(e.now, op));
      (System(vs, s.ledger), Vectors(r))
    case TakeIt(terms, parties, amount) =>
      var (l, r) := Take(s.vectors, s.ledger, terms, parties, amount, e.now);
      (System(s.vectors, l), Taken(r))
  }

  /** The same transaction when every vector ever added is remembered. */
  function LogStep(s: System, e: Event): (System, Outcome)
  {
    match e.op
    case Vector(op) =>
      var (log, r) := OfferRuns.LogProcess(s.vectors, OfferRuns.Event(e.now, op));
      (System(log, s.ledger), Vectors(r))
    case TakeIt(terms, parties, amount) =>
      var (l, r) := Take(s.vectors, s.ledger, terms, parties, amount, e.now);
      (System(s.vectors, l), Taken(r))
  }

  function Run(l: TokenLedger.Ledger, events: seq<Event>): (System, seq<Outcome>)
  {
    if events == [] then (System(OfferRuns.NoVectors(), l), [])
    else
      var (before, outcomes) := Run(l, events[..|events| - 1]);
      var (after, outcome) := Step(before, events[|events| - 1]);
      (after, outcomes + [outcome])
  }

  function LogRun(l: TokenLedger.Ledger, events: seq<Event>): (System, seq<Outcome>)
  {
    if events == [] then (System([], l), [])
    else
      var (before, outcomes) := LogRun(l, events[..|events| - 1]);
      var (after, outcome) := LogStep(before, events[|events| - 1]);
      (after, outcomes + [outcome])
  }

  /** The slots represent the log, and the ledgers are the same. */
  ghost predicate Related(s: System, log: System, clock: int, cut: nat)
  {
    OfferRuns.Represents(s.vectors, log.vectors, clock, cut) && s.ledger == log.ledger
  }

  lemma StepRelated(s: System, log: System, clock: int, cut: nat, e: Event) returns (cut': nat)
    requires Related(s, log, clock, cut) && clock <= e.now
    ensures Step(s, e).1 == LogStep(log, e).1
    ensures Related(Step(s, e).0, LogStep(log, e).0, e.now, cut')
  {
    match e.op {
      case Vector(op) =>
        cut' := OfferRuns.StepSimulates(s.vectors, log.vectors, clock, cut, OfferRuns.Event(e.now, op));
      case TakeIt(_, _, _) =>
        cut' := cut;
        OfferRuns.LookupsAgree(s.vectors, log.vectors, clock, cut, e.now);
        RepresentsLater(s.vectors, log.vectors, clock, cut, e.now);
    }
  }

  lemma RepresentsLater(vs: seq<OfferVector>, log: seq<OfferVector>, clock: int, cut: nat, later: int)
    requires OfferRuns.Represents(vs, log, clock, cut) && clock <= later
    ensures OfferRuns.Represents(vs, log, later, cut)
  {
  }

  lemma {:induction false} RunRelated(l: TokenLedger.Ledger, events: seq<Event>) returns (cut: nat)
    requires OfferRuns.ClockAdvances(events)
    ensures Run(l, events).1 == LogRun(l, events).1
    ensures Related(Run(l, events).0, LogRun(l, events).0, OfferRuns.Clock(events), cut)
  {
    if events == [] {
      cut := OfferRuns.RunSimulates([]);
    } else {
      var init := events[..|events| - 1];
      cut := RunRelated(l, init);
      cut := StepRelated(Run(l, init).0, LogRun(l, init).0, OfferRuns.Clock(init), cut, events[|events| - 1]);
    }
  }

  /**
   * Over any run of vector instructions and takes, collecting old vectors is invisible: every instruction has the
   * outcome, every taker the quote, and every account the balance that they would have if no vector were ever
   * collected.
   */
  lemma CollectionIsInvisible(l: TokenLedger.Ledger, events: seq<Event>)
    requires OfferRuns.ClockAdvances(events)
    ensures Run(l, events).1 == LogRun(l, events).1
    ensures Run(l, events).0.ledger == LogRun(l, events).0.ledger
  {
    var _ := RunRelated(l, events);
  }

  /** Over any such run every supply stays the sum of its balances. */
  lemma {:induction false} RunConserves(l: TokenLedger.Ledger, events: seq<Event>)
    requires TokenLedger.Conserved(l)
    ensures TokenLedger.Conserved(Run(l, events).0.ledger)
  {
    if events == [] {
    } else {
      var init, e := events[..|events| - 1], events[|events| - 1];
      RunConserves(l, init);
      var before := Run(l, init).0;
      if e.op.TakeIt? {
        TakeConserves(before.vectors, before.ledger, e.op.terms, e.op.parties, e.op.amount, e.now);
      }
    }
  }

  predicate MayMint(e: Event, mint: nat)
  {
    e.op.TakeIt? && e.op.parties.controlsOut && e.op.parties.mintOut == mint
  }

  /**
   * Over any such run, when every take that can mint a token is under a cap, which may change, the token's supply never
   * exceeds the largest of them or where it started.
   */
  lemma {:induction false} RunWithinCap(l: TokenLedger.Ledger, events: seq<Event>, mint: nat, cap: u64)
    requires mint < |l.supplies|
    requires forall i :: 0 <= i < |events| && MayMint(events[i], mint) ==> 0 < events[i].op.parties.maxSupply <= cap
    ensures |Run(l, events).0.ledger.supplies| == |l.supplies|
    ensures Run(l, events).0.ledger.supplies[mint] <= if l.supplies[mint] > cap then l.supplies[mint] else cap
  {
    if events == [] {
    } else {
      var init, e := events[..|events| - 1], events[|events| - 1];
      RunWithinCap(l, init, mint, cap);
      var before := Run(l, init).0;
      if e.op.TakeIt? {
        TakeMoves(before.vectors, before.ledger, e.op.terms, e.op.parties, e.op.amount, e.now);
        TakeWithinLimits(before.vectors, before.ledger, e.op.terms, e.op.parties, e.op.amount, e.now);
      }
    }
  }
}
