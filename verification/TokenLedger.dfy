/**
 * Token accounts, mint supplies and the exchange of token_in for token_out
 * (programs/onreapp/src/utils/token_utils.rs).
 */
module TokenLedger {
  import opened Common

  datatype LedgerError =
    | TransferFeeNotSupported | InvalidAmount | ArithmeticUnderflow | InvalidVaultTokenInAccount
    | MaxMintAmountExceeded | MathOverflow | MaxSupplyExceeded
    | MintMismatch | InsufficientFunds | TokenOverflow

  type Outcome = Result<(), LedgerError>

  /** A token account: its mint never changes. */
  datatype Account = Account(mint: nat, amount: u64)

  /** Accounts and mints are named by index. */
  datatype Ledger = Ledger(accounts: seq<Account>, supplies: seq<u64>)

  predicate IsAccount(l: Ledger, a: nat) { a < |l.accounts| }

  predicate IsMint(l: Ledger, m: nat) { m < |l.supplies| }

  function Credit(l: Ledger, a: nat, amount: int): Ledger
    requires IsAccount(l, a) && 0 <= l.accounts[a].amount + amount <= U64_MAX
  {
    l.(accounts := l.accounts[a := l.accounts[a].(amount := l.accounts[a].amount + amount)])
  }

  /** Same accounts, with the same mints, and the same number of mints. */
  predicate SameShape(l: Ledger, l': Ledger)
  {
    && |l.accounts| == |l'.accounts| && |l.supplies| == |l'.supplies|
    && forall a :: 0 <= a < |l.accounts| ==> l.accounts[a].mint == l'.accounts[a].mint
  }

  // ---------------------------------------------------------------- SPL effects

  /** Checked transfer; moving tokens onto the same account checks the funds and changes nothing. */
  function Transfer(l: Ledger, mint: nat, src: nat, dst: nat, amount: u64): (r: (Ledger, Outcome))
    requires IsAccount(l, src) && IsAccount(l, dst)
    ensures SameShape(l, r.0)
  {
    if l.accounts[src].amount < amount then (l, Err(InsufficientFunds))
    else if l.accounts[src].mint != mint || l.accounts[dst].mint != mint then (l, Err(MintMismatch))
    else if src == dst then (l, Ok(()))
    else if l.accounts[dst].amount + amount > U64_MAX then (l, Err(TokenOverflow))
    else (Credit(Credit(l, src, -(amount as int)), dst, amount), Ok(()))
  }

  function Burn(l: Ledger, mint: nat, src: nat, amount: u64): (r: (Ledger, Outcome))
    requires IsAccount(l, src) && IsMint(l, mint)
    ensures SameShape(l, r.0)
  {
    if l.accounts[src].mint != mint then (l, Err(MintMismatch))
    else if l.accounts[src].amount < amount then (l, Err(InsufficientFunds))
    else if l.supplies[mint] < amount then (l, Err(TokenOverflow))
    else
      var burned := Credit(l, src, -(amount as int));
      (burned.(supplies := burned.supplies[mint := l.supplies[mint] - amount]), Ok(()))
  }

  function MintTo(l: Ledger, mint: nat, dst: nat, amount: u64): (r: (Ledger, Outcome))
    requires IsAccount(l, dst) && IsMint(l, mint)
    ensures SameShape(l, r.0)
  {
    if l.accounts[dst].mint != mint then (l, Err(MintMismatch))
    else if l.accounts[dst].amount + amount > U64_MAX then (l, Err(TokenOverflow))
    else if l.supplies[mint] + amount > U64_MAX then (l, Err(TokenOverflow))
    else
      var minted := Credit(l, dst, amount);
      (minted.(supplies := minted.supplies[mint := l.supplies[mint] + amount]), Ok(()))
  }

  // ---------------------------------------------------------------- the program's operations

  /** `validate_max_supply`; a cap of zero is no cap. */
  function ValidateMaxSupply(currentSupply: u64, amount: u64, maxSupply: u64): Outcome
  {
    if maxSupply > 0 then
      if currentSupply + amount > U64_MAX then Err(MathOverflow)
      else if currentSupply + amount > maxSupply then Err(MaxSupplyExceeded)
      else Ok(())
    else Ok(())
  }

  /** `mint_tokens`; `supplySeen` is the supply the mint account showed when it was loaded. */
  function MintTokens(l: Ledger, mint: nat, dst: nat, supplySeen: u64, amount: u64, maxSupply: u64,
                      maxMint: u64): (r: (Ledger, Outcome))
    requires IsAccount(l, dst) && IsMint(l, mint)
    ensures SameShape(l, r.0)
  {
    if maxMint > 0 && amount > maxMint then (l, Err(MaxMintAmountExceeded))
    else
      var allowed := ValidateMaxSupply(supplySeen, amount, maxSupply);
      if allowed.Err? then (l, allowed) else MintTo(l, mint, dst, amount)
  }

  /** `ExecTokenOpsParams`, without the authorities and seeds. */
  datatype Params = Params(
    tokenInMint: nat, net: u64, fee: u64, refill: u64,
    source: nat, destination: nat, refillDestination: Option<nat>, feeDestination: nat, burnAccount: nat,
    tokenInHasTransferFee: bool, controlsTokenIn: bool,
    tokenOutMint: nat, tokenOut: u64, tokenOutSource: nat, tokenOutDestination: nat,
    tokenOutHasTransferFee: bool, controlsTokenOut: bool,
    maxSupply: u64, maxMint: u64)

  predicate WellFormed(l: Ledger, p: Params)
  {
    && IsMint(l, p.tokenInMint) && IsMint(l, p.tokenOutMint)
    && IsAccount(l, p.source) && IsAccount(l, p.destination) && IsAccount(l, p.feeDestination)
      && IsAccount(l, p.burnAccount)
    && (p.refillDestination.Some? ==> IsAccount(l, p.refillDestination.value))
    && IsAccount(l, p.tokenOutSource) && IsAccount(l, p.tokenOutDestination)
  }

  /** A transfer that is skipped when there is nothing to move. */
  function TransferIfPositive(l: Ledger, mint: nat, src: nat, dst: nat, amount: u64): (r: (Ledger, Outcome))
    requires IsAccount(l, src) && IsAccount(l, dst)
    ensures SameShape(l, r.0)
  {
    if amount > 0 then Transfer(l, mint, src, dst, amount) else (l, Ok(()))
  }

  /** Step 1 when the program controls token_in: the net amount is burned, the fee is moved. */
  function PayByBurning(l: Ledger, p: Params): (r: (Ledger, Outcome))
    requires WellFormed(l, p)
    ensures SameShape(l, r.0)
  {
    if p.refill != 0 then (l, Err(InvalidAmount))
    else
      var (l1, r1) := Transfer(l, p.tokenInMint, p.source, p.burnAccount, p.net);
      if r1.Err? then (l1, r1)
      else
        var (l2, r2) := Burn(l1, p.tokenInMint, p.burnAccount, p.net);
        if r2.Err? then (l2, r2)
        else TransferIfPositive(l2, p.tokenInMint, p.source, p.feeDestination, p.fee)
  }

  /** Step 1 otherwise: the net amount is split between refill and proceeds, the fee is moved. */
  function PayByTransfer(l: Ledger, p: Params): (r: (Ledger, Outcome))
    requires WellFormed(l, p)
    ensures SameShape(l, r.0)
  {
    if p.refill > p.net then (l, Err(InvalidAmount))
    else if p.refill > 0 && p.refillDestination.None? then (l, Err(InvalidVaultTokenInAccount))
    else
      var refillTo := if p.refillDestination.Some? then p.refillDestination.value else p.destination;
      var (l1, r1) := TransferIfPositive(l, p.tokenInMint, p.source, refillTo, p.refill);
      if r1.Err? then (l1, r1)
      else
        var (l2, r2) := TransferIfPositive(l1, p.tokenInMint, p.source, p.destination, p.net - p.refill);
        if r2.Err? then (l2, r2)
        else TransferIfPositive(l2, p.tokenInMint, p.source, p.feeDestination, p.fee)
  }

  function Pay(l: Ledger, p: Params): (r: (Ledger, Outcome))
    requires WellFormed(l, p)
    ensures SameShape(l, r.0)
  {
    if p.controlsTokenIn then PayByBurning(l, p) else PayByTransfer(l, p)
  }

  /** Step 2: token_out is minted or moved. */
  function Deliver(l: Ledger, p: Params, supplySeen: u64): (r: (Ledger, Outcome))
    requires WellFormed(l, p)
    ensures SameShape(l, r.0)
  {
    if p.controlsTokenOut then
      MintTokens(l, p.tokenOutMint, p.tokenOutDestination, supplySeen, p.tokenOut, p.maxSupply, p.maxMint)
    else Transfer(l, p.tokenOutMint, p.tokenOutSource, p.tokenOutDestination, p.tokenOut)
  }

  /** `execute_token_operations`, with the state reached even when it fails part of the way. */
  function Execute(l: Ledger, p: Params): (r: (Ledger, Outcome))
    requires WellFormed(l, p)
    ensures SameShape(l, r.0)
  {
    if p.tokenInHasTransferFee || p.tokenOutHasTransferFee then (l, Err(TransferFeeNotSupported))
    else
      var (paid, r) := Pay(l, p);
      if r.Err? then (paid, r)
      else
        Deliver(paid, p, l.supplies[p.tokenOutMint])
  }

  // ---------------------------------------------------------------- the ledger as an object

  class Bank {
    var accounts: seq<Account>
    var supplies: seq<u64>

    ghost function State(): Ledger
      reads this
    {
      Ledger(accounts, supplies)
    }

    constructor (l: Ledger)
      ensures State() == l
    {
      accounts, supplies := l.accounts, l.supplies;
    }

    method TransferTokens(mint: nat, src: nat, dst: nat, amount: u64) returns (r: Outcome)
      requires IsAccount(State(), src) && IsAccount(State(), dst)
      modifies this
      ensures (State(), r) == Transfer(old(State()), mint, src, dst, amount)
    {
      if accounts[src].amount < amount {
        return Err(InsufficientFunds);
      }
      if accounts[src].mint != mint || accounts[dst].mint != mint {
        return Err(MintMismatch);
      }
      if src == dst {
        return Ok(());
      }
      if accounts[dst].amount + amount > U64_MAX {
        return Err(TokenOverflow);
      }
      accounts := accounts[src := accounts[src].(amount := accounts[src].amount - amount)];
      accounts := accounts[dst := accounts[dst].(amount := accounts[dst].amount + amount)];
      return Ok(());
    }

    method BurnTokens(mint: nat, src: nat, amount: u64) returns (r: Outcome)
      requires IsAccount(State(), src) && IsMint(State(), mint)
      modifies this
      ensures (State(), r) == Burn(old(State()), mint, src, amount)
    {
      if accounts[src].mint != mint {
        return Err(MintMismatch);
      }
      if accounts[src].amount < amount {
        return Err(InsufficientFunds);
      }
      if supplies[mint] < amount {
        return Err(TokenOverflow);
      }
      accounts := accounts[src := accounts[src].(amount := accounts[src].amount - amount)];
      supplies := supplies[mint := supplies[mint] - amount];
      return Ok(());
    }

    method MintTokensTo(mint: nat, dst: nat, supplySeen: u64, amount: u64, maxSupply: u64, maxMint: u64)
      returns (r: Outcome)
      requires IsAccount(State(), dst) && IsMint(State(), mint)
      modifies this
      ensures (State(), r) == MintTokens(old(State()), mint, dst, supplySeen, amount, maxSupply, maxMint)
    {
      if maxMint > 0 && amount > maxMint {
        return Err(MaxMintAmountExceeded);
      }
      r := ValidateMaxSupply(supplySeen, amount, maxSupply);
      if r.Err? {
        return;
      }
      if accounts[dst].mint != mint {
        return Err(MintMismatch);
      }
      if accounts[dst].amount + amount > U64_MAX || supplies[mint] + amount > U64_MAX {
        return Err(TokenOverflow);
      }
      accounts := accounts[dst := accounts[dst].(amount := accounts[dst].amount + amount)];
      supplies := supplies[mint := supplies[mint] + amount];
      return Ok(());
    }

    method ExecuteTokenOperations(p: Params) returns (r: Outcome)
      requires WellFormed(State(), p)
      modifies this
      ensures (State(), r) == Execute(old(State()), p)
    {
      if p.tokenInHasTransferFee || p.tokenOutHasTransferFee {
        return Err(TransferFeeNotSupported);
      }
      var supplySeen := supplies[p.tokenOutMint];
      if p.controlsTokenIn {
        r := PayBurning(p);
      } else {
        r := PayTransferring(p);
      }
      if r.Err? {
        return;
      }
      if p.controlsTokenOut {
        r := MintTokensTo(p.tokenOutMint, p.tokenOutDestination, supplySeen, p.tokenOut, p.maxSupply, p.maxMint);
      } else {
        r := TransferTokens(p.tokenOutMint, p.tokenOutSource, p.tokenOutDestination, p.tokenOut);
      }
    }

    method PayBurning(p: Params) returns (r: Outcome)
      requires WellFormed(State(), p)
      modifies this
      ensures (State(), r) == PayByBurning(old(State()), p)
    {
      if p.refill != 0 {
        return Err(InvalidAmount);
      }
      r := TransferTokens(p.tokenInMint, p.source, p.burnAccount, p.net);
      if r.Err? {
        return;
      }
      r := BurnTokens(p.tokenInMint, p.burnAccount, p.net);
      if r.Err? {
        return;
      }
      if p.fee > 0 {
        r := TransferTokens(p.tokenInMint, p.source, p.feeDestination, p.fee);
      }
    }

    method PayTransferring(p: Params) returns (r: Outcome)
      requires WellFormed(State(), p)
      modifies this
      ensures (State(), r) == PayByTransfer(old(State()), p)
    {
      if p.refill > p.net {
        return Err(InvalidAmount);
      }
      r := Ok(());
      if p.refill > 0 {
        if p.refillDestination.None? {
          return Err(InvalidVaultTokenInAccount);
        }
        r := TransferTokens(p.tokenInMint, p.source, p.refillDestination.value, p.refill);
        if r.Err? {
          return;
        }
      }
      if p.net - p.refill > 0 {
        r := TransferTokens(p.tokenInMint, p.source, p.destination, p.net - p.refill);
        if r.Err? {
          return;
        }
      }
      if p.fee > 0 {
        r := TransferTokens(p.tokenInMint, p.source, p.feeDestination, p.fee);
      }
    }
  }

  // ---------------------------------------------------------------- conservation

  /** Sum of the balances of one mint. */
  function Total(accounts: seq<Account>, mint: nat): nat
  {
    if accounts == [] then 0
    else Total(accounts[..|accounts| - 1], mint) + Held(accounts[|accounts| - 1], mint)
  }

  function Held(a: Account, mint: nat): nat
  {
    if a.mint == mint then a.amount else 0
  }

  /** Every mint's supply is exactly what its accounts hold. */
  ghost predicate Conserved(l: Ledger)
  {
    forall m :: 0 <= m < |l.supplies| ==> Total(l.accounts, m) == l.supplies[m]
  }

  lemma {:induction false} TotalUpdate(accounts: seq<Account>, i: nat, a: Account, mint: nat)
    requires i < |accounts|
    ensures Total(accounts[i := a], mint) == Total(accounts, mint) - Held(accounts[i], mint) + Held(a, mint)
  {
    var last := |accounts| - 1;
    if i == last {
      assert accounts[i := a][..last] == accounts[..last];
    } else {
      TotalUpdate(accounts[..last], i, a, mint);
      assert accounts[i := a][..last] == accounts[..last][i := a];
    }
  }

  lemma TransferConserves(l: Ledger, mint: nat, src: nat, dst: nat, amount: u64)
    requires IsAccount(l, src) && IsAccount(l, dst) && Conserved(l)
    ensures Conserved(Transfer(l, mint, src, dst, amount).0)
  {
    var (l', r) := Transfer(l, mint, src, dst, amount);
    if r.Ok? && src != dst {
      var debited := Credit(l, src, -(amount as int));
      forall m | 0 <= m < |l.supplies|
        ensures Total(l'.accounts, m) == l'.supplies[m]
      {
        TotalUpdate(l.accounts, src, debited.accounts[src], m);
        TotalUpdate(debited.accounts, dst, l'.accounts[dst], m);
      }
    }
  }

  lemma BurnConserves(l: Ledger, mint: nat, src: nat, amount: u64)
    requires IsAccount(l, src) && IsMint(l, mint) && Conserved(l)
    ensures Conserved(Burn(l, mint, src, amount).0)
  {
    var (l', r) := Burn(l, mint, src, amount);
    if r.Ok? {
      forall m | 0 <= m < |l.supplies|
        ensures Total(l'.accounts, m) == l'.supplies[m]
      {
        TotalUpdate(l.accounts, src, l'.accounts[src], m);
      }
    }
  }

  lemma MintToConserves(l: Ledger, mint: nat, dst: nat, amount: u64)
    requires IsAccount(l, dst) && IsMint(l, mint) && Conserved(l)
    ensures Conserved(MintTo(l, mint, dst, amount).0)
  {
    var (l', r) := MintTo(l, mint, dst, amount);
    if r.Ok? {
      forall m | 0 <= m < |l.supplies|
        ensures Total(l'.accounts, m) == l'.supplies[m]
      {
        TotalUpdate(l.accounts, dst, l'.accounts[dst], m);
      }
    }
  }

  lemma TransferIfPositiveConserves(l: Ledger, mint: nat, src: nat, dst: nat, amount: u64)
    requires IsAccount(l, src) && IsAccount(l, dst) && Conserved(l)
    ensures Conserved(TransferIfPositive(l, mint, src, dst, amount).0)
  {
    TransferConserves(l, mint, src, dst, amount);
  }

  lemma PayConserves(l: Ledger, p: Params)
    requires WellFormed(l, p) && Conserved(l)
    ensures Conserved(Pay(l, p).0)
  {
    if p.controlsTokenIn {
      BurningConserves(l, p);
    } else {
      TransferringConserves(l, p);
    }
  }

  lemma BurningConserves(l: Ledger, p: Params)
    requires WellFormed(l, p) && Conserved(l)
    ensures Conserved(PayByBurning(l, p).0)
  {
    var l1 := Transfer(l, p.tokenInMint, p.source, p.burnAccount, p.net).0;
    assert Conserved(l1) by { TransferConserves(l, p.tokenInMint, p.source, p.burnAccount, p.net); }
    var l2 := Burn(l1, p.tokenInMint, p.burnAccount, p.net).0;
    assert Conserved(l2) by { BurnConserves(l1, p.tokenInMint, p.burnAccount, p.net); }
    TransferIfPositiveConserves(l2, p.tokenInMint, p.source, p.feeDestination, p.fee);
  }

  lemma TransferringConserves(l: Ledger, p: Params)
    requires WellFormed(l, p) && Conserved(l)
    ensures Conserved(PayByTransfer(l, p).0)
  {
    if p.refill <= p.net {
      var refillTo := if p.refillDestination.Some? then p.refillDestination.value else p.destination;
      ThreeTransfersConserve(l, p.tokenInMint, p.source, refillTo, p.refill, p.destination, p.net - p.refill,
                             p.feeDestination, p.fee);
    }
  }

  lemma ThreeTransfersConserve(l: Ledger, mint: nat, src: nat, d1: nat, a1: u64, d2: nat, a2: u64, d3: nat, a3: u64)
    requires IsAccount(l, src) && IsAccount(l, d1) && IsAccount(l, d2) && IsAccount(l, d3) && Conserved(l)
    ensures var l1 := TransferIfPositive(l, mint, src, d1, a1).0;
      var l2 := TransferIfPositive(l1, mint, src, d2, a2).0;
      Conserved(l1) && Conserved(l2) && Conserved(TransferIfPositive(l2, mint, src, d3, a3).0)
  {
    var l1 := TransferIfPositive(l, mint, src, d1, a1).0;
    var l2 := TransferIfPositive(l1, mint, src, d2, a2).0;
    TransferIfPositiveConserves(l, mint, src, d1, a1);
    TransferIfPositiveConserves(l1, mint, src, d2, a2);
    TransferIfPositiveConserves(l2, mint, src, d3, a3);
  }

  /**
   * For any aliasing among the accounts, and wherever the operation stops, every supply stays the sum of its
   * balances.
   */
  lemma ExecuteConserves(l: Ledger, p: Params)
    requires WellFormed(l, p) && Conserved(l)
    ensures Conserved(Execute(l, p).0)
  {
    PayConserves(l, p);
    var paid := Pay(l, p).0;
    if p.controlsTokenOut {
      MintToConserves(paid, p.tokenOutMint, p.tokenOutDestination, p.tokenOut);
    } else {
      TransferConserves(paid, p.tokenOutMint, p.tokenOutSource, p.tokenOutDestination, p.tokenOut);
    }
  }

  // ---------------------------------------------------------------- net effect

  /** Change of account `a` when `amount` moves from `src` to `dst`, which may be the same account. */
  function Moved(a: nat, src: nat, dst: nat, amount: int): int
  {
    (if a == dst then amount else 0) - (if a == src then amount else 0)
  }

  lemma TransferMoves(l: Ledger, mint: nat, src: nat, dst: nat, amount: u64)
    requires IsAccount(l, src) && IsAccount(l, dst) && TransferIfPositive(l, mint, src, dst, amount).1.Ok?
    ensures var l' := TransferIfPositive(l, mint, src, dst, amount).0;
      && l'.supplies == l.supplies
      && forall a :: 0 <= a < |l.accounts| ==>
        l'.accounts[a].amount == l.accounts[a].amount + Moved(a, src, dst, amount)
  {
  }

  lemma BurnMoves(l: Ledger, mint: nat, src: nat, amount: u64)
    requires IsAccount(l, src) && IsMint(l, mint) && Burn(l, mint, src, amount).1.Ok?
    ensures var l' := Burn(l, mint, src, amount).0;
      && l'.supplies == l.supplies[mint := l.supplies[mint] - amount]
      && forall a :: 0 <= a < |l.accounts| ==> l'.accounts[a].amount == l.accounts[a].amount - if a == src
        then amount else 0
  {
  }

  /** What an account gains or loses when token_in is paid. */
  function Paid(p: Params, a: nat): int
  {
    Moved(a, p.source, p.feeDestination, p.fee)
    + if p.controlsTokenIn then (if a == p.source then -(p.net as int) else 0)
      else Moved(a, p.source, p.destination, p.net - p.refill)
           + if p.refillDestination.Some? then Moved(a, p.source, p.refillDestination.value, p.refill) else 0
  }

  /** ... and when token_out is delivered. */
  function Delivered(p: Params, a: nat): int
  {
    if p.controlsTokenOut then (if a == p.tokenOutDestination then p.tokenOut else 0)
    else Moved(a, p.tokenOutSource, p.tokenOutDestination, p.tokenOut)
  }

  lemma PayMoves(l: Ledger, p: Params)
    requires WellFormed(l, p) && Pay(l, p).1.Ok?
    ensures forall a :: 0 <= a < |l.accounts| ==> Pay(l, p).0.accounts[a].amount == l.accounts[a].amount + Paid(p, a)
    ensures if p.controlsTokenIn
      then l.supplies[p.tokenInMint] >= p.net
        && Pay(l, p).0.supplies == l.supplies[p.tokenInMint := l.supplies[p.tokenInMint] - p.net]
      else Pay(l, p).0.supplies == l.supplies
  {
    if p.controlsTokenIn {
      PayBurningMoves(l, p);
    } else {
      PayTransferMoves(l, p);
    }
  }

  lemma PayBurningMoves(l: Ledger, p: Params)
    requires WellFormed(l, p) && p.controlsTokenIn && Pay(l, p).1.Ok?
    ensures forall a :: 0 <= a < |l.accounts| ==> Pay(l, p).0.accounts[a].amount == l.accounts[a].amount + Paid(p, a)
    ensures l.supplies[p.tokenInMint] >= p.net
    ensures Pay(l, p).0.supplies == l.supplies[p.tokenInMint := l.supplies[p.tokenInMint] - p.net]
  {
    var l1 := Transfer(l, p.tokenInMint, p.source, p.burnAccount, p.net).0;
    var l2 := Burn(l1, p.tokenInMint, p.burnAccount, p.net).0;
    BurnMoves(l1, p.tokenInMint, p.burnAccount, p.net);
    TransferMoves(l2, p.tokenInMint, p.source, p.feeDestination, p.fee);
    assert forall a :: 0 <= a < |l.accounts| ==>
      l1.accounts[a].amount == l.accounts[a].amount + Moved(a, p.source, p.burnAccount, p.net);
  }

  lemma PayTransferMoves(l: Ledger, p: Params)
    requires WellFormed(l, p) && !p.controlsTokenIn && Pay(l, p).1.Ok?
    ensures forall a :: 0 <= a < |l.accounts| ==> Pay(l, p).0.accounts[a].amount == l.accounts[a].amount + Paid(p, a)
    ensures Pay(l, p).0.supplies == l.supplies
  {
    var refillTo := if p.refillDestination.Some? then p.refillDestination.value else p.destination;
    var l1 := TransferIfPositive(l, p.tokenInMint, p.source, refillTo, p.refill).0;
    var l2 := TransferIfPositive(l1, p.tokenInMint, p.source, p.destination, p.net - p.refill).0;
    TransferMoves(l, p.tokenInMint, p.source, refillTo, p.refill);
    TransferMoves(l1, p.tokenInMint, p.source, p.destination, p.net - p.refill);
    TransferMoves(l2, p.tokenInMint, p.source, p.feeDestination, p.fee);
  }

  /** Effect of a successful exchange on every balance and every supply, for any aliasing among the accounts. */
  lemma ExecuteMoves(l: Ledger, p: Params)
    requires WellFormed(l, p) && Execute(l, p).1.Ok?
    ensures forall a :: 0 <= a < |l.accounts| ==>
      Execute(l, p).0.accounts[a].amount == l.accounts[a].amount + Paid(p, a) + Delivered(p, a)
    ensures forall m :: 0 <= m < |l.supplies| ==>
      Execute(l, p).0.supplies[m] == l.supplies[m]
        - (if p.controlsTokenIn && m == p.tokenInMint then p.net else 0)
        + (if p.controlsTokenOut && m == p.tokenOutMint then p.tokenOut else 0)
  {
    PayMoves(l, p);
    var paid := Pay(l, p).0;
    if !p.controlsTokenOut {
      assert forall a :: 0 <= a < |l.accounts| ==>
        Execute(l, p).0.accounts[a].amount == paid.accounts[a].amount + Delivered(p, a);
    }
  }

  /** With separate accounts: the payer pays net and fee, nobody else's token_in changes but by what is named here. */
  lemma PayerPaysNetAndFee(l: Ledger, p: Params)
    requires WellFormed(l, p) && Execute(l, p).1.Ok?
    requires p.source !in {p.destination, p.feeDestination, p.burnAccount, p.tokenOutSource, p.tokenOutDestination}
    requires p.feeDestination !in {p.destination, p.burnAccount, p.tokenOutSource, p.tokenOutDestination}
    requires p.burnAccount !in {p.destination, p.tokenOutSource, p.tokenOutDestination}
    requires p.destination !in {p.tokenOutSource, p.tokenOutDestination}
    requires p.refillDestination.Some? ==>
      p.refillDestination.value !in {p.source, p.destination, p.feeDestination, p.burnAccount, p.tokenOutSource,
                                     p.tokenOutDestination}
    ensures var l' := Execute(l, p).0;
      && l'.accounts[p.source].amount == l.accounts[p.source].amount - (p.net + p.fee)
      && l'.accounts[p.feeDestination].amount == l.accounts[p.feeDestination].amount + p.fee
      && l'.accounts[p.burnAccount].amount == l.accounts[p.burnAccount].amount
      && l'.accounts[p.destination].amount == l.accounts[p.destination].amount
        + (if p.controlsTokenIn then 0 else p.net - p.refill)
      && (p.refillDestination.Some? ==>
            l'.accounts[p.refillDestination.value].amount == l.accounts[p.refillDestination.value].amount + p.refill)
      && (forall m :: 0 <= m < |l.supplies| ==>
            l'.supplies[m] == l.supplies[m] - (if p.controlsTokenIn && m == p.tokenInMint then p.net else 0)
                                            + (if p.controlsTokenOut && m == p.tokenOutMint then p.tokenOut else 0))
  {
    ExecuteMoves(l, p);
  }

  // ---------------------------------------------------------------- exactly when it succeeds

  /** Two different accounts of one mint never hold more than its supply. */
  lemma {:induction false} HeldWithinTotal(accounts: seq<Account>, i: nat, j: nat, mint: nat)
    requires i < |accounts| && j < |accounts|
    ensures Held(accounts[i], mint) <= Total(accounts, mint)
    ensures i != j ==> Held(accounts[i], mint) + Held(accounts[j], mint) <= Total(accounts, mint)
  {
    var last := |accounts| - 1;
    if i < last {
      HeldWithinTotal(accounts[..last], i, if j < last then j else i, mint);
    }
    if j < last {
      HeldWithinTotal(accounts[..last], j, j, mint);
    }
  }

  /** In a conserved ledger only missing funds stop a transfer. */
  lemma TransferSucceeds(l: Ledger, mint: nat, src: nat, dst: nat, amount: u64)
    requires IsAccount(l, src) && IsAccount(l, dst) && IsMint(l, mint) && Conserved(l)
    requires l.accounts[src].mint == mint && l.accounts[dst].mint == mint
    ensures Transfer(l, mint, src, dst, amount).1.Ok? <==> amount <= l.accounts[src].amount
  {
    HeldWithinTotal(l.accounts, src, dst, mint);
  }

  /** Every account holds the mint the operation uses it for. */
  predicate MintsMatch(l: Ledger, p: Params)
    requires WellFormed(l, p)
  {
    && l.accounts[p.source].mint == p.tokenInMint && l.accounts[p.destination].mint == p.tokenInMint
    && l.accounts[p.feeDestination].mint == p.tokenInMint && l.accounts[p.burnAccount].mint == p.tokenInMint
    && (p.refillDestination.Some? ==> l.accounts[p.refillDestination.value].mint == p.tokenInMint)
    && l.accounts[p.tokenOutSource].mint == p.tokenOutMint && l.accounts[p.tokenOutDestination].mint == p.tokenOutMint
  }

  /** Burning path: any aliasing; the payer needs net plus fee. */
  lemma BurningSucceeds(l: Ledger, p: Params)
    requires WellFormed(l, p) && MintsMatch(l, p) && Conserved(l) && p.controlsTokenIn
    ensures Pay(l, p).1.Ok? <==> p.refill == 0 && p.net + p.fee <= l.accounts[p.source].amount
  {
    var l1 := Transfer(l, p.tokenInMint, p.source, p.burnAccount, p.net).0;
    TransferSucceeds(l, p.tokenInMint, p.source, p.burnAccount, p.net);
    if p.net <= l.accounts[p.source].amount {
      TransferConserves(l, p.tokenInMint, p.source, p.burnAccount, p.net);
      HeldWithinTotal(l1.accounts, p.burnAccount, p.burnAccount, p.tokenInMint);
      var l2 := Burn(l1, p.tokenInMint, p.burnAccount, p.net).0;
      BurnConserves(l1, p.tokenInMint, p.burnAccount, p.net);
      TransferSucceeds(l2, p.tokenInMint, p.source, p.feeDestination, p.fee);
      assert l2.accounts[p.source].amount == l.accounts[p.source].amount - p.net;
    }
  }

  /**
   * The source covers refill, proceeds and fee one after the other; what it moves to itself stays available for the
   * next step.
   */
  predicate CoversTransfers(l: Ledger, p: Params)
    requires WellFormed(l, p)
  {
    var atRefill := l.accounts[p.source].amount;
    var atProceeds := if p.refillDestination == Some(p.source) then atRefill else atRefill - p.refill;
    var atFee := if p.destination == p.source then atProceeds else atProceeds - (p.net - p.refill);
    p.refill <= atRefill && p.net - p.refill <= atProceeds && p.fee <= atFee
  }

  /**
   * Transferring path: it succeeds, for any aliasing, exactly when the refill is a part of the net amount and has a
   * destination, and the source covers each step. For a source that is no destination that is net plus fee.
   */
  lemma TransferringSucceeds(l: Ledger, p: Params)
    requires WellFormed(l, p) && MintsMatch(l, p) && Conserved(l) && !p.controlsTokenIn
    ensures Pay(l, p).1.Ok? <==>
      p.refill <= p.net && (p.refill > 0 ==> p.refillDestination.Some?) && CoversTransfers(l, p)
    ensures p.source != p.destination && p.refillDestination != Some(p.source) && p.refill <= p.net ==>
      (CoversTransfers(l, p) <==> p.net + p.fee <= l.accounts[p.source].amount)
  {
    if p.refill <= p.net {
      var refillTo := if p.refillDestination.Some? then p.refillDestination.value else p.destination;
      ThreeTransfers(l, p.tokenInMint, p.source, refillTo, p.refill, p.destination, p.net - p.refill,
                     p.feeDestination, p.fee);
    }
  }

  /** Three transfers in a row succeed exactly when the source covers each with what the ones before have left. */
  lemma ThreeTransfers(l: Ledger, mint: nat, src: nat, d1: nat, a1: u64, d2: nat, a2: u64, d3: nat, a3: u64)
    requires IsAccount(l, src) && IsAccount(l, d1) && IsAccount(l, d2) && IsAccount(l, d3) && IsMint(l, mint)
      && Conserved(l)
    requires l.accounts[src].mint == l.accounts[d1].mint == l.accounts[d2].mint == l.accounts[d3].mint == mint
    ensures var (l1, r1) := TransferIfPositive(l, mint, src, d1, a1);
      var (l2, r2) := TransferIfPositive(l1, mint, src, d2, a2);
      var a := l.accounts[src].amount;
      var b := if d1 == src then a else a - a1;
      var c := if d2 == src then b else b - a2;
      r1.Ok? && r2.Ok? && TransferIfPositive(l2, mint, src, d3, a3).1.Ok? <==> a1 <= a && a2 <= b && a3 <= c
  {
    var l1 := TransferIfPositive(l, mint, src, d1, a1).0;
    var l2 := TransferIfPositive(l1, mint, src, d2, a2).0;
    PositiveTransfer(l, mint, src, d1, a1);
    PositiveTransfer(l1, mint, src, d2, a2);
    PositiveTransfer(l2, mint, src, d3, a3);
  }

  /** Success, conservation and the payer's balance of one transfer step. */
  lemma PositiveTransfer(l: Ledger, mint: nat, src: nat, dst: nat, amount: u64)
    requires IsAccount(l, src) && IsAccount(l, dst) && IsMint(l, mint) && Conserved(l)
    requires l.accounts[src].mint == mint && l.accounts[dst].mint == mint
    ensures TransferIfPositive(l, mint, src, dst, amount).1.Ok? <==> amount <= l.accounts[src].amount
    ensures Conserved(TransferIfPositive(l, mint, src, dst, amount).0)
    ensures amount <= l.accounts[src].amount ==>
      TransferIfPositive(l, mint, src, dst, amount).0.accounts[src].amount
      == if src == dst then l.accounts[src].amount else l.accounts[src].amount - amount
  {
    TransferSucceeds(l, mint, src, dst, amount);
    TransferConserves(l, mint, src, dst, amount);
  }

  /** What paying token_in requires of the ledger before the exchange. */
  predicate CanPay(l: Ledger, p: Params)
    requires WellFormed(l, p)
  {
    if p.controlsTokenIn then p.refill == 0 && p.net + p.fee <= l.accounts[p.source].amount
    else p.refill <= p.net && (p.refill > 0 ==> p.refillDestination.Some?) && CoversTransfers(l, p)
  }

  /**
   * What delivering token_out requires of it: the caps, judged by the supply before the payment, or the funds of the
   * source account, which the payment has changed when both sides are of one mint.
   */
  predicate CanDeliver(l: Ledger, p: Params)
    requires WellFormed(l, p)
  {
    if p.controlsTokenOut then
      && (p.maxMint == 0 || p.tokenOut <= p.maxMint)
      && (p.maxSupply == 0 || l.supplies[p.tokenOutMint] + p.tokenOut <= p.maxSupply)
      && l.supplies[p.tokenOutMint] - Burned(p, p.tokenOutMint) + p.tokenOut <= U64_MAX
    else p.tokenOut <= l.accounts[p.tokenOutSource].amount + Paid(p, p.tokenOutSource)
  }

  function Burned(p: Params, mint: nat): nat
  {
    if p.controlsTokenIn && p.tokenInMint == mint then p.net else 0
  }

  /** An exchange succeeds exactly under the guards, the funds and the caps; nothing else fails, for any aliasing. */
  lemma ExecuteSucceeds(l: Ledger, p: Params)
    requires WellFormed(l, p) && MintsMatch(l, p) && Conserved(l)
    ensures Execute(l, p).1.Ok? <==>
      !p.tokenInHasTransferFee && !p.tokenOutHasTransferFee && CanPay(l, p) && CanDeliver(l, p)
  {
    PaySucceeds(l, p);
    if Pay(l, p).1.Ok? {
      DeliverSucceeds(l, p);
    }
  }

  lemma PaySucceeds(l: Ledger, p: Params)
    requires WellFormed(l, p) && MintsMatch(l, p) && Conserved(l)
    ensures Pay(l, p).1.Ok? <==> CanPay(l, p)
  {
    if p.controlsTokenIn {
      BurningSucceeds(l, p);
    } else {
      TransferringSucceeds(l, p);
    }
  }

  lemma DeliverSucceeds(l: Ledger, p: Params)
    requires WellFormed(l, p) && MintsMatch(l, p) && Conserved(l) && Pay(l, p).1.Ok?
    ensures Deliver(Pay(l, p).0, p, l.supplies[p.tokenOutMint]).1.Ok? <==> CanDeliver(l, p)
  {
    PayMoves(l, p);
    PayConserves(l, p);
    var paid := Pay(l, p).0;
    if p.controlsTokenOut {
      MintSucceeds(paid, p.tokenOutMint, p.tokenOutDestination, l.supplies[p.tokenOutMint], p.tokenOut, p.maxSupply,
                   p.maxMint);
    } else {
      TransferSucceeds(paid, p.tokenOutMint, p.tokenOutSource, p.tokenOutDestination, p.tokenOut);
    }
  }

  /** In a conserved ledger only the limits and the 64-bit supply stop a mint. */
  lemma MintSucceeds(l: Ledger, mint: nat, dst: nat, supplySeen: u64, amount: u64, maxSupply: u64, maxMint: u64)
    requires IsAccount(l, dst) && IsMint(l, mint) && Conserved(l) && l.accounts[dst].mint == mint
    ensures MintTokens(l, mint, dst, supplySeen, amount, maxSupply, maxMint).1.Ok? <==>
      && (maxMint == 0 || amount <= maxMint)
      && (maxSupply == 0 || supplySeen + amount <= maxSupply)
      && l.supplies[mint] + amount <= U64_MAX
  {
    HeldWithinTotal(l.accounts, dst, dst, mint);
  }

  /** Why a mint is refused: the per-mint limit first, then the cap, against the supply seen. */
  lemma MintRefused(l: Ledger, mint: nat, dst: nat, supplySeen: u64, amount: u64, maxSupply: u64, maxMint: u64)
    requires IsAccount(l, dst) && IsMint(l, mint) && Conserved(l) && l.accounts[dst].mint == mint
    ensures var (l', r) := MintTokens(l, mint, dst, supplySeen, amount, maxSupply, maxMint); r.Err? ==>
      && l' == l
      && r == Err(if maxMint > 0 && amount > maxMint then MaxMintAmountExceeded
                  else if maxSupply > 0 && supplySeen + amount > 0xFFFF_FFFF_FFFF_FFFF then MathOverflow
                  else if maxSupply > 0 && supplySeen + amount > maxSupply then MaxSupplyExceeded
                  else TokenOverflow)
  {
  }

  // ---------------------------------------------------------------- what every successful exchange has checked

  /** The accounts that the payment uses hold token_in. */
  predicate PaidFromRightMints(l: Ledger, p: Params)
    requires WellFormed(l, p)
  {
    && (p.controlsTokenIn ==> l.accounts[p.source].mint == l.accounts[p.burnAccount].mint == p.tokenInMint)
    && (!p.controlsTokenIn && p.refill < p.net ==>
          l.accounts[p.source].mint == l.accounts[p.destination].mint == p.tokenInMint)
    && (p.fee > 0 ==> l.accounts[p.feeDestination].mint == p.tokenInMint)
  }

  lemma PaymentChecked(l: Ledger, p: Params)
    requires WellFormed(l, p) && Pay(l, p).1.Ok?
    ensures PaidFromRightMints(l, p)
  {
  }

  /** The output is minted within its limits, or comes from an account that holds the token. */
  predicate DeliveredWithinLimits(l: Ledger, p: Params)
    requires WellFormed(l, p)
  {
    && l.accounts[p.tokenOutDestination].mint == p.tokenOutMint
    && if p.controlsTokenOut then
         && (p.maxMint == 0 || p.tokenOut <= p.maxMint)
         && (p.maxSupply == 0 || l.supplies[p.tokenOutMint] + p.tokenOut <= p.maxSupply)
       else l.accounts[p.tokenOutSource].mint == p.tokenOutMint
  }

  /** In any ledger, conserved or not: what a successful exchange has checked. */
  lemma ExecuteChecked(l: Ledger, p: Params)
    requires WellFormed(l, p) && Execute(l, p).1.Ok?
    ensures !p.tokenInHasTransferFee && !p.tokenOutHasTransferFee
    ensures PaidFromRightMints(l, p) && DeliveredWithinLimits(l, p)
  {
    PaymentChecked(l, p);
  }

  // ---------------------------------------------------------------- runs

  datatype Op =
    | Exchange(p: Params)
    | MintOp(mint: nat, dst: nat, amount: u64, maxSupply: u64, maxMint: u64)
    | BurnOp(mint: nat, src: nat, amount: u64)
    | Move(mint: nat, src: nat, dst: nat, amount: u64)

  predicate OpWellFormed(l: Ledger, op: Op)
  {
    match op
    case Exchange(p) => WellFormed(l, p)
    case MintOp(mint, dst, _, _, _) => IsMint(l, mint) && IsAccount(l, dst)
    case BurnOp(mint, src, _) => IsMint(l, mint) && IsAccount(l, src)
    case Move(mint, src, dst, _) => IsMint(l, mint) && IsAccount(l, src) && IsAccount(l, dst)
  }

  /** One transaction: a failed one leaves no trace. */
  function Step(l: Ledger, op: Op): (r: Ledger)
    requires OpWellFormed(l, op)
    ensures SameShape(l, r)
  {
    var (l', outcome) := match op
      case Exchange(p) => Execute(l, p)
      case MintOp(mint, dst, amount, maxSupply, maxMint) => MintTokens(l, mint, dst, l.supplies[mint], amount,
        maxSupply, maxMint)
      case BurnOp(mint, src, amount) => Burn(l, mint, src, amount)
      case Move(mint, src, dst, amount) => Transfer(l, mint, src, dst, amount);
    if outcome.Ok? then l' else l
  }

  predicate RunWellFormed(l: Ledger, ops: seq<Op>)
  {
    forall i :: 0 <= i < |ops| ==> OpWellFormed(l, ops[i])
  }

  function Run(l: Ledger, ops: seq<Op>): (r: Ledger)
    requires RunWellFormed(l, ops)
    ensures SameShape(l, r)
  {
    if ops == [] then l else Step(Run(l, ops[..|ops| - 1]), ops[|ops| - 1])
  }

  /** The supply cap and the per-mint limit an operation is subject to for a mint, when it can mint it. */
  predicate MintsUnder(op: Op, mint: nat, maxSupply: u64, maxMint: u64)
  {
    match op
    case Exchange(p) => p.controlsTokenOut && p.tokenOutMint == mint && p.maxSupply == maxSupply && p.maxMint == maxMint
    case MintOp(m, _, _, s, a) => m == mint && s == maxSupply && a == maxMint
    case _ => false
  }

  /** A transaction that raises a supply minted that token, ends within its cap, and raised it by at most its limit. */
  lemma StepWithinCap(l: Ledger, op: Op, mint: nat)
    requires OpWellFormed(l, op) && IsMint(l, mint) && Step(l, op).supplies[mint] > l.supplies[mint]
    ensures exists cap: u64, limit: u64 ::
      && MintsUnder(op, mint, cap, limit)
      && (cap > 0 ==> Step(l, op).supplies[mint] <= cap)
      && (limit > 0 ==> Step(l, op).supplies[mint] - l.supplies[mint] <= limit)
  {
    match op {
      case Exchange(p) =>
        ExecuteMoves(l, p);
        assert MintsUnder(op, mint, p.maxSupply, p.maxMint);
      case MintOp(_, _, _, s, a) =>
        assert MintsUnder(op, mint, s, a);
      case _ =>
    }
  }

  lemma StepConserves(l: Ledger, op: Op)
    requires OpWellFormed(l, op) && Conserved(l)
    ensures Conserved(Step(l, op))
  {
    match op {
      case Exchange(p) => ExecuteConserves(l, p);
      case MintOp(mint, dst, amount, _, _) => MintToConserves(l, mint, dst, amount);
      case BurnOp(mint, src, amount) => BurnConserves(l, mint, src, amount);
      case Move(mint, src, dst, amount) => TransferConserves(l, mint, src, dst, amount);
    }
  }

  /**
   * Over any run every supply stays the sum of its balances; and when all minting of a token is under caps, which may
   * change, its supply never exceeds the largest of them or where it started.
   */
  lemma {:induction false} RunKeepsInvariants(l: Ledger, ops: seq<Op>, mint: nat, cap: u64)
    requires RunWellFormed(l, ops) && Conserved(l) && IsMint(l, mint)
    requires forall i, s: u64, a: u64 :: 0 <= i < |ops| && MintsUnder(ops[i], mint, s, a) ==> 0 < s <= cap
    ensures Conserved(Run(l, ops))
    ensures Run(l, ops).supplies[mint] <= if l.supplies[mint] > cap then l.supplies[mint] else cap
  {
    if ops == [] {
    } else {
      var init, op := ops[..|ops| - 1], ops[|ops| - 1];
      RunKeepsInvariants(l, init, mint, cap);
      var before := Run(l, init);
      StepConserves(before, op);
      if Step(before, op).supplies[mint] > before.supplies[mint] {
        StepWithinCap(before, op, mint);
      }
    }
  }
}
