/** Gas and fees of one message: GasPool (core/gaspool.go) and StateTransition (core/state_transition.go). What the EVM
    does is a given outcome; amounts of gas are 64-bit. */
module StateTransitions {
  import IntrinsicGas
  import opened Transactions

  const MAX_UINT64: nat := IntrinsicGas.MAX_UINT64

  /** Subtraction as the machine does it. */
  function Sub64(a: nat, b: nat): (r: nat)
    requires a <= MAX_UINT64 && b <= MAX_UINT64
    ensures b <= a ==> r == a - b
  {
    if b <= a then a - b else a + MAX_UINT64 + 1 - b
  }

  /** Addition as the machine does it. */
  function Add64(a: nat, b: nat): (r: nat)
    requires a <= MAX_UINT64 && b <= MAX_UINT64
    ensures a + b <= MAX_UINT64 ==> r == a + b
    ensures r <= MAX_UINT64
  {
    if a + b <= MAX_UINT64 then a + b else a + b - MAX_UINT64 - 1
  }

  class GasPool {
    var gas: nat

    constructor ()
      ensures gas == 0
    {
      gas := 0;
    }

    /** Panics, leaving the pool alone, exactly when the sum would not fit. */
    method AddGas(amount: nat) returns (panics: bool)
      requires gas <= MAX_UINT64 && amount <= MAX_UINT64
      modifies this
      ensures panics <==> old(gas) + amount > MAX_UINT64
      ensures gas == if panics then old(gas) else old(gas) + amount
    {
      if gas > Sub64(MAX_UINT64, amount) {
        return true;
      }
      gas := gas + amount;
      panics := false;
    }

    method SubGas(amount: nat) returns (ok: bool)
      modifies this
      ensures ok <==> amount <= old(gas)
      ensures gas == if ok then old(gas) - amount else old(gas)
    {
      if gas < amount {
        return false;
      }
      gas := gas - amount;
      ok := true;
    }
  }

  // ---------- balances ----------

  datatype World = World(balances: map<Address, int>, frozen: map<Address, nat>, nonces: map<Address, nat>) {
    function Balance(a: Address): int { if a in balances then balances[a] else 0 }
    function Nonce(a: Address): nat { if a in nonces then nonces[a] else 0 }

    /** What is not frozen: the most that gas may be bought with. */
    function Available(a: Address): int { Balance(a) - if a in frozen then frozen[a] else 0 }

    function Credit(a: Address, amount: int): World {
      this.(balances := balances[a := Balance(a) + amount])
    }
  }

  /** All the money there is. */
  ghost function Supply(balances: map<Address, int>): int {
    if balances.Keys == {} then 0 else
      var a :| a in balances.Keys;
      balances[a] + Supply(balances - {a})
  }

  lemma {:induction false} SupplyWithout(balances: map<Address, int>, a: Address)
    requires a in balances
    ensures Supply(balances) == balances[a] + Supply(balances - {a})
    decreases |balances|
  {
    var b :| b in balances.Keys && Supply(balances) == balances[b] + Supply(balances - {b});
    if a != b {
      SupplyWithout(balances - {b}, a);
      SupplyWithout(balances - {a}, b);
      assert balances - {b} - {a} == balances - {a} - {b};
    }
  }

  lemma SupplyCredited(w: World, a: Address, amount: int)
    ensures Supply(w.Credit(a, amount).balances) == Supply(w.balances) + amount
  {
    hide Supply;
    var after := w.Credit(a, amount).balances;
    SupplyWithout(after, a);
    assert after - {a} == w.balances - {a};
    if a in w.balances {
      SupplyWithout(w.balances, a);
    } else {
      assert w.balances - {a} == w.balances;
    }
  }

  // ---------- one message ----------

  datatype Message = Message(from: Address, nonce: nat, checkNonce: bool, gas: nat, gasPrice: nat, data: seq<bv8>,
                             creates: bool)

  datatype Error = None_ | NonceTooHigh | NonceTooLow | InsufficientBalanceForGas | GasLimitReached | OutOfGas
                 | InsufficientBalance | InvalidSender

  /** What running the message in the EVM, or in a precompiled contract, comes to: the world it leaves, the gas left of
      what it was given, the refund counter, and its error if any. */
  datatype Outcome = Outcome(world: World, gasLeft: nat, refund: nat, failed: bool, insufficientBalance: bool)

  /** The EVM returns no more gas than it is given. */
  predicate Frugal(msg: Message, homestead: bool, o: Outcome) {
    var price := IntrinsicGas.ExactPrice(msg.data, msg.creates, homestead);
    price <= msg.gas ==> o.gasLeft <= msg.gas - price
  }

  /** The gas a message ends up paying for: what it spent, less a refund of at most half of that. */
  function GasUsed(msg: Message, o: Outcome): (used: nat)
    requires o.gasLeft <= msg.gas
    ensures used <= msg.gas - o.gasLeft && 2 * used >= msg.gas - o.gasLeft
    ensures 2 * o.refund <= msg.gas - o.gasLeft ==> used == msg.gas - o.gasLeft - o.refund
    ensures 2 * o.refund > msg.gas - o.gasLeft ==> 2 * used <= msg.gas - o.gasLeft + 1
  {
    var spent := msg.gas - o.gasLeft;
    spent - if spent / 2 > o.refund then o.refund else spent / 2
  }

  /** The world after the message: the unused gas goes back to the sender and the price of the used gas to the
      coinbase. */
  function Settled(msg: Message, o: Outcome, coinbase: Address): World
    requires o.gasLeft <= msg.gas
  {
    var used := GasUsed(msg, o);
    o.world.Credit(msg.from, (msg.gas - used) * msg.gasPrice).Credit(coinbase, used * msg.gasPrice)
  }

  /** The world the EVM starts from: all the gas is paid for in advance. */
  function Bought(w: World, msg: Message): World {
    w.Credit(msg.from, -(msg.gas * msg.gasPrice))
  }

  /** Why a message cannot have its gas bought, if it cannot. */
  function PurchaseError(w: World, pool: nat, msg: Message): Error {
    if w.Available(msg.from) < msg.gas * msg.gasPrice then InsufficientBalanceForGas
    else if pool < msg.gas then GasLimitReached
    else None_
  }

  function NonceError(w: World, msg: Message): Error {
    if msg.checkNonce && w.Nonce(msg.from) < msg.nonce then NonceTooHigh
    else if msg.checkNonce && w.Nonce(msg.from) > msg.nonce then NonceTooLow
    else None_
  }

  /** Why a message cannot be part of a block, if it cannot: its nonce, its account, the room left in the block, its
      gas, or the transfer it starts with. */
  function Verdict(w: World, pool: nat, msg: Message, homestead: bool, o: Outcome): Error {
    if NonceError(w, msg) != None_ then NonceError(w, msg)
    else if PurchaseError(w, pool, msg) != None_ then PurchaseError(w, pool, msg)
    else if IntrinsicGas.ExactPrice(msg.data, msg.creates, homestead) > msg.gas then OutOfGas
    else if o.insufficientBalance then InsufficientBalance
    else None_
  }

  /** Every fee leaving the sender reaches the coinbase: if the EVM neither mints nor burns, neither does the
      message. */
  lemma FeesConserved(w: World, msg: Message, o: Outcome, coinbase: Address)
    requires o.gasLeft <= msg.gas
    ensures Supply(Settled(msg, o, coinbase).balances) - Supply(o.world.balances) ==
            Supply(w.balances) - Supply(Bought(w, msg).balances)
    ensures Supply(o.world.balances) == Supply(Bought(w, msg).balances) ==>
              Supply(Settled(msg, o, coinbase).balances) == Supply(w.balances)
  {
    hide Supply, World.Credit, GasUsed;
    var used := GasUsed(msg, o);
    var refunded := o.world.Credit(msg.from, (msg.gas - used) * msg.gasPrice);
    SupplyCredited(w, msg.from, -(msg.gas * msg.gasPrice));
    SupplyCredited(o.world, msg.from, (msg.gas - used) * msg.gasPrice);
    SupplyCredited(refunded, coinbase, used * msg.gasPrice);
    Distribute(msg.gas, used, msg.gasPrice);
  }

  /** Who gets what: the coinbase the price of the used gas, the sender that of the rest, nobody else anything. */
  lemma WhoGetsWhat(msg: Message, o: Outcome, coinbase: Address, a: Address)
    requires o.gasLeft <= msg.gas
    ensures var used := GasUsed(msg, o); var after := Settled(msg, o, coinbase).Balance(a);
            && (a == coinbase && a != msg.from ==> after == o.world.Balance(a) + used * msg.gasPrice)
            && (a == msg.from && a != coinbase ==> after == o.world.Balance(a) + (msg.gas - used) * msg.gasPrice)
            && (a == msg.from && a == coinbase ==> after == o.world.Balance(a) + msg.gas * msg.gasPrice)
            && (a != msg.from && a != coinbase ==> after == o.world.Balance(a))
  {
    hide GasUsed;
    Distribute(msg.gas, GasUsed(msg, o), msg.gasPrice);
  }

  lemma Distribute(gas: nat, used: nat, price: nat)
    ensures (gas - used) * price + used * price == gas * price
  {
  }

  class StateDB {
    var world: World

    constructor (world: World)
      ensures this.world == world
    {
      this.world := world;
    }
  }

  class StateTransition {
    const gp: GasPool
    const state: StateDB
    const msg: Message
    const homestead: bool
    const coinbase: Address
    var gas: nat
    var initialGas: nat

    constructor (gp: GasPool, state: StateDB, msg: Message, homestead: bool, coinbase: Address)
      ensures this.gp == gp && this.state == state && this.msg == msg && this.homestead == homestead
      ensures this.coinbase == coinbase
      ensures gas == 0 && initialGas == 0
    {
      this.gp, this.state, this.msg, this.homestead, this.coinbase := gp, state, msg, homestead, coinbase;
      gas, initialGas := 0, 0;
    }

    method UseGas(amount: nat) returns (ok: bool)
      modifies this`gas
      ensures ok <==> amount <= old(gas)
      ensures gas == if ok then old(gas) - amount else old(gas)
    {
      if gas < amount {
        return false;
      }
      gas := gas - amount;
      ok := true;
    }

    /** Pays for all the gas out of unfrozen money and takes it from the block's pool. */
    method BuyGas() returns (err: Error)
      requires gas == 0 && msg.gas <= MAX_UINT64
      modifies this, gp, state
      ensures err == PurchaseError(old(state.world), old(gp.gas), msg)
      ensures err == None_ ==>
                && old(state.world).Available(msg.from) >= msg.gas * msg.gasPrice && old(gp.gas) >= msg.gas
                && gp.gas == old(gp.gas) - msg.gas && gas == initialGas == msg.gas
                && state.world == Bought(old(state.world), msg)
      ensures err != None_ ==> gp.gas == old(gp.gas) && state.world == old(state.world)
    {
      var mgval := msg.gas * msg.gasPrice;
      if state.world.Available(msg.from) < mgval {
        return InsufficientBalanceForGas;
      }
      var ok := gp.SubGas(msg.gas);
      if !ok {
        return GasLimitReached;
      }
      gas := Add64(gas, msg.gas);
      initialGas := msg.gas;
      state.world := state.world.Credit(msg.from, -mgval);
      err := None_;
    }

    method PreCheck() returns (err: Error)
      requires gas == 0 && msg.gas <= MAX_UINT64
      modifies this, gp, state
      ensures err == if NonceError(old(state.world), msg) != None_ then NonceError(old(state.world), msg)
                     else PurchaseError(old(state.world), old(gp.gas), msg)
      ensures err == None_ ==>
                && (msg.checkNonce ==> old(state.world).Nonce(msg.from) == msg.nonce)
                && old(state.world).Available(msg.from) >= msg.gas * msg.gasPrice && old(gp.gas) >= msg.gas
                && gp.gas == old(gp.gas) - msg.gas && gas == initialGas == msg.gas
                && state.world == Bought(old(state.world), msg)
      ensures err != None_ ==> gp.gas == old(gp.gas) && state.world == old(state.world)
    {
      if msg.checkNonce {
        var nonce := state.world.Nonce(msg.from);
        if nonce < msg.nonce {
          return NonceTooHigh;
        } else if nonce > msg.nonce {
          return NonceTooLow;
        }
      }
      err := BuyGas();
    }

    /** Applies the refund, capped to half of the used gas, and returns what is left to the sender and to the pool. */
    method RefundGas(counter: nat) returns (panics: bool)
      requires gas <= initialGas <= MAX_UINT64 && gp.gas <= MAX_UINT64
      modifies this`gas, gp, state
      ensures var spent := initialGas - old(gas); var refund := if spent / 2 > counter then counter else spent / 2;
              && gas == old(gas) + refund
              && state.world == old(state.world).Credit(msg.from, gas * msg.gasPrice)
      ensures panics <==> old(gp.gas) + gas > MAX_UINT64
      ensures gp.gas == if panics then old(gp.gas) else old(gp.gas) + gas
    {
      var refund := Sub64(initialGas, gas) / 2;
      if refund > counter {
        refund := counter;
      }
      gas := Add64(gas, refund);
      state.world := state.world.Credit(msg.from, gas * msg.gasPrice);
      panics := gp.AddGas(gas);
    }

    /** TransitionDb: on success the pool has given up exactly the gas used, and the world is settled; it never makes
        the pool panic. */
    method TransitionDb(o: Outcome) returns (used: nat, failed: bool, err: Error, panics: bool)
      requires gas == 0 && msg.gas <= MAX_UINT64 && gp.gas <= MAX_UINT64 && |msg.data| <= MAX_UINT64
      requires Frugal(msg, homestead, o)
      modifies this, gp, state
      ensures !panics && err == Verdict(old(state.world), old(gp.gas), msg, homestead, o)
      ensures (|| NonceError(old(state.world), msg) != None_
               || PurchaseError(old(state.world), old(gp.gas), msg) != None_) ==>
                gp.gas == old(gp.gas) && state.world == old(state.world)
      ensures err == OutOfGas || err == InsufficientBalance ==> gp.gas == old(gp.gas) - msg.gas
      ensures err == None_ ==>
                && o.gasLeft <= msg.gas && IntrinsicGas.ExactPrice(msg.data, msg.creates, homestead) <= msg.gas
                && used == GasUsed(msg, o) && used <= old(gp.gas) && gp.gas == old(gp.gas) - used
                && state.world == Settled(msg, o, coinbase) && failed == o.failed && !o.insufficientBalance
                && old(state.world).Available(msg.from) >= msg.gas * msg.gasPrice
      ensures err == None_ ==>
                && state.world.frozen == o.world.frozen && state.world.nonces == o.world.nonces
                && (forall a :: a != msg.from && a != coinbase ==> state.world.Balance(a) == o.world.Balance(a))
                && (if msg.from == coinbase
                    then state.world.Balance(coinbase) == o.world.Balance(coinbase) + msg.gas * msg.gasPrice
                    else
                      && state.world.Balance(coinbase) == o.world.Balance(coinbase) + used * msg.gasPrice
                      && state.world.Balance(msg.from) == o.world.Balance(msg.from) + (msg.gas - used) * msg.gasPrice)
    {
      used, failed, panics := 0, false, false;
      err := PreCheck();
      if err != None_ {
        return;
      }
      var ok, price := IntrinsicGas.Compute(msg.data, msg.creates, homestead);
      if !ok {
        return 0, false, OutOfGas, false;
      }
      ok := UseGas(price);
      if !ok {
        return 0, false, OutOfGas, false;
      }
      // the EVM runs
      state.world := o.world;
      gas := o.gasLeft;
      failed := o.failed;
      if o.insufficientBalance {
        return 0, false, InsufficientBalance, false;
      }
      panics := RefundGas(o.refund);
      used := Sub64(initialGas, gas);
      state.world := state.world.Credit(coinbase, used * msg.gasPrice);
      forall a { WhoGetsWhat(msg, o, coinbase, a); }
    }
  }
}
