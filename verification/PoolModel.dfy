/** What it means for the structures of the transaction pool (core/tx_pool.go) to agree with each other. */
module PoolModel {
  import opened Transactions
  import opened TxListSpec
  import opened TxLists

  type Accounts = map<Address, ListValue>

  function ItemsOf(m: Accounts, a: Address): Items {
    if a in m then m[a].items else map[]
  }

  /** The transaction is filed under its sender and nonce. */
  predicate Stored(m: Accounts, tx: Tx) {
    tx.nonce in ItemsOf(m, tx.from) && ItemsOf(m, tx.from)[tx.nonce] == tx
  }

  /** A list of one account: every entry belongs to the account and to its nonce, and the caps bound every entry. */
  ghost predicate ListOk(a: Address, l: ListValue, strict: bool) {
    && l.strict == strict
    && l.CapsBound()
    && forall n :: n in l.items ==> l.items[n].nonce == n && l.items[n].from == a && l.items[n].signed
  }

  ghost predicate ListsOk(m: Accounts, strict: bool) {
    forall a :: a in m ==> ListOk(a, m[a], strict)
  }

  /** No empty list is kept. */
  ghost predicate NoneEmpty(m: Accounts) {
    forall a :: a in m ==> m[a].items != map[]
  }

  /** No account has a nonce both pending and queued. */
  ghost predicate Disjoint(p: Accounts, q: Accounts) {
    forall a, n :: n in ItemsOf(p, a) ==> n !in ItemsOf(q, a)
  }

  /** The lookup holds exactly what the lists hold. */
  ghost predicate Tracks(p: Accounts, q: Accounts, all: set<Tx>) {
    forall tx :: tx in all <==> Stored(p, tx) || Stored(q, tx)
  }

  /** The whole-pool invariant: `all` is the union of pending and queue, which Disjoint makes a disjoint union. */
  ghost predicate Consistent(p: Accounts, q: Accounts, all: set<Tx>) {
    && ListsOk(p, true) && ListsOk(q, false)
    && NoneEmpty(p) && NoneEmpty(q)
    && Disjoint(p, q) && Tracks(p, q, all)
  }

  /** A transaction cannot be pending and queued at once, so removing by nonce cannot hit another transaction. */
  lemma StoredOnce(p: Accounts, q: Accounts, all: set<Tx>, tx: Tx)
    requires Consistent(p, q, all) && tx in all
    ensures Stored(p, tx) != Stored(q, tx)
    ensures Stored(p, tx) ==> tx.nonce !in ItemsOf(q, tx.from)
    ensures Stored(q, tx) ==> tx.nonce !in ItemsOf(p, tx.from)
  {
    assert tx.nonce in ItemsOf(p, tx.from) ==> tx.nonce !in ItemsOf(q, tx.from);
  }

  /** Nothing but account a differs. */
  ghost predicate SameBut(m: Accounts, m': Accounts, a: Address) {
    forall b :: b != a ==> (b in m <==> b in m') && (b in m ==> m[b] == m'[b])
  }

  /** Stores a list, or deletes the entry when the list is empty. */
  function Store(m: Accounts, a: Address, l: ListValue): (r: Accounts)
    ensures ItemsOf(r, a) == l.items && SameBut(m, r, a)
    ensures a in r <==> l.items != map[]
    ensures a in r ==> r[a] == l
  {
    if l.items == map[] then m - {a} else m[a := l]
  }

  /** A change confined to one account keeps the pool consistent when that account's part is consistent: its lists are
      sound, disjoint and not empty, and `all` holds exactly their contents. */
  lemma AccountUpdate(p: Accounts, q: Accounts, all: set<Tx>, p': Accounts, q': Accounts, all': set<Tx>, a: Address)
    requires Consistent(p, q, all) && SameBut(p, p', a) && SameBut(q, q', a)
    requires a in p' ==> ListOk(a, p'[a], true) && p'[a].items != map[]
    requires a in q' ==> ListOk(a, q'[a], false) && q'[a].items != map[]
    requires forall n :: n in ItemsOf(p', a) ==> n !in ItemsOf(q', a)
    requires forall tx :: tx in all' <==> if tx.from == a then Stored(p', tx) || Stored(q', tx) else tx in all
    ensures Consistent(p', q', all')
  {
    forall b, n | n in ItemsOf(p', b) ensures n !in ItemsOf(q', b) {
      if b != a {
        assert ItemsOf(p', b) == ItemsOf(p, b) && ItemsOf(q', b) == ItemsOf(q, b);
      }
    }
    forall tx ensures tx in all' <==> Stored(p', tx) || Stored(q', tx) {
      if tx.from != a {
        assert ItemsOf(p', tx.from) == ItemsOf(p, tx.from) && ItemsOf(q', tx.from) == ItemsOf(q, tx.from);
      }
    }
  }

  // ---------- list operations keep lists sound ----------

  lemma AddedOk(a: Address, l: ListValue, strict: bool, tx: Tx)
    requires ListOk(a, l, strict) && tx.from == a && tx.signed
    ensures ListOk(a, l.Added(tx), strict) && l.Added(tx).items != map[]
  {
    assert tx.nonce in l.Added(tx).items;
  }

  lemma FewerOk(a: Address, l: ListValue, strict: bool, items: Items)
    requires ListOk(a, l, strict) && forall n :: n in items ==> n in l.items && l.items[n] == items[n]
    ensures ListOk(a, l.(items := items), strict)
  {
  }

  lemma FilteredOk(a: Address, l: ListValue, strict: bool, costLimit: int, gasLimit: nat)
    requires ListOk(a, l, strict)
    ensures ListOk(a, l.Filtered(costLimit, gasLimit), strict)
  {
    FilteredCaps(l, costLimit, gasLimit);
    FilterMeaning(l, costLimit, gasLimit);
  }

  // ---------- transactions leaving and changing lists ----------

  function Txs(items: Items): set<Tx> {
    set n | n in items :: items[n]
  }

  lemma TxsMeaning(items: Items)
    requires Keyed(items)
    ensures forall tx :: tx in Txs(items) <==> tx.nonce in items && items[tx.nonce] == tx
  {
    forall tx ensures tx in Txs(items) <==> tx.nonce in items && items[tx.nonce] == tx {
      if tx.nonce in items && items[tx.nonce] == tx {
        assert items[tx.nonce] in Txs(items);
      }
    }
  }

  ghost predicate SubMap(a: Items, b: Items) {
    forall n :: n in a ==> n in b && a[n] == b[n]
  }

  /** The lists after a pending transaction is removed: lower nonces stay, higher ones are queued. */
  ghost predicate Cut(p: Accounts, q: Accounts, p': Accounts, q': Accounts, tx: Tx) {
    && tx.from in p
    && p' == Store(p, tx.from, p[tx.from].(items := Below(p[tx.from].items, tx.nonce)))
    && SameBut(q, q', tx.from)
    && ItemsOf(q', tx.from) == ItemsOf(q, tx.from) + From(p[tx.from].items, tx.nonce + 1)
  }

  /** Removing a pending transaction: lower nonces stay, higher ones go to the queue, nothing else is lost. */
  lemma RemovedPending(p: Accounts, q: Accounts, all: set<Tx>, tx: Tx, q': Accounts)
    requires Consistent(p, q, all) && Stored(p, tx) && SameBut(q, q', tx.from)
    requires tx.from in q' ==> ListOk(tx.from, q'[tx.from], false) && q'[tx.from].items != map[]
    requires ItemsOf(q', tx.from) == ItemsOf(q, tx.from) + From(ItemsOf(p, tx.from), tx.nonce + 1)
    ensures Consistent(Store(p, tx.from, p[tx.from].(items := Below(p[tx.from].items, tx.nonce))), q', all - {tx})
  {
    var a := tx.from;
    var p' := Store(p, a, p[a].(items := Below(p[a].items, tx.nonce)));
    FewerOk(a, p[a], true, Below(p[a].items, tx.nonce));
    forall t ensures t in all - {tx} <==> if t.from == a then Stored(p', t) || Stored(q', t) else t in all {
      if t.from == a {
        assert t.nonce in ItemsOf(p, a) ==> t.nonce !in ItemsOf(q, a);
        assert Stored(p, t) || Stored(q, t) <==> t in all;
      }
    }
    AccountUpdate(p, q, all, p', q', all - {tx}, a);
  }

  lemma RemovedQueued(p: Accounts, q: Accounts, all: set<Tx>, tx: Tx)
    requires Consistent(p, q, all) && Stored(q, tx)
    ensures Consistent(p, Store(q, tx.from, q[tx.from].(items := q[tx.from].items - {tx.nonce})), all - {tx})
  {
    var a := tx.from;
    var q' := Store(q, a, q[a].(items := q[a].items - {tx.nonce}));
    FewerOk(a, q[a], false, q[a].items - {tx.nonce});
    forall t ensures t in all - {tx} <==> if t.from == a then Stored(p, t) || Stored(q', t) else t in all {
      if t.from == a {
        assert t.nonce in ItemsOf(p, a) ==> t.nonce !in ItemsOf(q, a);
        assert Stored(p, t) || Stored(q, t) <==> t in all;
      }
    }
    AccountUpdate(p, q, all, p, q', all - {tx}, a);
  }

  /** One account's queue shrinks from q0 over q1 to q2 by dropping, gives away what q3 lacks of q2 to pending, and
      drops again down to `rest`. */
  lemma Promoted(p: Accounts, q: Accounts, all: set<Tx>, a: Address, p': Accounts, q1: Items, q2: Items, q3: Items,
                 rest: ListValue)
    requires Consistent(p, q, all) && a in q && SameBut(p, p', a)
    requires SubMap(q1, q[a].items) && SubMap(q2, q1) && SubMap(q3, q2) && SubMap(rest.items, q3)
    requires a in p' ==> ListOk(a, p'[a], true) && p'[a].items != map[]
    requires ItemsOf(p', a) == ItemsOf(p, a) + (q2 - q3.Keys)
    requires ListOk(a, rest, false)
    ensures Consistent(p', Store(q, a, rest),
                       all - Txs(q[a].items - q1.Keys) - Txs(q1 - q2.Keys) - Txs(q3 - rest.items.Keys))
  {
    var all' := all - Txs(q[a].items - q1.Keys) - Txs(q1 - q2.Keys) - Txs(q3 - rest.items.Keys);
    PromotedMembers(p, q, all, a, p', q1, q2, q3, rest);
    hide *;
    AccountUpdate(p, q, all, p', Store(q, a, rest), all', a);
  }

  lemma PromotedMembers(p: Accounts, q: Accounts, all: set<Tx>, a: Address, p': Accounts, q1: Items, q2: Items,
                        q3: Items, rest: ListValue)
    requires Disjoint(p, q) && Tracks(p, q, all) && a in q && Keyed(q[a].items)
    requires SubMap(q1, q[a].items) && SubMap(q2, q1) && SubMap(q3, q2) && SubMap(rest.items, q3)
    requires ItemsOf(p', a) == ItemsOf(p, a) + (q2 - q3.Keys)
    requires forall n :: n in q[a].items ==> q[a].items[n].from == a
    ensures var q' := Store(q, a, rest);
            var all' := all - Txs(q[a].items - q1.Keys) - Txs(q1 - q2.Keys) - Txs(q3 - rest.items.Keys);
            && (forall n :: n in ItemsOf(p', a) ==> n !in ItemsOf(q', a))
            && (forall t :: t in all' <==> if t.from == a then Stored(p', t) || Stored(q', t) else t in all)
  {
    var q0 := q[a].items;
    var q' := Store(q, a, rest);
    TxsMeaning(q0 - q1.Keys);
    TxsMeaning(q1 - q2.Keys);
    TxsMeaning(q3 - rest.items.Keys);
    forall n | n in ItemsOf(p', a) ensures n !in ItemsOf(q', a) {
      assert n in ItemsOf(p, a) ==> n !in ItemsOf(q, a);
    }
    forall t ensures var all' := all - Txs(q0 - q1.Keys) - Txs(q1 - q2.Keys) - Txs(q3 - rest.items.Keys);
                     t in all' <==> if t.from == a then Stored(p', t) || Stored(q', t) else t in all
    {
      assert t.nonce in ItemsOf(p, t.from) ==> t.nonce !in ItemsOf(q, t.from);
      assert Stored(p, t) || Stored(q, t) <==> t in all;
    }
  }

  // ---------- gap-freedom ----------

  /** The account's pending nonces are exactly the range from the chain nonce up to the virtual one. */
  ghost predicate Gapless(items: Items, base: nat, virtual: nat) {
    base <= virtual && forall n :: n in items <==> base <= n < virtual
  }

  // ---------- totals ----------

  /** How many transactions the lists hold together. */
  ghost function Total(m: Accounts): nat {
    if m.Keys == {} then 0 else
      var a :| a in m.Keys;
      |m[a].items| + Total(m - {a})
  }

  lemma {:induction false} TotalWithout(m: Accounts, a: Address)
    requires a in m
    ensures Total(m) == |m[a].items| + Total(m - {a})
    decreases |m|
  {
    var b :| b in m.Keys && Total(m) == |m[b].items| + Total(m - {b});
    if a != b {
      TotalWithout(m - {b}, a);
      TotalWithout(m - {a}, b);
      assert m - {b} - {a} == m - {a} - {b};
    }
  }

  lemma TotalNothing()
    ensures Total(map[]) == 0
  {
  }

  /** Changing one account changes the total by that account's change. */
  lemma TotalStored(m: Accounts, a: Address, l: ListValue)
    ensures Total(Store(m, a, l)) == Total(m) - |ItemsOf(m, a)| + |l.items|
  {
    hide Total;
    var rest := m - {a};
    assert l.items == map[] ==> |l.items| == 0;
    if a in m {
      TotalWith(rest, a, m[a]);
      assert rest[a := m[a]] == m;
    } else {
      assert rest == m;
    }
    if l.items != map[] {
      TotalWith(rest, a, l);
      assert rest[a := l] == m[a := l];
    }
  }

  lemma TotalWith(m: Accounts, a: Address, l: ListValue)
    requires a !in m
    ensures Total(m[a := l]) == Total(m) + |l.items|
  {
    hide Total;
    TotalWithout(m[a := l], a);
    assert m[a := l] - {a} == m;
  }

  /** Adds up the lengths as the source does, over the accounts in any order. */
  method CountAll(m: Accounts) returns (n: nat)
    ensures n == Total(m)
  {
    hide Total;
    n := 0;
    var rest := m.Keys;
    assert m - (m.Keys - rest) == m;
    while rest != {}
      invariant rest <= m.Keys && n + Total(m - (m.Keys - rest)) == Total(m)
      decreases rest
    {
      var a :| a in rest;
      ghost var left := m - (m.Keys - rest);
      TotalWithout(left, a);
      assert left - {a} == m - (m.Keys - (rest - {a}));
      n := n + |m[a].items|;
      rest := rest - {a};
    }
    assert m - (m.Keys - rest) == map[];
    TotalNothing();
  }
}
