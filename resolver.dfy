/**
 * The duplicate resolver: the `forEach` loop shared by `removeRecentDuplicates`
 * and `cleanupDuplicateOrders`. Orders are walked in ascending date order; `recent`
 * holds one representative per duplicate cluster and `toDelete` collects the
 * losers. `Step` and `Run` state what one iteration and the whole walk compute;
 * `ResolveDuplicates` is the loop itself, proved to compute `Run`.
 *
 * `Step`, `Run` and the lemmas take the signature function as a parameter `sig`;
 * both call sites use `Canonical.GetSignature`, and every property proved here
 * holds whatever signature function is used.
 */
module Resolver {
  import opened Wrappers
  import opened Orders
  import opened Canonical

  /** A cluster representative: the `{ signature, time, order }` objects kept in `recent`. */
  datatype Entry = Entry(signature: Signature, time: int, order: Order)

  /** The state of a walk: the representatives so far and the ids marked for deletion. */
  datatype Pass = Pass(recent: seq<Entry>, toDelete: seq<OrderId>)

  /** The entry an order starts, or takes over, a cluster with. */
  function NewEntry(o: Order, sig: Order -> Signature): Entry
  {
    Entry(sig(o), o.date, o)
  }

  /** The `findIndex` callback: same signature and at most `window` ms after the entry. */
  predicate Matches(e: Entry, s: Signature, t: int, window: int)
  {
    t - e.time <= window && e.signature == s
  }

  function FindFrom(recent: seq<Entry>, s: Signature, t: int, window: int, i: nat): (k: int)
    requires i <= |recent|
    ensures k == -1 || i <= k < |recent|
    ensures k == -1 ==> forall j :: i <= j < |recent| ==> !Matches(recent[j], s, t, window)
    ensures k != -1 ==> Matches(recent[k], s, t, window)
    ensures k != -1 ==> forall j :: i <= j < k ==> !Matches(recent[j], s, t, window)
    decreases |recent| - i
  {
    if i == |recent| then -1
    else if Matches(recent[i], s, t, window) then i
    else FindFrom(recent, s, t, window, i + 1)
  }

  /** `recent.findIndex(...)`: the first matching entry, or -1 when none matches. */
  function FindMatch(recent: seq<Entry>, s: Signature, t: int, window: int): (k: int)
    ensures -1 <= k < |recent|
    ensures k == -1 <==> forall j :: 0 <= j < |recent| ==> !Matches(recent[j], s, t, window)
    ensures k != -1 ==> Matches(recent[k], s, t, window)
    ensures k != -1 ==> forall j :: 0 <= j < k ==> !Matches(recent[j], s, t, window)
  {
    FindFrom(recent, s, t, window, 0)
  }

  /** One iteration of the `forEach` body on order `o`. */
  function Step(p: Pass, o: Order, window: int, sig: Order -> Signature): Pass
  {
    var k := FindMatch(p.recent, sig(o), o.date, window);
    if k == -1 then
      Pass(p.recent + [NewEntry(o, sig)], p.toDelete)
    else
      var existing := p.recent[k].order;
      if existing.payment && !o.payment then
        Pass(p.recent, p.toDelete + [o.id])
      else if o.payment && !existing.payment then
        Pass(p.recent[k := NewEntry(o, sig)], p.toDelete + [existing.id])
      else
        Pass(p.recent, p.toDelete + [o.id])
  }

  /** The whole walk over `orders`, starting from empty `recent` and `toDelete`. */
  function Run(orders: seq<Order>, window: int, sig: Order -> Signature): Pass
  {
    if orders == [] then Pass([], [])
    else Step(Run(orders[..|orders| - 1], window, sig), orders[|orders| - 1], window, sig)
  }

  lemma RunLast(orders: seq<Order>, window: int, sig: Order -> Signature)
    requires orders != []
    ensures orders == orders[..|orders| - 1] + [orders[|orders| - 1]]
    ensures Run(orders, window, sig)
         == Step(Run(orders[..|orders| - 1], window, sig), orders[|orders| - 1], window, sig)
  {
  }

  /** The loop of `removeRecentDuplicates` / `cleanupDuplicateOrders`. */
  method ResolveDuplicates(orders: seq<Order>, window: int, signatureOf: Order -> Signature)
    returns (recent: seq<Entry>, toDelete: seq<OrderId>)
    ensures Pass(recent, toDelete) == Run(orders, window, signatureOf)
    ensures |recent| + |toDelete| == |orders|
  {
    recent, toDelete := [], [];
    for n := 0 to |orders|
      invariant Pass(recent, toDelete) == Run(orders[..n], window, signatureOf)
    {
      assert orders[..n + 1][..n] == orders[..n];
      var order := orders[n];
      var signature := signatureOf(order);
      var orderTime := order.date;
      var matchIndex := FindMatch(recent, signature, orderTime, window);

      if matchIndex == -1 {
        recent := recent + [Entry(signature, orderTime, order)];
        continue;
      }

      var existing := recent[matchIndex].order;
      if existing.payment && !order.payment {
        toDelete := toDelete + [order.id];
        continue;
      }

      if order.payment && !existing.payment {
        toDelete := toDelete + [existing.id];
        recent := recent[matchIndex := Entry(signature, orderTime, order)];
        continue;
      }

      toDelete := toDelete + [order.id];
    }
    assert orders[..|orders|] == orders;
    RunCount(orders, window, signatureOf);
  }

  // ------------------------------------------------------------- bookkeeping

  /** Each order adds one representative or one deletion, never both. */
  lemma {:induction false} RunCount(orders: seq<Order>, window: int, sig: Order -> Signature)
    ensures |Run(orders, window, sig).recent| + |Run(orders, window, sig).toDelete| == |orders|
  {
    if orders != [] {
      RunCount(orders[..|orders| - 1], window, sig);
    }
  }

  function EntryIds(recent: seq<Entry>): (r: seq<OrderId>)
    ensures |r| == |recent| && forall i :: 0 <= i < |recent| ==> r[i] == recent[i].order.id
  {
    seq(|recent|, i requires 0 <= i < |recent| => recent[i].order.id)
  }

  /** The ids held by a pass: its representatives' and its deletions', with multiplicity. */
  function HeldIds(p: Pass): multiset<OrderId>
  {
    multiset(EntryIds(p.recent)) + multiset(p.toDelete)
  }

  /** Overwriting one element swaps one copy of the old element for the new one. */
  lemma UpdateMultiset<T>(s: seq<T>, k: int, x: T)
    requires 0 <= k < |s|
    ensures multiset(s[k := x]) == multiset(s) - multiset{s[k]} + multiset{x}
  {
    assert s == s[..k] + [s[k]] + s[k + 1..];
    assert s[k := x] == s[..k] + [x] + s[k + 1..];
  }

  lemma EntryIdsAppend(recent: seq<Entry>, e: Entry)
    ensures multiset(EntryIds(recent + [e])) == multiset(EntryIds(recent)) + multiset{e.order.id}
  {
    assert EntryIds(recent + [e]) == EntryIds(recent) + [e.order.id];
  }

  lemma EntryIdsUpdate(recent: seq<Entry>, k: int, e: Entry)
    requires 0 <= k < |recent|
    ensures multiset(EntryIds(recent[k := e]))
         == multiset(EntryIds(recent)) - multiset{recent[k].order.id} + multiset{e.order.id}
  {
    var ids := EntryIds(recent);
    assert EntryIds(recent[k := e]) == ids[k := e.order.id];
    UpdateMultiset(ids, k, e.order.id);
  }

  /** Replacing representative `k` by `e` and deleting the old one swaps one id for `e`'s. */
  lemma SwapConservesIds(recent: seq<Entry>, toDelete: seq<OrderId>, k: int, e: Entry)
    requires 0 <= k < |recent|
    ensures HeldIds(Pass(recent[k := e], toDelete + [recent[k].order.id]))
         == HeldIds(Pass(recent, toDelete)) + multiset{e.order.id}
  {
    var ids := EntryIds(recent);
    EntryIdsUpdate(recent, k, e);
    assert ids[k] == recent[k].order.id;
    assert multiset(ids) - multiset{ids[k]} + multiset{ids[k]} == multiset(ids);
  }

  lemma StepConservesIds(p: Pass, o: Order, window: int, sig: Order -> Signature)
    ensures HeldIds(Step(p, o, window, sig)) == HeldIds(p) + multiset{o.id}
  {
    var k := FindMatch(p.recent, sig(o), o.date, window);
    if k == -1 {
      EntryIdsAppend(p.recent, NewEntry(o, sig));
    } else if o.payment && !p.recent[k].order.payment {
      SwapConservesIds(p.recent, p.toDelete, k, NewEntry(o, sig));
    }
  }

  /**
   * No id is lost or invented: the ids of the representatives together with
   * the deleted ids are exactly the ids walked, counted with multiplicity.
   */
  lemma {:induction false} RunConservesIds(orders: seq<Order>, window: int, sig: Order -> Signature)
    ensures HeldIds(Run(orders, window, sig)) == multiset(Ids(orders))
  {
    if orders != [] {
      var init, o := orders[..|orders| - 1], orders[|orders| - 1];
      RunLast(orders, window, sig);
      RunConservesIds(init, window, sig);
      assert Ids(orders) == Ids(init) + [o.id];
      StepConservesIds(Run(init, window, sig), o, window, sig);
    }
  }

  /** Every representative is the entry its own order would start, and that order was walked. */
  predicate WellFormed(p: Pass, orders: seq<Order>, sig: Order -> Signature)
  {
    forall e :: e in p.recent ==> e == NewEntry(e.order, sig) && e.order in orders
  }

  lemma StepWellFormed(p: Pass, init: seq<Order>, o: Order, window: int, sig: Order -> Signature)
    requires WellFormed(p, init, sig)
    ensures WellFormed(Step(p, o, window, sig), init + [o], sig)
  {
    var k := FindMatch(p.recent, sig(o), o.date, window);
    var q := Step(p, o, window, sig);
    forall e | e in q.recent ensures e == NewEntry(e.order, sig) && e.order in init + [o] {
      var i :| 0 <= i < |q.recent| && q.recent[i] == e;
      if i < |p.recent| && q.recent[i] == p.recent[i] {
        assert p.recent[i] in p.recent;
      }
    }
  }

  lemma {:induction false} RunWellFormed(orders: seq<Order>, window: int, sig: Order -> Signature)
    ensures WellFormed(Run(orders, window, sig), orders, sig)
  {
    if orders != [] {
      var init, o := orders[..|orders| - 1], orders[|orders| - 1];
      RunLast(orders, window, sig);
      RunWellFormed(init, window, sig);
      StepWellFormed(Run(init, window, sig), init, o, window, sig);
    }
  }

  /** On a date-ordered walk no representative is later than the next order. */
  lemma EntriesNotLater(p: Pass, init: seq<Order>, o: Order, sig: Order -> Signature)
    requires WellFormed(p, init, sig) && SortedByDate(init + [o])
    ensures forall e :: e in p.recent ==> e.time <= o.date
  {
    forall e | e in p.recent ensures e.time <= o.date {
      var j :| 0 <= j < |init| && init[j] == e.order;
      assert (init + [o])[j] == e.order && (init + [o])[|init|] == o;
    }
  }

  // --------------------------------------------------------------- partition

  lemma {:induction false} DistinctCountAtMostOne<T>(s: seq<T>, x: T)
    requires forall i, j :: 0 <= i < j < |s| ==> s[i] != s[j]
    ensures multiset(s)[x] <= 1
  {
    if s != [] {
      assert s == [s[0]] + s[1..];
      DistinctCountAtMostOne(s[1..], x);
      if x == s[0] {
        assert x !in s[1..];
      }
    }
  }

  lemma TwoOccurrences<T>(s: seq<T>, i: int, j: int)
    requires 0 <= i < j < |s| && s[i] == s[j]
    ensures multiset(s)[s[i]] >= 2
  {
    assert s == s[..j] + s[j..];
    assert s[i] in multiset(s[..j]) && s[j] in multiset(s[j..]);
  }

  lemma CountAtMostOneDistinct<T>(s: seq<T>)
    requires forall x :: multiset(s)[x] <= 1
    ensures forall i, j :: 0 <= i < j < |s| ==> s[i] != s[j]
  {
    forall i, j | 0 <= i < j < |s| ensures s[i] != s[j] {
      if s[i] == s[j] {
        TwoOccurrences(s, i, j);
      }
    }
  }

  /**
   * With distinct `_id`s, every walked order ends either as the order of a final
   * representative (a survivor) or with its id in `toDelete`, never both; no id is
   * pushed twice; and every representative is one of the walked orders.
   */
  lemma RunPartition(orders: seq<Order>, window: int, sig: Order -> Signature)
    requires DistinctIds(orders)
    ensures forall e :: e in Run(orders, window, sig).recent ==> e.order in orders
    ensures forall o :: o in orders ==>
      (o.id in Run(orders, window, sig).toDelete <==> !exists e :: e in Run(orders, window, sig).recent && e.order == o)
    ensures forall i, j :: 0 <= i < j < |Run(orders, window, sig).toDelete| ==>
      Run(orders, window, sig).toDelete[i] != Run(orders, window, sig).toDelete[j]
  {
    var p := Run(orders, window, sig);
    RunConservesIds(orders, window, sig);
    RunWellFormed(orders, window, sig);
    var mr, md, mi := multiset(EntryIds(p.recent)), multiset(p.toDelete), multiset(Ids(orders));
    forall x ensures mi[x] <= 1 {
      DistinctCountAtMostOne(Ids(orders), x);
    }
    assert forall x :: md[x] <= mi[x];
    CountAtMostOneDistinct(p.toDelete);
    forall o | o in orders
      ensures o.id in p.toDelete <==> !exists e :: e in p.recent && e.order == o
    {
      SurvivorOrDeleted(p, orders, o, sig);
    }
  }

  lemma SurvivorOrDeleted(p: Pass, orders: seq<Order>, o: Order, sig: Order -> Signature)
    requires DistinctIds(orders) && o in orders && WellFormed(p, orders, sig)
    requires HeldIds(p) == multiset(Ids(orders))
    ensures o.id in p.toDelete <==> !exists e :: e in p.recent && e.order == o
  {
    IdCountIsOne(orders, o);
    RecentHoldsOrder(p, orders, o, sig);
  }

  /** A walked order's id is counted exactly once among distinct ids. */
  lemma IdCountIsOne(orders: seq<Order>, o: Order)
    requires DistinctIds(orders) && o in orders
    ensures multiset(Ids(orders))[o.id] == 1
  {
    var i :| 0 <= i < |orders| && orders[i] == o;
    assert Ids(orders)[i] == o.id;
    DistinctCountAtMostOne(Ids(orders), o.id);
  }

  /** With distinct ids, `o`'s id is among the representatives exactly when `o` itself is. */
  lemma RecentHoldsOrder(p: Pass, orders: seq<Order>, o: Order, sig: Order -> Signature)
    requires DistinctIds(orders) && o in orders && WellFormed(p, orders, sig)
    ensures o.id in multiset(EntryIds(p.recent)) <==> exists e :: e in p.recent && e.order == o
  {
    var i :| 0 <= i < |orders| && orders[i] == o;
    if exists e :: e in p.recent && e.order == o {
      var e :| e in p.recent && e.order == o;
      var j :| 0 <= j < |p.recent| && p.recent[j] == e;
      assert EntryIds(p.recent)[j] == o.id;
    }
    if o.id in multiset(EntryIds(p.recent)) {
      var j :| 0 <= j < |p.recent| && EntryIds(p.recent)[j] == o.id;
      var e := p.recent[j];
      assert e in p.recent;
      var m :| 0 <= m < |orders| && orders[m] == e.order;
      assert orders[m].id == orders[i].id;
      assert e.order == o;
    }
  }


  // ------------------------------------------------------- slots and payment

  /**
   * From one point of a walk to a later one: `toDelete` only grows; each slot of
   * `recent` keeps its signature, its time never moves back, a paid
   * representative is never replaced, and a replaced one gave way to a paid order.
   */
  predicate Extends(p: Pass, q: Pass)
  {
    && p.toDelete <= q.toDelete
    && |p.recent| <= |q.recent|
    && forall i :: 0 <= i < |p.recent| ==>
         && q.recent[i].signature == p.recent[i].signature
         && p.recent[i].time <= q.recent[i].time
         && (p.recent[i].order.payment ==> q.recent[i] == p.recent[i])
         && (q.recent[i] != p.recent[i] ==> q.recent[i].order.payment)
  }

  lemma StepExtends(p: Pass, o: Order, window: int, sig: Order -> Signature)
    requires forall e :: e in p.recent ==> e.time <= o.date
    ensures Extends(p, Step(p, o, window, sig))
  {
    var k := FindMatch(p.recent, sig(o), o.date, window);
    if k != -1 {
      assert p.recent[k] in p.recent;
    }
  }

  lemma ExtendsTransitive(p: Pass, q: Pass, r: Pass)
    requires Extends(p, q) && Extends(q, r)
    ensures Extends(p, r)
  {
  }

  /**
   * Over a date-ordered walk every later state extends every earlier one: a
   * slot's signature never changes, its time only moves forward, and once its
   * representative is paid it stays the same for the rest of the walk.
   */
  lemma {:induction false} RunExtends(orders: seq<Order>, m: nat, window: int, sig: Order -> Signature)
    requires SortedByDate(orders) && m <= |orders|
    ensures Extends(Run(orders[..m], window, sig), Run(orders, window, sig))
  {
    if m < |orders| {
      var init, o := orders[..|orders| - 1], orders[|orders| - 1];
      RunLast(orders, window, sig);
      assert init[..m] == orders[..m];
      RunExtends(init, m, window, sig);
      RunWellFormed(init, window, sig);
      EntriesNotLater(Run(init, window, sig), init, o, sig);
      StepExtends(Run(init, window, sig), o, window, sig);
      ExtendsTransitive(Run(orders[..m], window, sig), Run(init, window, sig), Run(orders, window, sig));
    } else {
      assert orders[..m] == orders;
    }
  }

  /** Every deleted paid order is covered by a paid representative with its signature. */
  predicate PaidCovered(p: Pass, orders: seq<Order>, sig: Order -> Signature)
  {
    forall x :: x in orders && x.payment && x.id in p.toDelete ==>
      exists e :: e in p.recent && e.order.payment && e.signature == sig(x)
  }

  lemma StepKeepsPaid(p: Pass, o: Order, window: int, sig: Order -> Signature)
    ensures forall e :: e in p.recent && e.order.payment ==> e in Step(p, o, window, sig).recent
  {
    var q := Step(p, o, window, sig);
    forall e | e in p.recent && e.order.payment ensures e in q.recent {
      var i :| 0 <= i < |p.recent| && p.recent[i] == e;
      assert q.recent[i] == e;
    }
  }

  lemma SameIdSameOrder(orders: seq<Order>, x: Order, y: Order)
    requires DistinctIds(orders) && x in orders && y in orders
    ensures x.id == y.id ==> x == y
  {
    var i :| 0 <= i < |orders| && orders[i] == x;
    var j :| 0 <= j < |orders| && orders[j] == y;
  }

  lemma StepPaidCovered(p: Pass, init: seq<Order>, o: Order, window: int, sig: Order -> Signature)
    requires WellFormed(p, init, sig) && PaidCovered(p, init, sig)
    requires forall d :: d in p.toDelete ==> d in Ids(init)
    requires DistinctIds(init + [o])
    ensures PaidCovered(Step(p, o, window, sig), init + [o], sig)
  {
    var q := Step(p, o, window, sig);
    var k := FindMatch(p.recent, sig(o), o.date, window);
    var all := init + [o];
    assert all[|init|] == o;
    forall y | y in init ensures y.id != o.id {
      var j :| 0 <= j < |init| && init[j] == y;
      assert all[j] == y;
    }
    assert DistinctIds(init) by {
      forall i, j | 0 <= i < j < |init| ensures init[i].id != init[j].id {
        assert all[i] == init[i] && all[j] == init[j];
      }
    }
    assert o.id !in Ids(init);
    StepKeepsPaid(p, o, window, sig);
    if k != -1 {
      assert p.recent[k] in p.recent;
    }
    forall x | x in all && x.payment && x.id in q.toDelete
      ensures exists e :: e in q.recent && e.order.payment && e.signature == sig(x)
    {
      if x == o {
        // a paid candidate is deleted only beside a paid representative
        assert k != -1 && p.recent[k].order.payment && p.recent[k] in q.recent;
      } else {
        assert x in init;
        if k != -1 {
          SameIdSameOrder(init, x, p.recent[k].order);
        }
        if x.id in p.toDelete {
          var e :| e in p.recent && e.order.payment && e.signature == sig(x);
        }
      }
    }
  }

  /**
   * Paid never loses to unpaid: with distinct ids, a paid order is deleted only
   * in favour of a paid representative of the same signature, which survives.
   */
  lemma {:induction false} RunPaidCovered(orders: seq<Order>, window: int, sig: Order -> Signature)
    requires DistinctIds(orders)
    ensures PaidCovered(Run(orders, window, sig), orders, sig)
  {
    if orders != [] {
      var init, o := orders[..|orders| - 1], orders[|orders| - 1];
      RunLast(orders, window, sig);
      RunPaidCovered(init, window, sig);
      RunWellFormed(init, window, sig);
      RunConservesIds(init, window, sig);
      var p := Run(init, window, sig);
      forall d | d in p.toDelete ensures d in Ids(init) {
        assert multiset(p.toDelete)[d] > 0;
        assert multiset(Ids(init))[d] > 0;
      }
      StepPaidCovered(p, init, o, window, sig);
    }
  }

  // --------------------------------------------------------- idempotence

  predicate Far(a: int, b: int, window: int)
  {
    a - b > window || b - a > window
  }

  /** No two representatives share a signature while lying within the window of each other. */
  predicate Separated(recent: seq<Entry>, window: int)
  {
    forall i, j :: 0 <= i < |recent| && 0 <= j < |recent| && i != j
      && recent[i].signature == recent[j].signature
      ==> Far(recent[i].time, recent[j].time, window)
  }

  lemma StepSeparated(p: Pass, o: Order, window: int, sig: Order -> Signature)
    requires Separated(p.recent, window)
    requires forall e :: e in p.recent ==> e.time <= o.date
    ensures Separated(Step(p, o, window, sig).recent, window)
  {
    var t := o.date;
    var k := FindMatch(p.recent, sig(o), t, window);
    forall i | 0 <= i < |p.recent| ensures p.recent[i].time <= t {
      assert p.recent[i] in p.recent;
    }
    if k != -1 && o.payment && !p.recent[k].order.payment {
      forall j | 0 <= j < |p.recent| && j != k && p.recent[j].signature == sig(o)
        ensures t - p.recent[j].time > window
      {
        if j > k {
          assert Far(p.recent[k].time, p.recent[j].time, window);
        }
      }
    }
  }

  /** On a date-ordered walk the final representatives are pairwise separated. */
  lemma {:induction false} RunSeparated(orders: seq<Order>, window: int, sig: Order -> Signature)
    requires SortedByDate(orders)
    ensures Separated(Run(orders, window, sig).recent, window)
  {
    if orders != [] {
      var init, o := orders[..|orders| - 1], orders[|orders| - 1];
      RunLast(orders, window, sig);
      RunSeparated(init, window, sig);
      RunWellFormed(init, window, sig);
      EntriesNotLater(Run(init, window, sig), init, o, sig);
      StepSeparated(Run(init, window, sig), o, window, sig);
    }
  }

  function Entries(orders: seq<Order>, sig: Order -> Signature): (r: seq<Entry>)
    ensures |r| == |orders| && forall i :: 0 <= i < |orders| ==> r[i] == NewEntry(orders[i], sig)
  {
    seq(|orders|, i requires 0 <= i < |orders| => NewEntry(orders[i], sig))
  }

  /** Orders whose equal-signature pairs lie more than `window` apart, later after earlier. */
  predicate Spread(orders: seq<Order>, window: int, sig: Order -> Signature)
  {
    forall i, j :: 0 <= i < j < |orders| && sig(orders[i]) == sig(orders[j])
      ==> orders[j].date - orders[i].date > window
  }

  /** A walk over spread-out orders keeps every order and deletes nothing. */
  lemma {:induction false} SpreadRunDeletesNothing(orders: seq<Order>, window: int, sig: Order -> Signature)
    requires Spread(orders, window, sig)
    ensures Run(orders, window, sig) == Pass(Entries(orders, sig), [])
  {
    if orders != [] {
      var init, o := orders[..|orders| - 1], orders[|orders| - 1];
      RunLast(orders, window, sig);
      assert Spread(init, window, sig);
      SpreadRunDeletesNothing(init, window, sig);
      forall j | 0 <= j < |init| ensures !Matches(Entries(init, sig)[j], sig(o), o.date, window) {
        assert orders[j] == init[j];
      }
      assert Entries(init, sig) + [NewEntry(o, sig)] == Entries(orders, sig);
    }
  }

  /**
   * Idempotence: walking again over any date-ordered selection of distinct
   * survivors of a date-ordered walk deletes nothing.
   */
  lemma RerunDeletesNothing(orders: seq<Order>, again: seq<Order>, window: int, sig: Order -> Signature)
    requires SortedByDate(orders) && SortedByDate(again)
    requires forall i, j :: 0 <= i < j < |again| ==> again[i] != again[j]
    requires forall x :: x in again ==> exists e :: e in Run(orders, window, sig).recent && e.order == x
    ensures Run(again, window, sig).toDelete == []
  {
    var recent := Run(orders, window, sig).recent;
    RunSeparated(orders, window, sig);
    RunWellFormed(orders, window, sig);
    forall i, j | 0 <= i < j < |again| && sig(again[i]) == sig(again[j])
      ensures again[j].date - again[i].date > window
    {
      assert again[i] in again && again[j] in again;
      var ei :| ei in recent && ei.order == again[i];
      var ej :| ej in recent && ej.order == again[j];
      var a :| 0 <= a < |recent| && recent[a] == ei;
      var b :| 0 <= b < |recent| && recent[b] == ej;
      assert Far(recent[a].time, recent[b].time, window);
    }
    SpreadRunDeletesNothing(again, window, sig);
  }

  // ------------------------------------------------------------ two orders

  /**
   * Two submissions with one signature, the second within the window of the
   * first, exactly one of them paid: whichever order they arrive in, the unpaid
   * one is deleted and the paid one is the representative.
   */
  lemma PaidWinsEitherOrder(a: Order, b: Order, window: int, sig: Order -> Signature)
    requires sig(a) == sig(b) && b.date - a.date <= window
    requires a.payment != b.payment
    ensures Run([a, b], window, sig).toDelete == [(if a.payment then b else a).id]
    ensures Run([a, b], window, sig).recent == [NewEntry(if a.payment then a else b, sig)]
  {
    RunLast([a, b], window, sig);
    RunLast([a], window, sig);
    assert [a, b][..1] == [a] && [a][..0] == [];
  }

  /** Two equally paid duplicates: the earlier one stays, the later one is deleted. */
  lemma EarlierWinsTie(a: Order, b: Order, window: int, sig: Order -> Signature)
    requires sig(a) == sig(b) && b.date - a.date <= window
    requires a.payment == b.payment
    ensures Run([a, b], window, sig) == Pass([NewEntry(a, sig)], [b.id])
  {
    RunLast([a, b], window, sig);
    RunLast([a], window, sig);
    assert [a, b][..1] == [a] && [a][..0] == [];
  }
}
