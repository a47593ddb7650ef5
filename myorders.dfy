/**
 * The customer's order page: the pure helpers that turn the polled order list
 * into what is shown (dedupe by id, sort by status, paginate, label the
 * tracking timeline, spell out the items), and the two pieces of page state,
 * `showAll` and `visibleCount`, as a small class.
 */
module MyOrders {
  import opened Wrappers
  import opened Text

  /** One line of an order as the page reads it. */
  datatype ItemLine = ItemLine(name: string, quantity: int)

  /** An order as received from the per-user list; `status` may be absent. */
  datatype Card = Card(id: string, status: Option<string>, items: seq<ItemLine>, amount: int)

  // ----------------------------------------------------------- uniqueOrders

  /** Position of the first card with this id, or -1. */
  function IndexOfId(cards: seq<Card>, id: string): (k: int)
    ensures -1 <= k < |cards|
    ensures k == -1 <==> forall i :: 0 <= i < |cards| ==> cards[i].id != id
    ensures k != -1 ==> cards[k].id == id && forall i :: 0 <= i < k ==> cards[i].id != id
  {
    if cards == [] then -1
    else if cards[0].id == id then 0
    else
      var k := IndexOfId(cards[1..], id);
      if k == -1 then -1 else k + 1
  }

  /** Position of the last card with this id, or -1. */
  function LastIndexOfId(cards: seq<Card>, id: string): (k: int)
    ensures -1 <= k < |cards|
    ensures k == -1 <==> forall i :: 0 <= i < |cards| ==> cards[i].id != id
    ensures k != -1 ==> cards[k].id == id && forall i :: k < i < |cards| ==> cards[i].id != id
  {
    if cards == [] then -1
    else if cards[|cards| - 1].id == id then |cards| - 1
    else LastIndexOfId(cards[..|cards| - 1], id)
  }

  /** `Map.prototype.set` on a map kept as its entries in insertion order: a known key keeps its place. */
  function Put(entries: seq<Card>, card: Card): seq<Card>
  {
    var k := IndexOfId(entries, card.id);
    if k == -1 then entries + [card] else entries[k := card]
  }

  /** `Array.from(new Map(data.map(order => [order._id, order])).values())`. */
  function UniqueOrders(data: seq<Card>): seq<Card>
  {
    if data == [] then []
    else Put(UniqueOrders(data[..|data| - 1]), data[|data| - 1])
  }

  predicate DistinctCardIds(cards: seq<Card>)
  {
    forall i, j :: 0 <= i < j < |cards| ==> cards[i].id != cards[j].id
  }

  predicate HasId(cards: seq<Card>, id: string)
  {
    exists i :: 0 <= i < |cards| && cards[i].id == id
  }

  lemma IndexOfIdAppend(cards: seq<Card>, card: Card, id: string)
    ensures IndexOfId(cards + [card], id) ==
      if IndexOfId(cards, id) != -1 then IndexOfId(cards, id)
      else if card.id == id then |cards| else -1
  {
    var k, k' := IndexOfId(cards, id), IndexOfId(cards + [card], id);
    if k != -1 {
      assert (cards + [card])[k] == cards[k];
    } else if card.id == id {
      assert (cards + [card])[|cards|].id == id;
    } else {
      assert forall i :: 0 <= i < |cards| + 1 ==> (cards + [card])[i].id != id;
    }
  }

  lemma LastIndexOfIdAppend(cards: seq<Card>, card: Card, id: string)
    ensures LastIndexOfId(cards + [card], id) ==
      if card.id == id then |cards| else LastIndexOfId(cards, id)
  {
    assert (cards + [card])[..|cards|] == cards;
  }

  lemma HasIdAppend(cards: seq<Card>, card: Card, id: string)
    ensures HasId(cards + [card], id) <==> HasId(cards, id) || card.id == id
  {
    var c := cards + [card];
    if HasId(cards, id) {
      var i :| 0 <= i < |cards| && cards[i].id == id;
      assert c[i].id == id;
    }
    if card.id == id {
      assert c[|cards|].id == id;
    }
    if HasId(c, id) {
      var i :| 0 <= i < |c| && c[i].id == id;
      if i < |cards| {
        assert cards[i].id == id;
      }
    }
  }

  /** `Put` keeps the ids distinct and adds exactly the id of the new card. */
  lemma PutKeys(entries: seq<Card>, card: Card)
    requires DistinctCardIds(entries)
    ensures DistinctCardIds(Put(entries, card))
    ensures forall id :: HasId(Put(entries, card), id) <==> HasId(entries, id) || card.id == id
  {
    var k := IndexOfId(entries, card.id);
    if k == -1 {
      forall id
        ensures HasId(Put(entries, card), id) <==> HasId(entries, id) || card.id == id
      {
        HasIdAppend(entries, card, id);
      }
    } else {
      var u := entries[k := card];
      forall id
        ensures HasId(u, id) <==> HasId(entries, id) || card.id == id
      {
        if HasId(u, id) {
          var i :| 0 <= i < |u| && u[i].id == id;
          if i != k {
            assert entries[i].id == id;
          }
        }
        if HasId(entries, id) {
          var i :| 0 <= i < |entries| && entries[i].id == id;
          assert u[i].id == id;
        }
        if card.id == id {
          assert u[k].id == id;
        }
      }
    }
  }

  /** Each id of `data` occurs exactly once in `UniqueOrders(data)`, and no other id does. */
  lemma {:induction false} UniqueOrdersKeys(data: seq<Card>)
    ensures DistinctCardIds(UniqueOrders(data))
    ensures forall id :: HasId(UniqueOrders(data), id) <==> HasId(data, id)
  {
    if data != [] {
      var init, card := data[..|data| - 1], data[|data| - 1];
      assert data == init + [card];
      UniqueOrdersKeys(init);
      PutKeys(UniqueOrders(init), card);
      forall id
        ensures HasId(UniqueOrders(data), id) <==> HasId(data, id)
      {
        HasIdAppend(init, card, id);
      }
    }
  }

  /** The value kept for each id is the last card seen with that id. */
  lemma {:induction false} UniqueOrdersKeepLast(data: seq<Card>)
    ensures forall i :: 0 <= i < |UniqueOrders(data)| ==>
      LastIndexOfId(data, UniqueOrders(data)[i].id) != -1
      && UniqueOrders(data)[i] == data[LastIndexOfId(data, UniqueOrders(data)[i].id)]
  {
    if data != [] {
      var init, card := data[..|data| - 1], data[|data| - 1];
      assert data == init + [card];
      UniqueOrdersKeepLast(init);
      UniqueOrdersKeys(init);
      var u0 := UniqueOrders(init);
      var u := UniqueOrders(data);
      forall i | 0 <= i < |u|
        ensures LastIndexOfId(data, u[i].id) != -1 && u[i] == data[LastIndexOfId(data, u[i].id)]
      {
        LastIndexOfIdAppend(init, card, u[i].id);
        if u[i].id != card.id {
          assert u[i] == u0[i];
          assert LastIndexOfId(init, u0[i].id) != -1;
        }
      }
    }
  }

  /** An id already seen in `cards` keeps its first position when a card is appended. */
  lemma IndexOfIdSeen(cards: seq<Card>, card: Card, id: string)
    requires HasId(cards, id)
    ensures IndexOfId(cards + [card], id) == IndexOfId(cards, id) != -1
  {
    IndexOfIdAppend(cards, card, id);
  }

  /** The ids of `u` appear in the order of their first occurrence in `data`. */
  predicate FirstSeenOrdered(u: seq<Card>, data: seq<Card>)
  {
    forall i, j :: 0 <= i < j < |u| ==> 0 <= IndexOfId(data, u[i].id) < IndexOfId(data, u[j].id)
  }

  /** Ids already seen keep their first positions when a card is appended to `init`. */
  lemma SeenIdsKeepIndex(u0: seq<Card>, init: seq<Card>, card: Card)
    requires forall id :: HasId(u0, id) <==> HasId(init, id)
    ensures forall i :: 0 <= i < |u0| ==>
      IndexOfId(init + [card], u0[i].id) == IndexOfId(init, u0[i].id) != -1
  {
    forall i | 0 <= i < |u0|
      ensures IndexOfId(init + [card], u0[i].id) == IndexOfId(init, u0[i].id) != -1
    {
      assert HasId(u0, u0[i].id);
      IndexOfIdSeen(init, card, u0[i].id);
    }
  }

  /** A new id goes last, behind every id seen before it. */
  lemma AppendFirstSeen(u0: seq<Card>, init: seq<Card>, card: Card)
    requires FirstSeenOrdered(u0, init)
    requires forall id :: HasId(u0, id) <==> HasId(init, id)
    requires !HasId(u0, card.id)
    ensures FirstSeenOrdered(u0 + [card], init + [card])
  {
    var data, u := init + [card], u0 + [card];
    SeenIdsKeepIndex(u0, init, card);
    IndexOfIdAppend(init, card, card.id);
    forall i, j | 0 <= i < j < |u|
      ensures 0 <= IndexOfId(data, u[i].id) < IndexOfId(data, u[j].id)
    {
      assert u[i] == u0[i];
      if j < |u0| {
        assert u[j] == u0[j];
      } else {
        assert u[j] == card;
      }
    }
  }

  /** One `Put` of the next card keeps the first-seen order. */
  lemma PutFirstSeen(u0: seq<Card>, init: seq<Card>, card: Card)
    requires FirstSeenOrdered(u0, init)
    requires forall id :: HasId(u0, id) <==> HasId(init, id)
    ensures FirstSeenOrdered(Put(u0, card), init + [card])
  {
    if IndexOfId(u0, card.id) == -1 {
      AppendFirstSeen(u0, init, card);
    } else {
      var u := Put(u0, card);
      SeenIdsKeepIndex(u0, init, card);
      assert |u| == |u0| && forall i :: 0 <= i < |u| ==> u[i].id == u0[i].id;
    }
  }

  /** Ids appear in the order of their first occurrence in `data`. */
  lemma {:induction false} UniqueOrdersFirstSeenOrder(data: seq<Card>)
    ensures FirstSeenOrdered(UniqueOrders(data), data)
  {
    if data != [] {
      var init, card := data[..|data| - 1], data[|data| - 1];
      assert data == init + [card];
      UniqueOrdersFirstSeenOrder(init);
      UniqueOrdersKeys(init);
      PutFirstSeen(UniqueOrders(init), init, card);
    }
  }

  // ----------------------------------------------------------- status classifiers

  /** `getStatusPriority`: a missing status counts as "", matching is on the lower-cased text. */
  function ClientStatusPriority(status: Option<string>): (r: nat)
    ensures r <= 3
  {
    var normalized := Lower(status.GetOr(""));
    if Contains(normalized, "prepar") || Contains(normalized, "process") then 0
    else if Contains(normalized, "out") then 1
    else if Contains(normalized, "deliver") then 2
    else 3
  }

  /** The four tracking steps. */
  const StatusSteps: seq<string> := ["Order placed", "Preparing", "Out for delivery", "Delivered"]

  /** `getStatusIndex`: like the priority, but "deliver" is tested first and the fallback is 0. */
  function StatusIndex(status: Option<string>): (r: nat)
    ensures r < |StatusSteps|
  {
    var normalized := Lower(status.GetOr(""));
    if Contains(normalized, "deliver") then 3
    else if Contains(normalized, "out") then 2
    else if Contains(normalized, "prepar") || Contains(normalized, "process") then 1
    else 0
  }

  /** Both classifiers ignore letter case. */
  lemma ClassifiersIgnoreCase(a: string, b: string)
    requires Lower(a) == Lower(b)
    ensures ClientStatusPriority(Some(a)) == ClientStatusPriority(Some(b))
    ensures StatusIndex(Some(a)) == StatusIndex(Some(b))
  {
  }

  /** A pattern whose first character does not occur in `s` is not contained in it. */
  lemma {:induction false} MissingCharNotContained(s: string, sub: string)
    requires sub != [] && sub[0] !in s
    ensures !Contains(s, sub)
  {
    if s != [] {
      assert s[1..] <= s[1..] && forall c :: c in s[1..] ==> c in s;
      MissingCharNotContained(s[1..], sub);
    }
  }

  /** The backend's first status sorts first. */
  lemma FoodProcessingPriority()
    ensures ClientStatusPriority(Some("Food Processing")) == 0
  {
    var lowered := Lower("Food Processing");
    assert lowered[5..12] == "process";
    ContainsAt(lowered, "process", 5);
  }

  lemma OutForDeliveryPriority()
    ensures ClientStatusPriority(Some("Out for delivery")) == 1
  {
    var lowered := Lower("Out for delivery");
    assert lowered[..3] == "out";
    assert 'p' !in lowered;
    MissingCharNotContained(lowered, "prepar");
    MissingCharNotContained(lowered, "process");
    ContainsAt(lowered, "out", 0);
  }

  lemma DeliveredPriority()
    ensures ClientStatusPriority(Some("Delivered")) == 2
  {
    var lowered := Lower("Delivered");
    assert lowered[..7] == "deliver";
    assert 'p' !in lowered && 'o' !in lowered;
    MissingCharNotContained(lowered, "prepar");
    MissingCharNotContained(lowered, "process");
    MissingCharNotContained(lowered, "out");
    ContainsAt(lowered, "deliver", 0);
  }

  /** A missing status sorts last. */
  lemma MissingStatusPriority()
    ensures ClientStatusPriority(None) == 3
  {
    MissingCharNotContained("", "prepar");
    MissingCharNotContained("", "process");
    MissingCharNotContained("", "out");
    MissingCharNotContained("", "deliver");
  }

  /** "Out for delivery" contains "deliver", so the timeline shows it as the last step. */
  lemma OutForDeliveryShowsDelivered()
    ensures StatusIndex(Some("Out for delivery")) == 3
  {
    var lowered := Lower("Out for delivery");
    assert lowered[8..15] == "deliver";
    ContainsAt(lowered, "deliver", 8);
  }

  // ----------------------------------------------------------- orderedOrders

  predicate SortedBy<T>(s: seq<T>, key: T -> int)
  {
    forall i, j :: 0 <= i < j < |s| ==> key(s[i]) <= key(s[j])
  }

  /** Insert `x` after every element whose key is not greater than its own. */
  function InsertBy<T>(x: T, s: seq<T>, key: T -> int): seq<T>
  {
    if s == [] then [x]
    else if key(x) < key(s[0]) then [x] + s
    else [s[0]] + InsertBy(x, s[1..], key)
  }

  /** Inserting adds exactly one copy of `x`. */
  lemma {:induction false} InsertByPermutes<T>(x: T, s: seq<T>, key: T -> int)
    ensures multiset(InsertBy(x, s, key)) == multiset(s) + multiset{x}
  {
    if s != [] && key(s[0]) <= key(x) {
      InsertByPermutes(x, s[1..], key);
      assert s == [s[0]] + s[1..];
    }
  }

  predicate KeysAtLeast<T>(s: seq<T>, key: T -> int, lo: int)
  {
    forall i :: 0 <= i < |s| ==> lo <= key(s[i])
  }

  /** Inserting an element whose key is at least `lo` keeps every key at least `lo`. */
  lemma {:induction false} InsertByKeysAtLeast<T>(x: T, s: seq<T>, key: T -> int, lo: int)
    requires KeysAtLeast(s, key, lo) && lo <= key(x)
    ensures KeysAtLeast(InsertBy(x, s, key), key, lo)
  {
    if s != [] && key(s[0]) <= key(x) {
      InsertByKeysAtLeast(x, s[1..], key, lo);
    }
  }

  lemma ConsSorted<T>(h: T, rest: seq<T>, key: T -> int)
    requires SortedBy(rest, key) && KeysAtLeast(rest, key, key(h))
    ensures SortedBy([h] + rest, key)
  {
    var r := [h] + rest;
    forall i, j | 0 <= i < j < |r|
      ensures key(r[i]) <= key(r[j])
    {
      assert r[j] == rest[j - 1];
      if i > 0 {
        assert r[i] == rest[i - 1];
      }
    }
  }

  lemma {:induction false} InsertBySorted<T>(x: T, s: seq<T>, key: T -> int)
    requires SortedBy(s, key)
    ensures SortedBy(InsertBy(x, s, key), key)
  {
    if s != [] && key(s[0]) <= key(x) {
      InsertBySorted(x, s[1..], key);
      InsertByKeysAtLeast(x, s[1..], key, key(s[0]));
      ConsSorted(s[0], InsertBy(x, s[1..], key), key);
    } else if s != [] {
      ConsSorted(x, s, key);
    }
  }


  /** The elements of `s` with key `k`, in order. */
  function WithKey<T>(s: seq<T>, key: T -> int, k: int): seq<T>
  {
    if s == [] then []
    else (if key(s[0]) == k then [s[0]] else []) + WithKey(s[1..], key, k)
  }

  lemma {:induction false} WithKeyAppend<T>(a: seq<T>, b: seq<T>, key: T -> int, k: int)
    ensures WithKey(a + b, key, k) == WithKey(a, key, k) + WithKey(b, key, k)
  {
    if a == [] {
      assert a + b == b;
    } else {
      var head := if key(a[0]) == k then [a[0]] else [];
      assert (a + b)[0] == a[0] && (a + b)[1..] == a[1..] + b;
      WithKeyAppend(a[1..], b, key, k);
      calc {
        WithKey(a + b, key, k);
        head + WithKey(a[1..] + b, key, k);
        head + (WithKey(a[1..], key, k) + WithKey(b, key, k));
        (head + WithKey(a[1..], key, k)) + WithKey(b, key, k);
        WithKey(a, key, k) + WithKey(b, key, k);
      }
    }
  }

  lemma WithKeySingle<T>(x: T, key: T -> int, k: int)
    ensures WithKey([x], key, k) == if key(x) == k then [x] else []
  {
    assert [x][1..] == [];
  }

  /** `x` goes in front of a sorted sequence whose keys all exceed its own. */
  lemma InsertFrontStable<T>(x: T, s: seq<T>, key: T -> int, k: int)
    requires SortedBy(s, key) && s != [] && key(x) < key(s[0])
    ensures WithKey([x] + s, key, k) == WithKey(s, key, k) + WithKey([x], key, k)
  {
    WithKeyAppend([x], s, key, k);
    WithKeySingle(x, key, k);
    if key(x) == k {
      forall y | y in s
        ensures key(y) != k
      {
        var i :| 0 <= i < |s| && s[i] == y;
        assert key(s[0]) <= key(s[i]);
      }
      WithKeyNone(s, key, k);
    }
  }

  /** Inserting into a sorted sequence puts `x` behind every element with its key. */
  lemma {:induction false} InsertByStable<T>(x: T, s: seq<T>, key: T -> int, k: int)
    requires SortedBy(s, key)
    ensures WithKey(InsertBy(x, s, key), key, k) == WithKey(s, key, k) + WithKey([x], key, k)
  {
    if s == [] {
      assert InsertBy(x, s, key) == [x];
    } else if key(x) < key(s[0]) {
      assert InsertBy(x, s, key) == [x] + s;
      InsertFrontStable(x, s, key, k);
    } else {
      SortedByTail(s, key);
      InsertByStable(x, s[1..], key, k);
      InsertBehindStable(x, s, key, k);
    }
  }

  lemma SortedByTail<T>(s: seq<T>, key: T -> int)
    requires SortedBy(s, key) && s != []
    ensures SortedBy(s[1..], key)
  {
  }

  /** One step of the induction: `x` passes the head and lands in the tail. */
  lemma InsertBehindStable<T>(x: T, s: seq<T>, key: T -> int, k: int)
    requires s != [] && key(s[0]) <= key(x)
    requires WithKey(InsertBy(x, s[1..], key), key, k) == WithKey(s[1..], key, k) + WithKey([x], key, k)
    ensures WithKey(InsertBy(x, s, key), key, k) == WithKey(s, key, k) + WithKey([x], key, k)
  {
    var rest := InsertBy(x, s[1..], key);
    assert InsertBy(x, s, key) == [s[0]] + rest;
    WithKeyAppend([s[0]], rest, key, k);
    WithKeyAppend([s[0]], s[1..], key, k);
    assert s == [s[0]] + s[1..];
  }

  lemma {:induction false} WithKeyNone<T>(s: seq<T>, key: T -> int, k: int)
    requires forall y :: y in s ==> key(y) != k
    ensures WithKey(s, key, k) == []
  {
    if s != [] {
      assert forall y :: y in s[1..] ==> y in s;
      WithKeyNone(s[1..], key, k);
    }
  }

  /** The stable sort behind `[...xs].sort((a, b) => key(a) - key(b))`. */
  function SortBy<T>(s: seq<T>, key: T -> int): (r: seq<T>)
    ensures multiset(r) == multiset(s)
    ensures SortedBy(r, key)
  {
    if s == [] then []
    else
      var init := SortBy(s[..|s| - 1], key);
      assert s == s[..|s| - 1] + [s[|s| - 1]];
      InsertBySorted(s[|s| - 1], init, key);
      InsertByPermutes(s[|s| - 1], init, key);
      InsertBy(s[|s| - 1], init, key)
  }

  /** Stability: the elements sharing a key keep their relative order. */
  lemma {:induction false} SortByStable<T>(s: seq<T>, key: T -> int, k: int)
    ensures WithKey(SortBy(s, key), key, k) == WithKey(s, key, k)
  {
    if s != [] {
      var init, last := s[..|s| - 1], s[|s| - 1];
      assert s == init + [last];
      SortByStable(init, key, k);
      InsertByStable(last, SortBy(init, key), key, k);
      WithKeyAppend(init, [last], key, k);
    }
  }

  function CardPriority(card: Card): int
  {
    ClientStatusPriority(card.status)
  }

  /** `orderedOrders`: a copy of the unique orders sorted by status priority, stably. */
  function OrderedOrders(data: seq<Card>): (r: seq<Card>)
    ensures multiset(r) == multiset(UniqueOrders(data))
    ensures SortedBy(r, CardPriority)
    ensures forall p :: WithKey(r, CardPriority, p) == WithKey(UniqueOrders(data), CardPriority, p)
  {
    var r := SortBy(UniqueOrders(data), CardPriority);
    assert forall p :: WithKey(r, CardPriority, p) == WithKey(UniqueOrders(data), CardPriority, p) by {
      forall p
        ensures WithKey(r, CardPriority, p) == WithKey(UniqueOrders(data), CardPriority, p)
      {
        SortByStable(UniqueOrders(data), CardPriority, p);
      }
    }
    r
  }

  // ----------------------------------------------------------- pagination

  /** Orders per page. */
  const PageSize: nat := 4

  function Min(a: int, b: int): int
  {
    if a <= b then a else b
  }

  /** The `setVisibleCount(prev => Math.min(prev + 4, total))` update. */
  function NextVisibleCount(prev: nat, total: nat): (r: nat)
    ensures r <= total
    ensures prev <= total ==> prev < r || r == total
  {
    Min(prev + PageSize, total)
  }

  /** Loading `n` more pages from `prev`. */
  function LoadPages(prev: nat, total: nat, n: nat): nat
  {
    if n == 0 then prev else NextVisibleCount(LoadPages(prev, total, n - 1), total)
  }

  /** Enough load-more steps show every order: `n` steps reach the total once `4 * n` covers the gap. */
  lemma {:induction false} LoadPagesReachesTotal(prev: nat, total: nat, n: nat)
    requires prev + PageSize * n >= total
    ensures LoadPages(prev, total, n) == total || (n == 0 && prev >= total)
    ensures n > 0 ==> LoadPages(prev, total, n) == total
  {
    if n > 0 {
      LoadPagesBound(prev, total, n - 1);
      if prev + PageSize * (n - 1) >= total {
        LoadPagesReachesTotal(prev, total, n - 1);
      }
    }
  }

  lemma {:induction false} LoadPagesBound(prev: nat, total: nat, n: nat)
    ensures LoadPages(prev, total, n) == prev + PageSize * n || LoadPages(prev, total, n) == total
      || (n == 0 && LoadPages(prev, total, n) == prev)
    ensures n > 0 ==> LoadPages(prev, total, n) <= total
  {
    if n > 0 {
      LoadPagesBound(prev, total, n - 1);
    }
  }

  /** `showAll` and `visibleCount`. */
  class Pager {
    var showAll: bool
    var visibleCount: nat

    constructor ()
      ensures !showAll && visibleCount == PageSize
    {
      showAll := false;
      visibleCount := PageSize;
    }

    /** The load-more observer; it only exists while every order is being shown. */
    method LoadMore(total: nat)
      modifies this
      ensures showAll == old(showAll)
      ensures visibleCount == if showAll then NextVisibleCount(old(visibleCount), total) else old(visibleCount)
      ensures showAll ==> visibleCount <= total
    {
      if showAll {
        visibleCount := NextVisibleCount(visibleCount, total);
      }
    }

    /** The "Show all orders" / "Show less" toggle; leaving show-all resets the count. */
    method SetShowAll(value: bool)
      modifies this
      ensures showAll == value
      ensures visibleCount == if value then old(visibleCount) else PageSize
    {
      showAll := value;
      if !value {
        visibleCount := PageSize;
      }
    }

    /** `displayedOrders`: a prefix of the ordered list, of at most four orders unless showing all. */
    function Displayed(ordered: seq<Card>): (r: seq<Card>)
      reads this
      ensures r <= ordered
      ensures |r| == if showAll then Min(visibleCount, |ordered|) else Min(PageSize, |ordered|)
    {
      if showAll then ordered[..Min(visibleCount, |ordered|)] else ordered[..Min(PageSize, |ordered|)]
    }
  }

  // ----------------------------------------------------------- tracking timeline

  datatype StepState = Completed | InProgress | Pending

  /** One rendered timeline step. */
  datatype StepView = StepView(step: string, done: bool, current: bool, state: StepState)

  /** The timeline for the tracked order (`current` is its status index, 0 when none is open). */
  function Timeline(current: nat): (r: seq<StepView>)
    ensures |r| == |StatusSteps|
    ensures forall i :: 0 <= i < |r| ==> r[i].step == StatusSteps[i]
  {
    seq(|StatusSteps|, i requires 0 <= i < |StatusSteps| =>
      StepView(StatusSteps[i], i <= current, i == current,
               if i == current then InProgress else if i < current then Completed else Pending))
  }

  function CurrentIndex(active: Option<Card>): (r: nat)
    ensures r < |StatusSteps|
    ensures active.None? ==> r == 0
  {
    if active.Some? then StatusIndex(active.value.status) else 0
  }

  /**
   * Labels: a step is completed iff it comes before the current one, in
   * progress iff it is the current one, pending otherwise; exactly one step is
   * current.
   */
  lemma TimelineLabels(active: Option<Card>)
    ensures var r := Timeline(CurrentIndex(active));
      && (forall i :: 0 <= i < |r| ==> (r[i].state == Completed <==> i < CurrentIndex(active)))
      && (forall i :: 0 <= i < |r| ==> (r[i].state == InProgress <==> i == CurrentIndex(active)))
      && (forall i :: 0 <= i < |r| ==> (r[i].state == Pending <==> i > CurrentIndex(active)))
      && (forall i :: 0 <= i < |r| ==> (r[i].done <==> r[i].state != Pending))
      && r[CurrentIndex(active)].current
      && (forall i, j :: 0 <= i < |r| && 0 <= j < |r| && r[i].current && r[j].current ==> i == j)
  {
  }

  // ----------------------------------------------------------- item text

  function ItemLabel(item: ItemLine): string
  {
    item.name + " x " + IntToString(item.quantity)
  }

  function Concat(pieces: seq<string>): string
  {
    if pieces == [] then "" else pieces[0] + Concat(pieces[1..])
  }

  /** The pieces React renders side by side: every item but the last is followed by ", ". */
  function ItemPieces(items: seq<ItemLine>): (r: seq<string>)
    ensures |r| == |items|
  {
    seq(|items|, i requires 0 <= i < |items| =>
      if i == |items| - 1 then ItemLabel(items[i]) else ItemLabel(items[i]) + ", ")
  }

  function ItemLabels(items: seq<ItemLine>): seq<string>
  {
    seq(|items|, i requires 0 <= i < |items| => ItemLabel(items[i]))
  }

  lemma ItemListsTail(items: seq<ItemLine>)
    requires |items| > 1
    ensures ItemPieces(items)[1..] == ItemPieces(items[1..])
    ensures ItemLabels(items)[1..] == ItemLabels(items[1..])
    ensures ItemPieces(items)[0] == ItemLabels(items)[0] + ", "
  {
  }

  /** The item text is the labels joined by ", ", with no trailing separator. */
  lemma {:induction false} ItemTextIsJoin(items: seq<ItemLine>)
    ensures Concat(ItemPieces(items)) == Join(ItemLabels(items), ", ")
  {
    if |items| > 1 {
      ItemTextIsJoin(items[1..]);
      ItemListsTail(items);
      var pieces, labels := ItemPieces(items), ItemLabels(items);
      calc {
        Concat(pieces);
        pieces[0] + Concat(pieces[1..]);
        ItemLabels(items)[0] + ", " + Concat(ItemPieces(items[1..]));
        labels[0] + ", " + Join(labels[1..], ", ");
        Join(labels, ", ");
      }
    }
  }
}
