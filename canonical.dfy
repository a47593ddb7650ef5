/**
 * The canonicaliser: `normalizeItems`, `normalizeAddress` and `getSignature`.
 * A signature is compared structurally here; in the source both normalised parts
 * are serialised with `JSON.stringify` and compared as strings, which for these
 * flat records distinguishes exactly the values structural equality does.
 */
module Canonical {
  import opened Wrappers
  import opened Text
  import opened Orders

  // ------------------------------------------------------------------ items

  /** A cart line with every missing field defaulted. */
  datatype NormItem = NormItem(id: string, name: string, qty: int, price: int)

  /** `_id ?? id ?? ""`, `name ?? ""`, `quantity ?? 0`, `price ?? 0`. */
  function NormalizeItem(item: RawItem): NormItem
  {
    NormItem(item.objectId.GetOr(item.id.GetOr("")), item.name.GetOr(""),
             item.quantity.GetOr(0), item.price.GetOr(0))
  }

  /** The sort key: the id and the name written one after the other. */
  function SortKey(n: NormItem): string
  {
    n.id + n.name
  }

  predicate KeyLe(a: NormItem, b: NormItem)
  {
    LexLe(SortKey(a), SortKey(b))
  }

  predicate SortedByKey(s: seq<NormItem>)
  {
    forall i, j :: 0 <= i < j < |s| ==> KeyLe(s[i], s[j])
  }

  predicate DistinctKeys(s: seq<NormItem>)
  {
    forall i, j :: 0 <= i < j < |s| ==> SortKey(s[i]) != SortKey(s[j])
  }

  lemma KeyLeAll(x: NormItem, s: seq<NormItem>)
    requires SortedByKey(s) && s != [] && KeyLe(x, s[0])
    ensures forall j :: 0 <= j < |s| ==> KeyLe(x, s[j])
  {
    forall j | 0 <= j < |s| ensures KeyLe(x, s[j]) {
      if j > 0 { LexTransitive(SortKey(x), SortKey(s[0]), SortKey(s[j])); }
    }
  }

  /** A lower bound of every element of `src` bounds every element of a rearrangement of it. */
  lemma LowerBound(h: NormItem, src: seq<NormItem>, dst: seq<NormItem>)
    requires forall y :: y in src ==> KeyLe(h, y)
    requires multiset(dst) == multiset(src)
    ensures forall j :: 0 <= j < |dst| ==> KeyLe(h, dst[j])
  {
    forall j | 0 <= j < |dst| ensures KeyLe(h, dst[j]) {
      assert dst[j] in multiset(dst);
    }
  }

  /**
   * Puts `x` after every element whose key does not exceed its own, so that
   * equal keys stay in arrival order (the sort of the source is stable).
   */
  function Insert(x: NormItem, s: seq<NormItem>): (r: seq<NormItem>)
    ensures multiset(r) == multiset(s) + multiset{x}
  {
    if s == [] then [x]
    else if !KeyLe(s[0], x) then [x] + s
    else
      assert s == [s[0]] + s[1..];
      [s[0]] + Insert(x, s[1..])
  }

  lemma {:induction false} InsertSorted(x: NormItem, s: seq<NormItem>)
    requires SortedByKey(s)
    ensures SortedByKey(Insert(x, s))
  {
    if s == [] {
    } else if !KeyLe(s[0], x) {
      LexTotal(SortKey(s[0]), SortKey(x));
      KeyLeAll(x, s);
    } else {
      var rest := Insert(x, s[1..]);
      InsertSorted(x, s[1..]);
      assert multiset(rest) == multiset(s[1..] + [x]);
      forall y | y in s[1..] + [x] ensures KeyLe(s[0], y) {
        if y != x {
          var k :| 0 <= k < |s[1..]| && s[1..][k] == y;
          assert s[k + 1] == y;
        }
      }
      LowerBound(s[0], s[1..] + [x], rest);
    }
  }

  /** Insertion sort by `SortKey`. */
  function SortItems(s: seq<NormItem>): (r: seq<NormItem>)
    ensures multiset(r) == multiset(s)
    ensures SortedByKey(r)
  {
    if s == [] then []
    else
      assert s == s[..|s| - 1] + [s[|s| - 1]];
      InsertSorted(s[|s| - 1], SortItems(s[..|s| - 1]));
      Insert(s[|s| - 1], SortItems(s[..|s| - 1]))
  }

  /** The `map` step: one defaulted record per submitted line, in submission order. */
  function NormalizeAll(items: seq<RawItem>): seq<NormItem>
  {
    seq(|items|, i requires 0 <= i < |items| => NormalizeItem(items[i]))
  }

  /**
   * `normalizeItems`: exactly the defaulted records of the submitted lines
   * (as a multiset), sorted by their id+name key.
   */
  function NormalizeItems(items: seq<RawItem>): (r: seq<NormItem>)
    ensures |r| == |items|
    ensures multiset(r) == multiset(NormalizeAll(items))
    ensures SortedByKey(r)
  {
    assert |multiset(SortItems(NormalizeAll(items)))| == |NormalizeAll(items)|;
    SortItems(NormalizeAll(items))
  }

  /** Sorted rearrangements of a list with distinct keys start with the same element. */
  lemma SortedHeadsEqual(a: seq<NormItem>, b: seq<NormItem>)
    requires SortedByKey(a) && SortedByKey(b) && DistinctKeys(a)
    requires multiset(a) == multiset(b) && a != []
    ensures b != [] && a[0] == b[0]
  {
    assert a[0] in multiset(b);
    var j :| 0 <= j < |b| && b[j] == a[0];
    assert b[0] in multiset(a);
    var i :| 0 <= i < |a| && a[i] == b[0];
    if i > 0 && j > 0 {
      // key(b[0]) <= key(a[0]) <= key(b[0]), so a[i] repeats the key of a[0]
      assert KeyLe(b[0], b[j]) && KeyLe(a[0], a[i]);
      LexAntisymmetric(SortKey(a[0]), SortKey(b[0]));
      assert false;
    }
  }

  /** Dropping the head keeps a list sorted with distinct keys, and removes one copy of the head. */
  lemma SortedTail(a: seq<NormItem>)
    requires SortedByKey(a) && DistinctKeys(a) && a != []
    ensures SortedByKey(a[1..]) && DistinctKeys(a[1..])
    ensures multiset(a[1..]) == multiset(a) - multiset{a[0]}
  {
    assert a == [a[0]] + a[1..];
  }

  /** Two sorted lists with the same elements and pairwise distinct keys are the same list. */
  lemma {:induction false} SortedPermutationsEqual(a: seq<NormItem>, b: seq<NormItem>)
    requires SortedByKey(a) && SortedByKey(b) && DistinctKeys(a)
    requires multiset(a) == multiset(b)
    ensures a == b
  {
    if a == [] {
      assert |multiset(b)| == 0;
    } else {
      SortedHeadsEqual(a, b);
      SortedTail(a);
      assert b == [b[0]] + b[1..];
      assert multiset(b[1..]) == multiset(b) - multiset{b[0]};
      assert SortedByKey(b[1..]);
      SortedPermutationsEqual(a[1..], b[1..]);
      assert a == [a[0]] + a[1..] && b == [b[0]] + b[1..];
    }
  }

  lemma NormalizeAllAppend(x: seq<RawItem>, y: seq<RawItem>)
    ensures NormalizeAll(x + y) == NormalizeAll(x) + NormalizeAll(y)
  {
  }

  /** Permuting the submitted lines permutes their defaulted records. */
  lemma {:induction false} NormalizeAllPermutation(a: seq<RawItem>, b: seq<RawItem>)
    requires multiset(a) == multiset(b)
    ensures multiset(NormalizeAll(a)) == multiset(NormalizeAll(b))
  {
    if a == [] {
      assert |multiset(b)| == 0;
    } else {
      var x := a[0];
      assert x in multiset(b);
      var k :| 0 <= k < |b| && b[k] == x;
      var b' := b[..k] + b[k + 1..];
      assert b == b[..k] + [x] + b[k + 1..];
      assert a == [x] + a[1..];
      assert multiset(b) == multiset(b[..k]) + multiset{x} + multiset(b[k + 1..]);
      assert multiset(a) == multiset{x} + multiset(a[1..]);
      assert multiset(b') == multiset(b[..k]) + multiset(b[k + 1..]);
      assert multiset(a[1..]) == multiset(a) - multiset{x};
      NormalizeAllPermutation(a[1..], b');
      NormalizeAllAppend(b[..k] + [x], b[k + 1..]);
      NormalizeAllAppend(b[..k], [x]);
      NormalizeAllAppend(b[..k], b[k + 1..]);
      NormalizeAllAppend([x], a[1..]);
    }
  }

  /**
   * Submission order does not matter: when the id+name keys are pairwise
   * distinct, any permutation of the lines normalises to the same list.
   */
  lemma NormalizeItemsOrderIndependent(a: seq<RawItem>, b: seq<RawItem>)
    requires multiset(a) == multiset(b)
    requires DistinctKeys(NormalizeAll(a))
    ensures NormalizeItems(a) == NormalizeItems(b)
  {
    NormalizeAllPermutation(a, b);
    var ra, rb := NormalizeItems(a), NormalizeItems(b);
    forall i, j | 0 <= i < j < |ra| ensures SortKey(ra[i]) != SortKey(ra[j]) {
      DistinctKeysElements(NormalizeAll(a), ra, i, j);
    }
    SortedPermutationsEqual(ra, rb);
  }

  /** Distinct keys survive any rearrangement of the same records. */
  lemma DistinctKeysElements(s: seq<NormItem>, t: seq<NormItem>, i: int, j: int)
    requires DistinctKeys(s) && multiset(s) == multiset(t)
    requires 0 <= i < j < |t|
    ensures SortKey(t[i]) != SortKey(t[j])
  {
    if SortKey(t[i]) == SortKey(t[j]) {
      assert t[i] in multiset(s) && t[j] in multiset(s);
      var p :| 0 <= p < |s| && s[p] == t[i];
      var q :| 0 <= q < |s| && s[q] == t[j];
      if p == q {
        assert t == t[..j] + t[j..];
        assert t[i] in multiset(t[..j]) && t[j] in multiset(t[j..]);
        assert multiset(t)[t[i]] >= 2;
        SingleOccurrence(s, p);
        assert false;
      }
    }
  }

  /** In a list with distinct keys, an element occurs exactly once. */
  lemma {:induction false} SingleOccurrence(s: seq<NormItem>, p: int)
    requires DistinctKeys(s) && 0 <= p < |s|
    ensures multiset(s)[s[p]] == 1
  {
    if |s| == 1 {
    } else if p == 0 {
      assert s == [s[0]] + s[1..];
      assert s[0] !in s[1..];
    } else {
      assert s == [s[0]] + s[1..];
      assert s[1..][p - 1] == s[p];
      SingleOccurrence(s[1..], p - 1);
    }
  }

  // ---------------------------------------------------------------- address

  /** The nine address fields, each present. */
  datatype NormAddress = NormAddress(
    firstName: string, lastName: string, email: string, street: string, city: string,
    state: string, zipcode: string, country: string, phone: string)

  /** `normalizeAddress`: every missing field becomes the empty string. */
  function NormalizeAddress(a: RawAddress): NormAddress
  {
    NormAddress(a.firstName.GetOr(""), a.lastName.GetOr(""), a.email.GetOr(""),
                a.street.GetOr(""), a.city.GetOr(""), a.state.GetOr(""),
                a.zipcode.GetOr(""), a.country.GetOr(""), a.phone.GetOr(""))
  }

  /** Two optional texts that read the same once a missing one counts as "". */
  predicate SameText(x: Option<string>, y: Option<string>)
  {
    (if x.Some? then x.value else "") == (if y.Some? then y.value else "")
  }

  /**
   * Two addresses normalise alike exactly when each field agrees, a missing
   * field counting as the empty string; the result has all nine fields.
   */
  lemma NormalizeAddressEquality(a: RawAddress, b: RawAddress)
    ensures NormalizeAddress(a) == NormalizeAddress(b) <==>
      SameText(a.firstName, b.firstName) && SameText(a.lastName, b.lastName)
      && SameText(a.email, b.email) && SameText(a.street, b.street)
      && SameText(a.city, b.city) && SameText(a.state, b.state)
      && SameText(a.zipcode, b.zipcode) && SameText(a.country, b.country)
      && SameText(a.phone, b.phone)
  {
  }

  /** The default `address = {}` normalises to nine empty fields. */
  lemma NoAddressIsAllEmpty()
    ensures NormalizeAddress(NoAddress()) == NormAddress("", "", "", "", "", "", "", "", "")
  {
  }

  // -------------------------------------------------------------- signature

  /** What two submissions must share to be the same logical order. */
  datatype Signature = Signature(userId: string, amount: int, items: seq<NormItem>, address: NormAddress)

  function ItemsOf(o: Order): seq<RawItem>
  {
    o.items.GetOr([])
  }

  function AddressOf(o: Order): RawAddress
  {
    o.address.GetOr(NoAddress())
  }

  /** `getSignature`: `userId ?? ""`, `amount ?? 0`, normalised items and address. */
  function GetSignature(o: Order): Signature
  {
    Signature(o.userId.GetOr(""), o.amount.GetOr(0), NormalizeItems(ItemsOf(o)),
              NormalizeAddress(AddressOf(o)))
  }

  /**
   * The signature's owner and amount default to "" and 0, and its items are
   * the normalised items of the order, one per line, in key order.
   */
  lemma SignatureDefaults(o: Order)
    ensures GetSignature(o).userId == (if o.userId.Some? then o.userId.value else "")
    ensures GetSignature(o).amount == (if o.amount.Some? then o.amount.value else 0)
    ensures |GetSignature(o).items| == |ItemsOf(o)| && SortedByKey(GetSignature(o).items)
    ensures multiset(GetSignature(o).items) == multiset(NormalizeAll(ItemsOf(o)))
  {
  }

  /**
   * Two orders differing only in item order (with distinct id+name keys) or in
   * absent-versus-empty fields get equal signatures, and conversely equal
   * signatures mean the same owner, amount, item records and address.
   */
  lemma {:induction false} SignatureEquality(a: Order, b: Order)
    requires DistinctKeys(NormalizeAll(ItemsOf(a)))
    ensures GetSignature(a) == GetSignature(b) <==>
      && SameText(a.userId, b.userId)
      && a.amount.GetOr(0) == b.amount.GetOr(0)
      && multiset(NormalizeAll(ItemsOf(a))) == multiset(NormalizeAll(ItemsOf(b)))
      && NormalizeAddress(AddressOf(a)) == NormalizeAddress(AddressOf(b))
  {
    var na, nb := NormalizeAll(ItemsOf(a)), NormalizeAll(ItemsOf(b));
    if multiset(na) == multiset(nb) {
      var ra, rb := NormalizeItems(ItemsOf(a)), NormalizeItems(ItemsOf(b));
      forall i, j | 0 <= i < j < |ra| ensures SortKey(ra[i]) != SortKey(ra[j]) {
        DistinctKeysElements(na, ra, i, j);
      }
      SortedPermutationsEqual(ra, rb);
    }
  }

  /** Reordering the submitted lines never changes the signature (distinct keys). */
  lemma SignatureIgnoresItemOrder(a: Order, b: Order)
    requires a.userId == b.userId && a.amount == b.amount && a.address == b.address
    requires multiset(ItemsOf(a)) == multiset(ItemsOf(b))
    requires DistinctKeys(NormalizeAll(ItemsOf(a)))
    ensures GetSignature(a) == GetSignature(b)
  {
    NormalizeItemsOrderIndependent(ItemsOf(a), ItemsOf(b));
  }
}
