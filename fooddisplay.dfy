/**
 * The menu filter: a food item is shown when it belongs to the selected
 * category ("All" selects every category) and the search text, trimmed and
 * lower-cased, occurs in its lower-cased name, description or category.
 */
module FoodDisplay {
  import opened Wrappers
  import opened Text

  /** The searchable fields of a menu item; any of them may be absent. */
  datatype FoodItem = FoodItem(name: Option<string>, description: Option<string>, category: Option<string>)

  /** `searchQuery.trim().toLowerCase()`. */
  function NormalizeQuery(searchQuery: string): (r: string)
    ensures r == [] <==> AllSpace(searchQuery)
    ensures r == Lower(r)
  {
    LowerIdempotent(Trim(searchQuery));
    Lower(Trim(searchQuery))
  }

  /** `field?.toLowerCase().includes(query)`; an absent field yields `undefined`, which is falsy. */
  predicate FieldMatches(field: Option<string>, query: string)
  {
    field.Some? && Contains(Lower(field.value), query)
  }

  predicate MatchesCategory(category: string, item: FoodItem)
  {
    category == "All" || Some(category) == item.category
  }

  /** An empty normalised query is falsy, so it matches everything. */
  predicate MatchesSearch(query: string, item: FoodItem)
  {
    query == []
    || FieldMatches(item.name, query)
    || FieldMatches(item.description, query)
    || FieldMatches(item.category, query)
  }

  predicate Shown(category: string, query: string, item: FoodItem)
  {
    MatchesCategory(category, item) && MatchesSearch(query, item)
  }

  function Keep(foodList: seq<FoodItem>, category: string, query: string): (r: seq<FoodItem>)
    ensures |r| <= |foodList|
    ensures forall item :: item in r <==> item in foodList && Shown(category, query, item)
  {
    if foodList == [] then []
    else (if Shown(category, query, foodList[0]) then [foodList[0]] else []) + Keep(foodList[1..], category, query)
  }

  /** `filteredFoodList`. */
  function FilteredFoodList(foodList: seq<FoodItem>, category: string, searchQuery: string): seq<FoodItem>
  {
    Keep(foodList, category, NormalizeQuery(searchQuery))
  }

  /** The filter keeps order: filtering a concatenation concatenates the filtered parts. */
  lemma {:induction false} KeepAppend(a: seq<FoodItem>, b: seq<FoodItem>, category: string, query: string)
    ensures Keep(a + b, category, query) == Keep(a, category, query) + Keep(b, category, query)
  {
    if a == [] {
      assert a + b == b;
    } else {
      assert (a + b)[0] == a[0] && (a + b)[1..] == a[1..] + b;
      KeepAppend(a[1..], b, category, query);
    }
  }

  /** On one item the filter is exactly the predicate. */
  lemma KeepSingle(item: FoodItem, category: string, query: string)
    ensures Keep([item], category, query) == if Shown(category, query, item) then [item] else []
  {
    assert [item][1..] == [];
  }

  /** "All" accepts every category; any other category must equal the item's. */
  lemma CategoryRule(category: string, item: FoodItem)
    ensures MatchesCategory("All", item)
    ensures category != "All" ==> (MatchesCategory(category, item) <==> item.category == Some(category))
  {
  }

  /** Under "All", a blank or whitespace-only search shows the whole menu, in order. */
  lemma {:induction false} BlankSearchShowsEverything(foodList: seq<FoodItem>, searchQuery: string)
    requires AllSpace(searchQuery)
    ensures FilteredFoodList(foodList, "All", searchQuery) == foodList
  {
    BlankKeepsAll(foodList, NormalizeQuery(searchQuery));
  }

  lemma {:induction false} BlankKeepsAll(foodList: seq<FoodItem>, query: string)
    requires query == []
    ensures Keep(foodList, "All", query) == foodList
  {
    if foodList != [] {
      BlankKeepsAll(foodList[1..], query);
      assert foodList == [foodList[0]] + foodList[1..];
    }
  }

  /**
   * A non-blank search matches an item iff the normalised query occurs, at
   * some position, in one of its present fields, lower-cased.
   */
  lemma SearchIsSubstring(searchQuery: string, item: FoodItem)
    requires !AllSpace(searchQuery)
    ensures var q := NormalizeQuery(searchQuery);
      MatchesSearch(q, item) <==>
        (item.name.Some? && exists i :: OccursAt(Lower(item.name.value), q, i))
        || (item.description.Some? && exists i :: OccursAt(Lower(item.description.value), q, i))
        || (item.category.Some? && exists i :: OccursAt(Lower(item.category.value), q, i))
  {
    var q := NormalizeQuery(searchQuery);
    if item.name.Some? { ContainsIff(Lower(item.name.value), q); }
    if item.description.Some? { ContainsIff(Lower(item.description.value), q); }
    if item.category.Some? { ContainsIff(Lower(item.category.value), q); }
  }

  /** Letter case of the item's text does not matter. */
  lemma SearchIgnoresCase(query: string, item: FoodItem, other: FoodItem)
    requires item.name.Some? <==> other.name.Some?
    requires item.name.Some? ==> Lower(item.name.value) == Lower(other.name.value)
    requires item.description == other.description && item.category == other.category
    ensures MatchesSearch(query, item) <==> MatchesSearch(query, other)
  {
  }

  /** A missing field never produces a match; an item with no text matches only a blank search. */
  lemma MissingFieldsNeverMatch(query: string, item: FoodItem)
    ensures !FieldMatches(None, query)
    ensures item.name.None? && item.description.None? && item.category.None? ==>
      (MatchesSearch(query, item) <==> query == [])
  {
  }
}
