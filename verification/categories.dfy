/**
 * `categorizeMenuItem`: an item name is sorted into a menu category by a
 * case-insensitive keyword search through a fixed table, first match wins.
 */
module Categories {
  import opened Text

  /** The keys of `menusByCategory`; `Other` takes items no keyword matches. */
  datatype Category = HotFood | ColdFood | Drinks | Snacks | Other

  /** The keys of `menusByCategory` in the order they are created and listed. */
  const AllCategories: seq<Category> := [HotFood, ColdFood, Drinks, Snacks, Other]

  /** One line of the keyword table. */
  datatype Entry = Entry(category: Category, keywords: seq<string>)

  const HotFoodKeywords: seq<string> := ["chips", "burger", "hot dog", "pie", "chicken", "fish"]
  const ColdFoodKeywords: seq<string> := ["sandwich", "wrap", "sushi", "salad"]
  const DrinksKeywords: seq<string> := ["water", "coca cola", "juice", "powerade"]
  const SnacksKeywords: seq<string> := ["ice cream", "chocolate", "chips", "lollies"]

  /** The keyword table, in its declared order; "chips" appears under two categories. */
  const MenuCategories: seq<Entry> := [
    Entry(HotFood, HotFoodKeywords),
    Entry(ColdFood, ColdFoodKeywords),
    Entry(Drinks, DrinksKeywords),
    Entry(Snacks, SnacksKeywords)
  ]

  /** `keywords.some(keyword => lower.includes(keyword))`. */
  predicate AnyKeyword(keywords: seq<string>, lower: string)
  {
    exists k | k in keywords :: Contains(lower, k)
  }

  /** The search loop: the first entry whose keywords match, else `Other`. */
  function FirstMatch(table: seq<Entry>, lower: string): Category
    decreases |table|
  {
    if table == [] then Other
    else if AnyKeyword(table[0].keywords, lower) then table[0].category
    else FirstMatch(table[1..], lower)
  }

  /**
   * The search returns the category of the first entry whose keywords
   * match, and `Other` when no entry matches.
   */
  lemma {:induction false} FirstMatchSpec(table: seq<Entry>, lower: string)
    ensures (forall i :: 0 <= i < |table| ==> !AnyKeyword(table[i].keywords, lower)) ==>
      FirstMatch(table, lower) == Other
    ensures (exists i :: 0 <= i < |table| && AnyKeyword(table[i].keywords, lower)) ==>
      exists i :: 0 <= i < |table| && FirstMatch(table, lower) == table[i].category &&
        AnyKeyword(table[i].keywords, lower) &&
        forall j :: 0 <= j < i ==> !AnyKeyword(table[j].keywords, lower)
    decreases |table|
  {
    if table != [] && !AnyKeyword(table[0].keywords, lower) {
      FirstMatchSpec(table[1..], lower);
      assert forall i :: 1 <= i < |table| ==> table[1..][i - 1] == table[i];
    }
  }

  /** `categorizeMenuItem(item)`. */
  function Categorize(item: string): Category
  {
    FirstMatch(MenuCategories, Lower(item))
  }

  /**
   * The category chosen is decided by the table order: a name goes to the
   * first category, in the order Hot Food, Cold Food, Drinks, Snacks, whose
   * keyword list has a case-insensitive substring of it, and to `Other` when
   * none has.
   */
  lemma CategorizeFirstMatch(item: string)
    ensures var l := Lower(item);
      && (Categorize(item) == HotFood <==> AnyKeyword(HotFoodKeywords, l))
      && (Categorize(item) == ColdFood <==>
            !AnyKeyword(HotFoodKeywords, l) && AnyKeyword(ColdFoodKeywords, l))
      && (Categorize(item) == Drinks <==>
            !AnyKeyword(HotFoodKeywords, l) && !AnyKeyword(ColdFoodKeywords, l) &&
            AnyKeyword(DrinksKeywords, l))
      && (Categorize(item) == Snacks <==>
            !AnyKeyword(HotFoodKeywords, l) && !AnyKeyword(ColdFoodKeywords, l) &&
            !AnyKeyword(DrinksKeywords, l) && AnyKeyword(SnacksKeywords, l))
      && (Categorize(item) == Other <==>
            !AnyKeyword(HotFoodKeywords, l) && !AnyKeyword(ColdFoodKeywords, l) &&
            !AnyKeyword(DrinksKeywords, l) && !AnyKeyword(SnacksKeywords, l))
  {
    var l := Lower(item);
    var t := MenuCategories;
    assert t[0] == Entry(HotFood, HotFoodKeywords);
    assert t[1..][0] == Entry(ColdFood, ColdFoodKeywords);
    assert t[1..][1..][0] == Entry(Drinks, DrinksKeywords);
    assert t[1..][1..][1..][0] == Entry(Snacks, SnacksKeywords);
    assert t[1..][1..][1..][1..] == [];
    assert FirstMatch(t[1..][1..][1..][1..], l) == Other;
    assert FirstMatch(t[1..][1..][1..], l) ==
      if AnyKeyword(SnacksKeywords, l) then Snacks else Other;
    assert FirstMatch(t[1..][1..], l) ==
      if AnyKeyword(DrinksKeywords, l) then Drinks else FirstMatch(t[1..][1..][1..], l);
    assert FirstMatch(t[1..], l) ==
      if AnyKeyword(ColdFoodKeywords, l) then ColdFood else FirstMatch(t[1..][1..], l);
  }

  /** A name holding "chips" in any case is Hot Food, never Snacks. */
  lemma ChipsAreHotFood(item: string)
    requires HasIgnoringCase(item, "chips")
    ensures Categorize(item) == HotFood
  {
    ContainsLower(item, "chips");
    assert "chips" in HotFoodKeywords;
    CategorizeFirstMatch(item);
  }
}
