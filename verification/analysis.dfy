/**
 * `analyzeMenus`: per menu category, the records are grouped into screens,
 * each screen's menu becomes a pattern string, the most frequent pattern is
 * the standard, and every screen that differs from it gets a positional diff.
 */
module Analysis {
  import opened Wrappers
  import opened Text
  import opened Seqs
  import opened Categories
  import opened Scanner

  // ---------------------------------------------------------------------
  // Grouping records into screens: `_.groupBy(items, item => `${outlet}-${screen}`)`

  /** The grouping key of a record: `${item.outlet}-${item.screen}`. */
  function ScreenKey(r: MenuRecord): string
  {
    CellText(r.outlet) + "-" + r.screen
  }

  /** One screen: the key and the records under it, in order. */
  datatype Group = Group(key: string, members: seq<MenuRecord>)

  function KeysOf(items: seq<MenuRecord>): (ks: seq<string>)
    ensures |ks| == |items|
    ensures forall i :: 0 <= i < |items| ==> ks[i] == ScreenKey(items[i])
  {
    seq(|items|, i requires 0 <= i < |items| => ScreenKey(items[i]))
  }

  /** The records with key k, in order. */
  function WithKey(items: seq<MenuRecord>, k: string): seq<MenuRecord>
    decreases |items|
  {
    if items == [] then []
    else
      var last := items[|items| - 1];
      WithKey(items[..|items| - 1], k) + if ScreenKey(last) == k then [last] else []
  }

  lemma {:induction false} WithKeyMembers(items: seq<MenuRecord>, k: string)
    ensures forall r :: r in WithKey(items, k) <==> r in items && ScreenKey(r) == k
    decreases |items|
  {
    if items != [] {
      WithKeyMembers(items[..|items| - 1], k);
      assert items == items[..|items| - 1] + [items[|items| - 1]];
    }
  }

  /** `_.groupBy`: one group per distinct key, in order of first appearance. */
  function GroupBy(items: seq<MenuRecord>): seq<Group>
  {
    var ks := Distinct(KeysOf(items));
    seq(|ks|, i requires 0 <= i < |ks| => Group(ks[i], WithKey(items, ks[i])))
  }

  /**
   * Grouping partitions the records: keys are distinct, a group holds
   * exactly the records with its key (so same-named screens of one outlet
   * merge), every record's key has a group, and no group is empty.
   */
  lemma GroupByPartition(items: seq<MenuRecord>)
    ensures var gs := GroupBy(items);
      && (items == [] <==> gs == [])
      && (forall i, j :: 0 <= i < j < |gs| ==> gs[i].key != gs[j].key)
      && (forall i :: 0 <= i < |gs| ==> gs[i].members != [])
      && (forall i, r :: 0 <= i < |gs| ==> (r in gs[i].members <==> r in items && ScreenKey(r) == gs[i].key))
      && (forall r :: r in items ==> exists i :: 0 <= i < |gs| && gs[i].key == ScreenKey(r))
  {
    var gs := GroupBy(items);
    DistinctMembers(KeysOf(items));
    forall i | 0 <= i < |gs|
      ensures forall r :: r in gs[i].members <==> r in items && ScreenKey(r) == gs[i].key
      ensures gs[i].members != []
    {
      GroupMembers(items, i);
    }
    forall r | r in items
      ensures exists i :: 0 <= i < |gs| && gs[i].key == ScreenKey(r)
    {
      var i := GroupOf(items, r);
    }
    if items != [] {
      var i := GroupOf(items, items[0]);
    }
  }

  /** A group holds exactly the records with its key, and at least one. */
  lemma GroupMembers(items: seq<MenuRecord>, i: nat)
    requires i < |GroupBy(items)|
    ensures var g := GroupBy(items)[i];
      (forall r :: r in g.members <==> r in items && ScreenKey(r) == g.key) && g.members != []
  {
    var ks := KeysOf(items);
    var g := GroupBy(items)[i];
    DistinctMembers(ks);
    WithKeyMembers(items, g.key);
    assert g.key in ks;
    var n :| 0 <= n < |ks| && ks[n] == g.key;
    assert items[n] in g.members;
  }

  /**
   * A group holds its key's records in order and with their repetitions:
   * `idx` picks them out of `items` increasingly, and lists a record's
   * position exactly when the record has the group's key.
   */
  lemma GroupIndexed(items: seq<MenuRecord>, i: nat) returns (idx: seq<nat>)
    requires i < |GroupBy(items)|
    ensures var g := GroupBy(items)[i];
      && |idx| == |g.members|
      && (forall t, u :: 0 <= t < u < |idx| ==> idx[t] < idx[u])
      && (forall t :: 0 <= t < |idx| ==> idx[t] < |items| && g.members[t] == items[idx[t]])
      && (forall n :: 0 <= n < |items| ==> (n in idx <==> ScreenKey(items[n]) == g.key))
  {
    idx := WithKeyIndexed(items, GroupBy(items)[i].key);
  }

  /** The records with key k, picked out of `items` in order. */
  lemma {:induction false} WithKeyIndexed(items: seq<MenuRecord>, k: string) returns (idx: seq<nat>)
    ensures |idx| == |WithKey(items, k)|
    ensures forall t, u :: 0 <= t < u < |idx| ==> idx[t] < idx[u]
    ensures forall t :: 0 <= t < |idx| ==> idx[t] < |items| && WithKey(items, k)[t] == items[idx[t]]
    ensures forall n :: 0 <= n < |items| ==> (n in idx <==> ScreenKey(items[n]) == k)
    decreases |items|
  {
    if items == [] {
      idx := [];
    } else {
      var n := |items| - 1;
      var p := items[..n];
      var prev := WithKey(p, k);
      idx := WithKeyIndexed(p, k);
      assert forall m :: 0 <= m < n ==> p[m] == items[m];
      if ScreenKey(items[n]) == k {
        assert WithKey(items, k) == prev + [items[n]];
        idx := idx + [n];
      } else {
        assert WithKey(items, k) == prev;
      }
    }
  }

  /**
   * Groups come in the order their keys first appear: for i < j, the first
   * record with group i's key, at p, comes before the first with group j's, at q.
   */
  lemma GroupOrder(items: seq<MenuRecord>, i: nat, j: nat) returns (p: nat, q: nat)
    requires i < j < |GroupBy(items)|
    ensures p < q < |items|
    ensures ScreenKey(items[p]) == GroupBy(items)[i].key
    ensures forall n :: 0 <= n < p ==> ScreenKey(items[n]) != GroupBy(items)[i].key
    ensures ScreenKey(items[q]) == GroupBy(items)[j].key
    ensures forall n :: 0 <= n < q ==> ScreenKey(items[n]) != GroupBy(items)[j].key
  {
    var ks := KeysOf(items);
    p, q := DistinctFirstSeen(ks, i, j);
    forall n | 0 <= n < p
      ensures ScreenKey(items[n]) != GroupBy(items)[i].key
    {
      assert ks[..p][n] == ks[n];
    }
    forall n | 0 <= n < q
      ensures ScreenKey(items[n]) != GroupBy(items)[j].key
    {
      assert ks[..q][n] == ks[n];
    }
  }

  /** Every record's key has a group. */
  lemma GroupOf(items: seq<MenuRecord>, r: MenuRecord) returns (i: nat)
    requires r in items
    ensures i < |GroupBy(items)| && GroupBy(items)[i].key == ScreenKey(r)
  {
    var ks := KeysOf(items);
    DistinctMembers(ks);
    var n :| 0 <= n < |items| && items[n] == r;
    assert ks[n] in Distinct(ks);
    i :| 0 <= i < |Distinct(ks)| && Distinct(ks)[i] == ks[n];
  }

  // ---------------------------------------------------------------------
  // Screen patterns

  /** One screen's entry in `patterns`. */
  datatype ScreenPattern = ScreenPattern(
    screenId: string, outlet: Cell, screen: string, isExternal: bool, isRotating: bool, pattern: string)

  /** `${item.item}-${item.price}`. */
  function Token(r: MenuRecord): string
  {
    r.item + "-" + r.price
  }

  function Tokens(rs: seq<MenuRecord>): (ts: seq<string>)
    ensures |ts| == |rs|
    ensures forall i :: 0 <= i < |rs| ==> ts[i] == Token(rs[i])
  {
    seq(|rs|, i requires 0 <= i < |rs| => Token(rs[i]))
  }

  /** A screen's pattern: its item tokens joined with `|`; its flags come from its first record. */
  function PatternOf(g: Group): ScreenPattern
    requires g.members != []
  {
    var first := g.members[0];
    ScreenPattern(g.key, first.outlet, first.screen, first.isExternal, first.isRotating,
      Join(Tokens(g.members), '|'))
  }

  /** `patterns`: one per screen, in grouping order. */
  function Patterns(items: seq<MenuRecord>): (ps: seq<ScreenPattern>)
    ensures |ps| == |GroupBy(items)|
  {
    var gs := GroupBy(items);
    GroupByPartition(items);
    seq(|gs|, i requires 0 <= i < |gs| => PatternOf(gs[i]))
  }

  /** A screen's pattern is never the empty string: every token holds a `-`. */
  lemma PatternNotEmpty(g: Group)
    requires g.members != []
    ensures PatternOf(g).pattern != ""
  {
    JoinStartsWithFirst(Tokens(g.members), '|');
  }

  function PatternTexts(ps: seq<ScreenPattern>): (ss: seq<string>)
    ensures |ss| == |ps|
    ensures forall i :: 0 <= i < |ps| ==> ss[i] == ps[i].pattern
  {
    seq(|ps|, i requires 0 <= i < |ps| => ps[i].pattern)
  }

  // ---------------------------------------------------------------------
  // The standard pattern: `_.maxBy(Object.entries(_.countBy(patterns, 'pattern')), '[1]')`

  /** `_.countBy`: each distinct pattern with its number of screens, in order of first appearance. */
  function CountBy(ss: seq<string>): seq<(string, nat)>
  {
    var d := Distinct(ss);
    seq(|d|, i requires 0 <= i < |d| => (d[i], multiset(ss)[d[i]]))
  }

  function Counts(es: seq<(string, nat)>): (cs: seq<nat>)
    ensures |cs| == |es|
    ensures forall i :: 0 <= i < |es| ==> cs[i] == es[i].1
  {
    seq(|es|, i requires 0 <= i < |es| => es[i].1)
  }

  /** `_.maxBy(entries, '[1]')`: the first entry with the largest count; none for no entries. */
  function MaxBy(es: seq<(string, nat)>): Option<(string, nat)>
  {
    if es == [] then None else Some(es[FirstMax(Counts(es))])
  }

  /** The standard pattern of a list of patterns, if any. */
  function Standard(ss: seq<string>): Option<string>
  {
    var m := MaxBy(CountBy(ss));
    if m.Some? then Some(m.value.0) else None
  }

  /**
   * There is a standard exactly when there are patterns. It is one of them,
   * no pattern occurs more often, and every pattern met before its first
   * occurrence occurs strictly less often: on a tie the first seen wins.
   */
  lemma StandardIsMostFrequent(ss: seq<string>)
    ensures Standard(ss).None? <==> ss == []
    ensures Standard(ss).Some? ==>
      var p := Standard(ss).value;
      && p in ss
      && (forall q :: q in ss ==> multiset(ss)[q] <= multiset(ss)[p])
      && exists i :: 0 <= i < |ss| && ss[i] == p &&
           forall j :: 0 <= j < i ==> multiset(ss)[ss[j]] < multiset(ss)[p]
  {
    var d := Distinct(ss);
    var es := CountBy(ss);
    DistinctMembers(ss);
    if ss == [] {
      assert d == [];
    } else {
      assert ss[0] in d;
      var cs := Counts(es);
      var t := FirstMax(cs);
      var p := d[t];
      assert Standard(ss) == Some(p);
      forall q | q in ss
        ensures multiset(ss)[q] <= multiset(ss)[p]
      {
        var s :| 0 <= s < |d| && d[s] == q;
        assert cs[s] == multiset(ss)[q];
      }
      var i := FirstOccurrence(ss, p);
      DistinctPrefix(ss, i);
      var e := Distinct(ss[..i]);
      DistinctMembers(ss[..i]);
      assert p !in e;
      forall j | 0 <= j < i
        ensures multiset(ss)[ss[j]] < multiset(ss)[p]
      {
        assert ss[j] in ss[..i];
        var s :| 0 <= s < |e| && e[s] == ss[j];
        assert d[s] == ss[j];
        assert cs[s] < cs[t];
      }
    }
  }

  // ---------------------------------------------------------------------
  // The positional diff

  /** One entry of `differences`. */
  datatype Difference = Difference(expected: string, found: string)

  /** `items[i]`, absent past the end. */
  function TokenAt(ts: seq<string>, i: nat): Option<string>
  {
    if i < |ts| then Some(ts[i]) else None
  }

  /** `t || 'missing'`: an absent or empty token shows as "missing". */
  function OrMissing(t: Option<string>): string
  {
    if t.Some? && t.value != "" then t.value else "missing"
  }

  function Max(a: nat, b: nat): nat
  {
    if a < b then b else a
  }

  /** The entry reported for index i. */
  function Entry(current: seq<string>, standard: seq<string>, i: nat): Difference
  {
    Difference(OrMissing(TokenAt(standard, i)), OrMissing(TokenAt(current, i)))
  }

  /** The entries for the indices below n at which the tokens differ, in index order. */
  function DiffPrefix(current: seq<string>, standard: seq<string>, n: nat): seq<Difference>
    decreases n
  {
    if n == 0 then []
    else
      DiffPrefix(current, standard, n - 1) +
      if TokenAt(current, n - 1) != TokenAt(standard, n - 1) then [Entry(current, standard, n - 1)] else []
  }

  /** The `differences` of a screen whose tokens are `current`. */
  function Differences(current: seq<string>, standard: seq<string>): seq<Difference>
  {
    DiffPrefix(current, standard, Max(|current|, |standard|))
  }

  lemma {:induction false} DiffPrefixFacts(current: seq<string>, standard: seq<string>, n: nat)
    ensures |DiffPrefix(current, standard, n)| <= n
    ensures DiffPrefix(current, standard, n) == [] <==>
      forall i :: 0 <= i < n ==> TokenAt(current, i) == TokenAt(standard, i)
    ensures forall d :: d in DiffPrefix(current, standard, n) <==>
      exists i :: 0 <= i < n && TokenAt(current, i) != TokenAt(standard, i) && d == Entry(current, standard, i)
    decreases n
  {
    if n > 0 {
      DiffPrefixFacts(current, standard, n - 1);
    }
  }

  /**
   * The diff has at most `max(len)` entries; it is empty exactly when the
   * two token lists are equal; and its entries are exactly those for the
   * indices below `max(len)` at which the tokens differ.
   */
  lemma DiffProperties(current: seq<string>, standard: seq<string>)
    ensures |Differences(current, standard)| <= Max(|current|, |standard|)
    ensures Differences(current, standard) == [] <==> current == standard
    ensures forall d :: d in Differences(current, standard) <==>
      exists i :: 0 <= i < Max(|current|, |standard|) &&
        TokenAt(current, i) != TokenAt(standard, i) && d == Entry(current, standard, i)
  {
    var n := Max(|current|, |standard|);
    DiffPrefixFacts(current, standard, n);
    if forall i :: 0 <= i < n ==> TokenAt(current, i) == TokenAt(standard, i) {
      SameTokens(current, standard);
    }
  }

  /**
   * The diff holds one entry per differing index, in index order: `idx`
   * lists those indices increasingly, entry t is the one for index `idx[t]`,
   * and every index below n at which the tokens differ is listed.
   */
  lemma {:induction false} DiffPrefixIndexed(current: seq<string>, standard: seq<string>, n: nat)
    returns (idx: seq<nat>)
    ensures |idx| == |DiffPrefix(current, standard, n)|
    ensures forall t, u :: 0 <= t < u < |idx| ==> idx[t] < idx[u]
    ensures forall t :: 0 <= t < |idx| ==>
      idx[t] < n && TokenAt(current, idx[t]) != TokenAt(standard, idx[t]) &&
      DiffPrefix(current, standard, n)[t] == Entry(current, standard, idx[t])
    ensures forall i :: 0 <= i < n && TokenAt(current, i) != TokenAt(standard, i) ==> i in idx
    decreases n
  {
    if n == 0 {
      idx := [];
    } else {
      var prev := DiffPrefix(current, standard, n - 1);
      idx := DiffPrefixIndexed(current, standard, n - 1);
      if TokenAt(current, n - 1) != TokenAt(standard, n - 1) {
        assert DiffPrefix(current, standard, n) == prev + [Entry(current, standard, n - 1)];
        idx := idx + [n - 1];
      } else {
        assert DiffPrefix(current, standard, n) == prev;
      }
    }
  }

  /**
   * `differences` has exactly one entry for each index below `max(len)` at
   * which the tokens differ, in index order.
   */
  lemma DiffIndexed(current: seq<string>, standard: seq<string>) returns (idx: seq<nat>)
    ensures |idx| == |Differences(current, standard)|
    ensures forall t, u :: 0 <= t < u < |idx| ==> idx[t] < idx[u]
    ensures forall t :: 0 <= t < |idx| ==>
      idx[t] < Max(|current|, |standard|) && TokenAt(current, idx[t]) != TokenAt(standard, idx[t]) &&
      Differences(current, standard)[t] == Entry(current, standard, idx[t])
    ensures forall i :: 0 <= i < Max(|current|, |standard|) && TokenAt(current, i) != TokenAt(standard, i) ==> i in idx
  {
    idx := DiffPrefixIndexed(current, standard, Max(|current|, |standard|));
  }

  lemma SameTokens(current: seq<string>, standard: seq<string>)
    requires forall i :: 0 <= i < Max(|current|, |standard|) ==> TokenAt(current, i) == TokenAt(standard, i)
    ensures current == standard
  {
    var m := if |current| < |standard| then |current| else |standard|;
    assert m == Max(|current|, |standard|) || TokenAt(current, m) == TokenAt(standard, m);
    forall i | 0 <= i < |current|
      ensures current[i] == standard[i]
    {
      assert TokenAt(current, i) == TokenAt(standard, i);
    }
  }

  /** Two lists of equal length that differ at one index only give exactly one entry. */
  lemma {:induction false} DiffSingle(current: seq<string>, standard: seq<string>, k: nat)
    requires |current| == |standard| && k < |current| && current[k] != standard[k]
    requires forall i :: 0 <= i < |current| && i != k ==> current[i] == standard[i]
    ensures Differences(current, standard) == [Difference(OrMissing(Some(standard[k])), OrMissing(Some(current[k])))]
  {
    var n := |current|;
    assert Max(|current|, |standard|) == n;
    DiffPrefixFacts(current, standard, k);
    assert DiffPrefix(current, standard, k) == [];
    assert DiffPrefix(current, standard, k + 1) == [Entry(current, standard, k)];
    DiffPrefixUnchanged(current, standard, k + 1, n);
  }

  /** Indices at which the tokens agree add no entry. */
  lemma {:induction false} DiffPrefixUnchanged(current: seq<string>, standard: seq<string>, m: nat, n: nat)
    requires m <= n
    requires forall i :: m <= i < n ==> TokenAt(current, i) == TokenAt(standard, i)
    ensures DiffPrefix(current, standard, n) == DiffPrefix(current, standard, m)
    decreases n - m
  {
    if m < n {
      DiffPrefixUnchanged(current, standard, m, n - 1);
      assert TokenAt(current, n - 1) == TokenAt(standard, n - 1);
    }
  }

  /** The loop of the discrepancy callback: one entry per differing index, up to `max(len)`. */
  method PositionalDiff(current: seq<string>, standard: seq<string>) returns (differences: seq<Difference>)
    ensures differences == Differences(current, standard)
    ensures |differences| <= Max(|current|, |standard|)
    ensures differences == [] <==> current == standard
  {
    differences := [];
    var maxLength := Max(|current|, |standard|);
    for i := 0 to maxLength
      invariant differences == DiffPrefix(current, standard, i)
    {
      if TokenAt(current, i) != TokenAt(standard, i) {
        differences := differences + [Difference(OrMissing(TokenAt(standard, i)), OrMissing(TokenAt(current, i)))];
      }
    }
    DiffProperties(current, standard);
  }

  // ---------------------------------------------------------------------
  // The report of one category

  /** One entry of `discrepancies`. */
  datatype Discrepancy = Discrepancy(
    outlet: Cell, screen: string, isExternal: bool, isRotating: bool, differences: seq<Difference>)

  /** One entry of `standardItems`: `const [name, price] = token.split('-')`. */
  datatype StandardItem = StandardItem(name: string, price: Option<string>)

  /** The report for a screen whose pattern is not the standard. */
  function DiscrepancyOf(p: ScreenPattern, standard: string): Discrepancy
  {
    Discrepancy(p.outlet, p.screen, p.isExternal, p.isRotating,
      Differences(Split(p.pattern, '|'), Split(standard, '|')))
  }

  function ItemOf(token: string): StandardItem
  {
    var parts := Split(token, '-');
    StandardItem(parts[0], if |parts| > 1 then Some(parts[1]) else None)
  }

  /** `standardPattern.split('|').map(...)`. */
  function StandardItems(standard: string): seq<StandardItem>
  {
    var ts := Split(standard, '|');
    seq(|ts|, i requires 0 <= i < |ts| => ItemOf(ts[i]))
  }

  /** `patterns.filter(p => p.pattern === standard)`. */
  function Matching(ps: seq<ScreenPattern>, standard: string): seq<ScreenPattern>
    decreases |ps|
  {
    if ps == [] then []
    else
      var last := ps[|ps| - 1];
      Matching(ps[..|ps| - 1], standard) + if last.pattern == standard then [last] else []
  }

  /** `patterns.filter(p => p.pattern !== standard)`. */
  function Discrepant(ps: seq<ScreenPattern>, standard: string): seq<ScreenPattern>
    decreases |ps|
  {
    if ps == [] then []
    else
      var last := ps[|ps| - 1];
      Discrepant(ps[..|ps| - 1], standard) + if last.pattern != standard then [last] else []
  }

  /** The two filters split the patterns: each lands in exactly one, by its pattern. */
  lemma {:induction false} FilterPartition(ps: seq<ScreenPattern>, standard: string)
    ensures multiset(Matching(ps, standard)) + multiset(Discrepant(ps, standard)) == multiset(ps)
    ensures forall p :: p in Matching(ps, standard) <==> p in ps && p.pattern == standard
    ensures forall p :: p in Discrepant(ps, standard) <==> p in ps && p.pattern != standard
    decreases |ps|
  {
    if ps != [] {
      FilterPartition(ps[..|ps| - 1], standard);
      assert ps == ps[..|ps| - 1] + [ps[|ps| - 1]];
    }
  }

  function Reports(ps: seq<ScreenPattern>, standard: string): (ds: seq<Discrepancy>)
    ensures |ds| == |ps|
    ensures forall i :: 0 <= i < |ps| ==> ds[i] == DiscrepancyOf(ps[i], standard)
  {
    seq(|ps|, i requires 0 <= i < |ps| => DiscrepancyOf(ps[i], standard))
  }

  /** `analysis[category]`. */
  datatype CategoryAnalysis = CategoryAnalysis(
    matching: seq<ScreenPattern>, discrepancies: seq<Discrepancy>, standardItems: seq<StandardItem>)

  /** The analysis of one category's records; none when there is no (truthy) standard. */
  function AnalyzeCategory(items: seq<MenuRecord>): Option<CategoryAnalysis>
  {
    var ps := Patterns(items);
    var standard := Standard(PatternTexts(ps));
    if standard.Some? && standard.value != "" then
      Some(CategoryAnalysis(
        Matching(ps, standard.value),
        Reports(Discrepant(ps, standard.value), standard.value),
        StandardItems(standard.value)))
    else None
  }

  /** A category is in the analysis exactly when it has records. */
  lemma CategoryPresentIff(items: seq<MenuRecord>)
    ensures AnalyzeCategory(items).Some? <==> items != []
  {
    var gs := GroupBy(items);
    var ps := Patterns(items);
    var ss := PatternTexts(ps);
    GroupByPartition(items);
    StandardIsMostFrequent(ss);
    if items != [] {
      var p := Standard(ss).value;
      var i :| 0 <= i < |ss| && ss[i] == p;
      PatternNotEmpty(gs[i]);
    }
  }

  /** A category with records has a standard, and it is the pattern of one of its screens. */
  lemma StandardOfScreen(items: seq<MenuRecord>) returns (k: nat)
    requires items != []
    ensures Standard(PatternTexts(Patterns(items))).Some?
    ensures k < |Patterns(items)| && k < |GroupBy(items)| && GroupBy(items)[k].members != []
    ensures Patterns(items)[k] == PatternOf(GroupBy(items)[k])
    ensures Patterns(items)[k].pattern == Standard(PatternTexts(Patterns(items))).value
  {
    var ss := PatternTexts(Patterns(items));
    GroupByPartition(items);
    StandardIsMostFrequent(ss);
    k :| 0 <= k < |ss| && ss[k] == Standard(ss).value;
  }

  /** Every discrepant screen's report lists at least one difference: split is injective. */
  lemma ReportsNotEmpty(ps: seq<ScreenPattern>, s: string)
    ensures forall d :: d in Reports(Discrepant(ps, s), s) ==> d.differences != []
  {
    var dp := Discrepant(ps, s);
    FilterPartition(ps, s);
    forall d | d in Reports(dp, s)
      ensures d.differences != []
    {
      var j :| 0 <= j < |dp| && Reports(dp, s)[j] == d;
      assert dp[j] in dp;
      JoinSplit(dp[j].pattern, '|');
      JoinSplit(s, '|');
      DiffProperties(Split(dp[j].pattern, '|'), Split(s, '|'));
    }
  }

  /**
   * With standard pattern s: `matching` holds exactly the screens whose
   * pattern is s (at least one), every other screen has one discrepancy
   * entry, in screen order, and that entry lists at least one difference.
   */
  lemma ScreensPartition(items: seq<MenuRecord>, s: string)
    requires Standard(PatternTexts(Patterns(items))) == Some(s)
    ensures AnalyzeCategory(items).Some?
    ensures var a := AnalyzeCategory(items).value;
      var ps := Patterns(items);
      && (forall p :: p in a.matching <==> p in ps && p.pattern == s)
      && a.matching != []
      && multiset(a.matching) + multiset(Discrepant(ps, s)) == multiset(ps)
      && |a.matching| + |a.discrepancies| == |ps|
      && a.discrepancies == Reports(Discrepant(ps, s), s)
      && (forall d :: d in a.discrepancies ==> d.differences != [])
  {
    var ps := Patterns(items);
    StandardIsMostFrequent(PatternTexts(ps));
    CategoryPresentIff(items);
    var k := StandardOfScreen(items);
    FilterPartition(ps, s);
    assert ps[k] in Matching(ps, s);
    var a := AnalyzeCategory(items).value;
    assert a.matching == Matching(ps, s);
    assert |multiset(ps)| == |a.matching| + |Discrepant(ps, s)|;
    ReportsNotEmpty(ps, s);
  }

  /** When every screen of a category has the same pattern, all match and none is discrepant. */
  lemma UniformCategory(items: seq<MenuRecord>)
    requires items != []
    requires forall i, j :: 0 <= i < j < |Patterns(items)| ==> Patterns(items)[i].pattern == Patterns(items)[j].pattern
    ensures AnalyzeCategory(items).Some?
    ensures AnalyzeCategory(items).value.matching == Patterns(items)
    ensures AnalyzeCategory(items).value.discrepancies == []
  {
    var ps := Patterns(items);
    var ss := PatternTexts(ps);
    StandardIsMostFrequent(ss);
    CategoryPresentIff(items);
    var s := Standard(ss).value;
    AllMatch(ps, s);
  }

  lemma {:induction false} AllMatch(ps: seq<ScreenPattern>, s: string)
    requires s in PatternTexts(ps)
    requires forall i, j :: 0 <= i < j < |ps| ==> ps[i].pattern == ps[j].pattern
    ensures forall p :: p in ps ==> p.pattern == s
    ensures Matching(ps, s) == ps && Discrepant(ps, s) == []
  {
    var k :| 0 <= k < |ps| && ps[k].pattern == s;
    assert forall i :: 0 <= i < |ps| ==> ps[i].pattern == s by {
      forall i | 0 <= i < |ps|
        ensures ps[i].pattern == s
      {
        if i < k {
          assert ps[i].pattern == ps[k].pattern;
        } else if k < i {
          assert ps[k].pattern == ps[i].pattern;
        }
      }
    }
    FiltersOfUniform(ps, s);
  }

  lemma {:induction false} FiltersOfUniform(ps: seq<ScreenPattern>, s: string)
    requires forall i :: 0 <= i < |ps| ==> ps[i].pattern == s
    ensures Matching(ps, s) == ps && Discrepant(ps, s) == []
    decreases |ps|
  {
    if ps != [] {
      FiltersOfUniform(ps[..|ps| - 1], s);
      assert ps == ps[..|ps| - 1] + [ps[|ps| - 1]];
    }
  }

  // ---------------------------------------------------------------------
  // standardItems

  /** A name or price that the `-`/`|` encoding carries intact. */
  predicate Plain(s: string)
  {
    '-' !in s && '|' !in s
  }

  /**
   * Splitting a screen's pattern back into `{name, price}` pairs recovers
   * its records' items and prices when none of them holds `-` or `|`.
   */
  lemma StandardItemsRoundTrip(rs: seq<MenuRecord>)
    requires rs != []
    requires forall i :: 0 <= i < |rs| ==> Plain(rs[i].item) && Plain(rs[i].price)
    ensures StandardItems(Join(Tokens(rs), '|')) ==
      seq(|rs|, i requires 0 <= i < |rs| => StandardItem(rs[i].item, Some(rs[i].price)))
  {
    var ts := Tokens(rs);
    forall i | 0 <= i < |ts|
      ensures '|' !in ts[i]
    {
      assert ts[i] == rs[i].item + "-" + rs[i].price;
    }
    SplitJoin(ts, '|');
    forall i | 0 <= i < |rs|
      ensures ItemOf(ts[i]) == StandardItem(rs[i].item, Some(rs[i].price))
    {
      var parts := [rs[i].item, rs[i].price];
      assert Join(parts, '-') == ts[i];
      SplitJoin(parts, '-');
    }
  }

  /** The token of an item named "a-b" splits on `-` into name a and price b. */
  lemma ItemOfHyphenated(r: MenuRecord, a: string, b: string)
    requires r.item == a + "-" + b
    requires Plain(a) && Plain(b) && Plain(r.price)
    ensures ItemOf(Token(r)) == StandardItem(a, Some(b))
  {
    var token := Token(r);
    assert token == a + ['-'] + (b + ['-'] + r.price);
    SplitPiece(a, b + ['-'] + r.price, '-');
    SplitPiece(b, r.price, '-');
    assert Split(token, '-')[..2] == [a, b];
  }

  /**
   * A hyphen inside an item name is read as the end of the name: when the
   * record at position i of a screen is named "a-b", entry i of its
   * standard items is {name: a, price: b}, whatever the other records are,
   * as long as none holds the bar separator.
   */
  lemma HyphenatedNameMisread(rs: seq<MenuRecord>, i: nat, a: string, b: string)
    requires i < |rs|
    requires forall k :: 0 <= k < |rs| ==> '|' !in rs[k].item && '|' !in rs[k].price
    requires rs[i].item == a + "-" + b
    requires Plain(a) && Plain(b) && Plain(rs[i].price)
    ensures |StandardItems(Join(Tokens(rs), '|'))| == |rs|
    ensures StandardItems(Join(Tokens(rs), '|'))[i] == StandardItem(a, Some(b))
  {
    var ts := Tokens(rs);
    forall k | 0 <= k < |ts|
      ensures '|' !in ts[k]
    {
      assert ts[k] == rs[k].item + "-" + rs[k].price;
    }
    SplitJoin(ts, '|');
    ItemOfHyphenated(rs[i], a, b);
  }

  /**
   * With plain names and prices, `standardItems` lists exactly the items and
   * prices of some screen of the category whose pattern is the standard.
   */
  lemma StandardItemsOfCategory(items: seq<MenuRecord>) returns (k: nat)
    requires items != []
    requires forall i :: 0 <= i < |items| ==> Plain(items[i].item) && Plain(items[i].price)
    ensures AnalyzeCategory(items).Some?
    ensures k < |GroupBy(items)| && GroupBy(items)[k].members != []
    ensures PatternOf(GroupBy(items)[k]) in AnalyzeCategory(items).value.matching
    ensures var g := GroupBy(items)[k];
      AnalyzeCategory(items).value.standardItems ==
        seq(|g.members|, i requires 0 <= i < |g.members| => StandardItem(g.members[i].item, Some(g.members[i].price)))
  {
    var ps := Patterns(items);
    k := StandardOfScreen(items);
    var s := ps[k].pattern;
    var g := GroupBy(items)[k];
    PatternNotEmpty(g);
    PlainMembers(items, k);
    StandardItemsRoundTrip(g.members);
    FilterPartition(ps, s);
    var a := AnalyzeCategory(items).value;
    assert a.matching == Matching(ps, s) && a.standardItems == StandardItems(s);
    assert ps[k] == PatternOf(g) && ps[k] in ps;
  }

  lemma PlainMembers(items: seq<MenuRecord>, k: nat)
    requires k < |GroupBy(items)|
    requires forall i :: 0 <= i < |items| ==> Plain(items[i].item) && Plain(items[i].price)
    ensures forall r :: r in GroupBy(items)[k].members ==> Plain(r.item) && Plain(r.price)
  {
    GroupByPartition(items);
    forall r | r in GroupBy(items)[k].members
      ensures Plain(r.item) && Plain(r.price)
    {
      assert r in items;
      var i :| 0 <= i < |items| && items[i] == r;
    }
  }

  // ---------------------------------------------------------------------
  // The whole analysis

  /**
   * The body of the `analyzeMenus` callback for one category: the report, or
   * none when the standard pattern is not truthy.
   */
  method AnalyzeOneCategory(items: seq<MenuRecord>) returns (result: Option<CategoryAnalysis>)
    ensures result == AnalyzeCategory(items)
  {
    var patterns := Patterns(items);
    var standardPattern := Standard(PatternTexts(patterns));
    if standardPattern.Some? && standardPattern.value != "" {
      var standard := standardPattern.value;
      var matching := Matching(patterns, standard);
      var discrepant := Discrepant(patterns, standard);
      var discrepancies: seq<Discrepancy> := [];
      for j := 0 to |discrepant|
        invariant |discrepancies| == j
        invariant forall i :: 0 <= i < j ==> discrepancies[i] == DiscrepancyOf(discrepant[i], standard)
      {
        var p := discrepant[j];
        var currentItems := Split(p.pattern, '|');
        var standardItems := Split(standard, '|');
        var differences := PositionalDiff(currentItems, standardItems);
        discrepancies := discrepancies + [Discrepancy(p.outlet, p.screen, p.isExternal, p.isRotating, differences)];
      }
      assert discrepancies == Reports(discrepant, standard);
      result := Some(CategoryAnalysis(matching, discrepancies, StandardItems(standard)));
    } else {
      result := None;
    }
  }

  /**
   * `analyzeMenus`: the categories are visited in order, and a category gets
   * an entry exactly when it has records, the entry its analysis.
   */
  method AnalyzeMenus(menus: map<Category, seq<MenuRecord>>) returns (analysis: map<Category, CategoryAnalysis>)
    ensures forall c :: c in analysis <==> c in menus && menus[c] != []
    ensures forall c :: c in analysis ==> AnalyzeCategory(menus[c]) == Some(analysis[c])
  {
    analysis := map[];
    for k := 0 to |AllCategories|
      invariant forall c :: c in analysis <==> c in AllCategories[..k] && c in menus && menus[c] != []
      invariant forall c :: c in analysis ==> AnalyzeCategory(menus[c]) == Some(analysis[c])
    {
      var category := AllCategories[k];
      assert AllCategories[..k + 1] == AllCategories[..k] + [category];
      if category in menus {
        var result := AnalyzeOneCategory(menus[category]);
        CategoryPresentIff(menus[category]);
        if result.Some? {
          analysis := analysis[category := result.value];
        }
      }
    }
    forall c: Category
      ensures c in AllCategories
    {
      match c
      case HotFood =>
      case ColdFood =>
      case Drinks =>
      case Snacks =>
      case Other =>
    }
    assert AllCategories[..|AllCategories|] == AllCategories;
  }
}
