/**
 Pipeline aggregates: the deals of a pipeline grouped by stage and currency, collected per stage. Weighted
 amounts are kept exactly, in hundredths, and rounded once per group.
 */
module StageStats {
  import opened Wrappers
  import opened JsonText

  datatype Deal = Deal(pipeline: Text, stage: Text, currency: Text, amount: Option<int>, probability: Option<int>,
        archived: bool)

  /** The probability of each stage, where it has one. */
  type Stages = map<Text, Option<int>>

  datatype Query = Query(deals: seq<Deal>, pipeline: Text, stages: Stages)

  /** One row of the query: a group's count, its total, and a hundred times its weighted total. */
  datatype Group = Group(stage: Text, currency: Text, n: int, total: int, weighted: int)

  datatype Entry = Entry(stage: Text, count: int, sums: map<Text, int>, weighted: map<Text, int>)

  // --- The query ----------------------------------------------------------------

  /** Unarchived, in the pipeline, and with a stage that exists. */
  predicate Counts(q: Query, d: Deal) { d.pipeline == q.pipeline && !d.archived && d.stage in q.stages }

  function Amount(d: Deal): int { if d.amount.Some? then d.amount.value else 0 }

  /** The deal's own probability, else its stage's, else none. */
  function Probability(q: Query, d: Deal): int {
    if d.probability.Some? then d.probability.value
    else if d.stage in q.stages && q.stages[d.stage].Some? then q.stages[d.stage].value else 0
  }

  /** The three aggregates: COUNT, the sum of amounts, the sum of weighted amounts. */
  datatype Measure = Ones | Amounts | Weights

  function Value(q: Query, d: Deal, m: Measure): int {
    match m case Ones => 1 case Amounts => Amount(d) case Weights => Amount(d) * Probability(q, d)
  }

  /** The aggregate of one group over the first `n` deals. */
  function GroupSum(q: Query, n: nat, stage: Text, currency: Text, m: Measure): int
    requires n <= |q.deals|
  {
    if n == 0 then 0
    else
      var d := q.deals[n - 1];
      GroupSum(q, n - 1, stage, currency, m) +
      if Counts(q, d) && d.stage == stage && d.currency == currency then Value(q, d, m) else 0
  }

  predicate Distinct(groups: seq<Group>) {
    forall i, j :: 0 <= i < j < |groups| ==>
      groups[i].stage != groups[j].stage || groups[i].currency != groups[j].currency
  }

  predicate Has(groups: seq<Group>, stage: Text, currency: Text) {
    exists i :: 0 <= i < |groups| && groups[i].stage == stage && groups[i].currency == currency
  }

  /** One row per stage and currency that occur. */
  predicate Covers(q: Query, groups: seq<Group>) {
    Distinct(groups) && forall k :: 0 <= k < |q.deals| && Counts(q, q.deals[k]) ==>
      Has(groups, q.deals[k].stage, q.deals[k].currency)
  }

  predicate Aggregates(q: Query, g: Group) {
    && g.n == GroupSum(q, |q.deals|, g.stage, g.currency, Ones)
    && g.total == GroupSum(q, |q.deals|, g.stage, g.currency, Amounts)
    && g.weighted == GroupSum(q, |q.deals|, g.stage, g.currency, Weights)
  }

  /** What GROUP BY returns, in whatever order. */
  predicate IsAnswer(q: Query, groups: seq<Group>) {
    Covers(q, groups) && forall i :: 0 <= i < |groups| ==> Aggregates(q, groups[i]) && groups[i].n > 0
  }

  // --- The collection per stage -------------------------------------------------

  /** Half up, as Math.round does, from hundredths. */
  function Rounded(hundredths: int): int { (hundredths + 50) / 100 }

  function At(sums: map<Text, int>, currency: Text): int { if currency in sums then sums[currency] else 0 }

  /** Among the first `n` entries, the place of the stage. */
  function Find(entries: seq<Entry>, n: nat, stage: Text): (r: Option<nat>)
    requires n <= |entries|
    ensures r.Some? ==> r.value < n && entries[r.value].stage == stage
    ensures r.None? ==> forall i :: 0 <= i < n ==> entries[i].stage != stage
  {
    if n == 0 then None else if entries[n - 1].stage == stage then Some(n - 1) else Find(entries, n - 1, stage)
  }

  function WithGroup(e: Entry, g: Group): Entry {
    Entry(e.stage, e.count + g.n,
          if g.total > 0 then e.sums[g.currency := At(e.sums, g.currency) + g.total] else e.sums,
          if g.weighted > 0 then e.weighted[g.currency := At(e.weighted, g.currency) + Rounded(g.weighted)]
            else e.weighted)
  }

  /** A choice of stage and of currency; none means all. */
  datatype Filter = Filter(stage: Option<Text>, currency: Option<Text>)
  {
    predicate Admits(s: Text, c: Text) {
      (stage.Some? ==> stage.value == s) && (currency.Some? ==> currency.value == c)
    }
  }

  /** What a group adds to an answer's total. */
  function Brings(g: Group, m: Measure): int {
    match m
    case Ones => g.n
    case Amounts => if g.total > 0 then g.total else 0
    case Weights => if g.weighted > 0 then Rounded(g.weighted) else 0
  }

  /** What the first `n` groups of a choice bring. */
  function Brought(groups: seq<Group>, n: nat, f: Filter, m: Measure): int
    requires n <= |groups|
  {
    if n == 0 then 0
    else Brought(groups, n - 1, f, m) + if f.Admits(groups[n - 1].stage, groups[n - 1].currency)
      then Brings(groups[n - 1], m) else 0
  }

  /**
   The entry of a stage holds what the stage's groups among the first `n` brought, and so does each currency in
   it.
   */
  ghost predicate EntryFits(groups: seq<Group>, n: nat, e: Entry)
    requires n <= |groups|
  {
    && e.count == Brought(groups, n, Filter(Some(e.stage), None), Ones)
    && (forall c :: At(e.sums, c) == Brought(groups, n, Filter(Some(e.stage), Some(c)), Amounts))
    && (forall c :: At(e.weighted, c) == Brought(groups, n, Filter(Some(e.stage), Some(c)), Weights))
    && (forall c :: c in e.sums <==> Occupied(groups, n, e.stage, c, Amounts))
    && (forall c :: c in e.weighted <==> Occupied(groups, n, e.stage, c, Weights))
  }

  /** Some group of the stage and currency has a positive total: only such a currency appears in the answer. */
  predicate Occupied(groups: seq<Group>, n: nat, stage: Text, currency: Text, m: Measure)
    requires n <= |groups|
  {
    exists i :: 0 <= i < n && IsPositive(groups[i], stage, currency, m)
  }

  predicate IsPositive(g: Group, stage: Text, currency: Text, m: Measure) {
    g.stage == stage && g.currency == currency && (if m.Amounts? then g.total else g.weighted) > 0
  }

  predicate StagesDistinct(entries: seq<Entry>) {
    forall i, j :: 0 <= i < j < |entries| ==> entries[i].stage != entries[j].stage
  }

  predicate HasStage(entries: seq<Entry>, stage: Text) { exists k :: 0 <= k < |entries| && entries[k].stage == stage }

  predicate Occurs(groups: seq<Group>, n: nat, stage: Text)
    requires n <= |groups|
  {
    exists i :: 0 <= i < n && groups[i].stage == stage
  }

  /** One entry for each stage that occurs among the first `n` groups and for no other, each one fitting. */
  ghost predicate EntriesFit(groups: seq<Group>, n: nat, entries: seq<Entry>)
    requires n <= |groups|
  {
    && StagesDistinct(entries)
    && (forall k :: 0 <= k < |entries| ==> EntryFits(groups, n, entries[k]) && Occurs(groups, n, entries[k].stage))
    && (forall i :: 0 <= i < n ==> HasStage(entries, groups[i].stage))
  }

  lemma {:induction false} NothingBrought(groups: seq<Group>, n: nat, f: Filter, m: Measure)
    requires n <= |groups| && forall i :: 0 <= i < n ==> !f.Admits(groups[i].stage, groups[i].currency)
    ensures Brought(groups, n, f, m) == 0
  {
    if n > 0 { NothingBrought(groups, n - 1, f, m); }
  }

  lemma WithGroupFits(groups: seq<Group>, n: nat, e: Entry)
    requires n < |groups| && EntryFits(groups, n, e) && e.stage == groups[n].stage
    ensures EntryFits(groups, n + 1, WithGroup(e, groups[n]))
  {
  }

  lemma OtherFits(groups: seq<Group>, n: nat, e: Entry)
    requires n < |groups| && EntryFits(groups, n, e) && e.stage != groups[n].stage
    ensures EntryFits(groups, n + 1, e)
  {
  }

  lemma EmptyFits(groups: seq<Group>, n: nat, stage: Text)
    requires n <= |groups| && forall i :: 0 <= i < n ==> groups[i].stage != stage
    ensures EntryFits(groups, n, Entry(stage, 0, map[], map[]))
  {
    NothingBrought(groups, n, Filter(Some(stage), None), Ones);
    forall c ensures Brought(groups, n, Filter(Some(stage), Some(c)), Amounts) == 0 &&
      Brought(groups, n, Filter(Some(stage), Some(c)), Weights) == 0 {
      NothingBrought(groups, n, Filter(Some(stage), Some(c)), Amounts);
      NothingBrought(groups, n, Filter(Some(stage), Some(c)), Weights);
    }
  }

  /** Every entry of the first `n` groups fits the next one too, once the one of its stage has taken it in. */
  lemma NextFits(groups: seq<Group>, n: nat, e: Entry)
    requires n < |groups| && EntryFits(groups, n, e) && Occurs(groups, n, e.stage)
    ensures EntryFits(groups, n + 1, if e.stage == groups[n].stage then WithGroup(e, groups[n]) else e)
    ensures Occurs(groups, n + 1, e.stage)
  {
    if e.stage == groups[n].stage { WithGroupFits(groups, n, e); } else { OtherFits(groups, n, e); }
  }

  /** A group of a stage that has its entry changes that entry alone. */
  lemma ReplacingFits(groups: seq<Group>, n: nat, entries: seq<Entry>, at: nat)
    requires n < |groups| && EntriesFit(groups, n, entries) && at < |entries| && entries[at].stage == groups[n].stage
    ensures EntriesFit(groups, n + 1, entries[at := WithGroup(entries[at], groups[n])])
  {
    var after := entries[at := WithGroup(entries[at], groups[n])];
    forall k | 0 <= k < |after| ensures EntryFits(groups, n + 1, after[k]) && Occurs(groups, n + 1, after[k].stage) {
      OneOfThemFits(groups, n, entries, at, k);
    }
    StagesStay(groups, n, entries, after);
    assert after[at].stage == groups[n].stage;
  }

  lemma OneOfThemFits(groups: seq<Group>, n: nat, entries: seq<Entry>, at: nat, k: nat)
    requires n < |groups| && EntriesFit(groups, n, entries) && at < |entries| && entries[at].stage == groups[n].stage
    requires k < |entries|
    ensures var e := if k == at then WithGroup(entries[at], groups[n]) else entries[k];
      EntryFits(groups, n + 1, e) && Occurs(groups, n + 1, e.stage)
  {
    NextFits(groups, n, entries[k]);
    assert k != at ==> entries[k].stage != groups[n].stage;
  }

  lemma FreshFits(groups: seq<Group>, n: nat, entries: seq<Entry>)
    requires n < |groups| && EntriesFit(groups, n, entries) && !HasStage(entries, groups[n].stage)
    ensures EntryFits(groups, n + 1, WithGroup(Entry(groups[n].stage, 0, map[], map[]), groups[n]))
  {
    forall j | 0 <= j < n ensures groups[j].stage != groups[n].stage { assert HasStage(entries, groups[j].stage); }
    EmptyFits(groups, n, groups[n].stage);
    WithGroupFits(groups, n, Entry(groups[n].stage, 0, map[], map[]));
  }

  /** A group of a new stage gets an entry of its own. */
  lemma AppendingFits(groups: seq<Group>, n: nat, entries: seq<Entry>)
    requires n < |groups| && EntriesFit(groups, n, entries) && !HasStage(entries, groups[n].stage)
    ensures EntriesFit(groups, n + 1, entries + [WithGroup(Entry(groups[n].stage, 0, map[], map[]), groups[n])])
  {
    var after := entries + [WithGroup(Entry(groups[n].stage, 0, map[], map[]), groups[n])];
    FreshFits(groups, n, entries);
    forall k | 0 <= k < |entries| ensures EntryFits(groups, n + 1, after[k]) && Occurs(groups, n + 1, after[k].stage) {
      NextFits(groups, n, entries[k]);
      assert entries[k].stage != groups[n].stage;
    }
    StagesStay(groups, n, entries, after);
    assert after[|entries|].stage == groups[n].stage;
  }

  lemma StagesStay(groups: seq<Group>, n: nat, entries: seq<Entry>, after: seq<Entry>)
    requires n <= |groups| && |entries| <= |after|
    requires forall i :: 0 <= i < n ==> HasStage(entries, groups[i].stage)
    requires forall k :: 0 <= k < |entries| ==> after[k].stage == entries[k].stage
    ensures forall i :: 0 <= i < n ==> HasStage(after, groups[i].stage)
  {
    forall i | 0 <= i < n ensures HasStage(after, groups[i].stage) {
      var k :| 0 <= k < |entries| && entries[k].stage == groups[i].stage;
      assert after[k].stage == groups[i].stage;
    }
  }

  /** The loop over the rows; the result keeps the order in which the stages were met. */
  method Collect(groups: seq<Group>) returns (entries: seq<Entry>)
    ensures EntriesFit(groups, |groups|, entries)
  {
    entries := [];
    for i := 0 to |groups|
      invariant EntriesFit(groups, i, entries)
    {
      var g := groups[i];
      var at := Find(entries, |entries|, g.stage);
      if at.Some? {
        ReplacingFits(groups, i, entries, at.value);
        entries := entries[at.value := WithGroup(entries[at.value], g)];
      } else {
        AppendingFits(groups, i, entries);
        entries := entries + [WithGroup(Entry(g.stage, 0, map[], map[]), g)];
      }
    }
  }

  // --- The groups partition the deals -----------------------------------------------

  /** The aggregate of a choice over the first `n` deals. */
  function DealsSum(q: Query, n: nat, f: Filter, m: Measure): int
    requires n <= |q.deals|
  {
    if n == 0 then 0
    else
      var d := q.deals[n - 1];
      DealsSum(q, n - 1, f, m) + if Counts(q, d) && f.Admits(d.stage, d.currency) then Value(q, d, m) else 0
  }

  /** The aggregates over the first `n` deals of the first `k` groups of a choice. */
  function GroupsSum(q: Query, n: nat, groups: seq<Group>, k: nat, f: Filter, m: Measure): int
    requires n <= |q.deals| && k <= |groups|
  {
    if k == 0 then 0
    else
      var g := groups[k - 1];
      GroupsSum(q, n, groups, k - 1, f, m) + if f.Admits(g.stage, g.currency)
        then GroupSum(q, n, g.stage, g.currency, m) else 0
  }

  predicate Within(groups: seq<Group>, k: nat, d: Deal)
    requires k <= |groups|
  {
    exists i :: 0 <= i < k && groups[i].stage == d.stage && groups[i].currency == d.currency
  }

  /** One more deal goes to exactly one group. */
  lemma {:induction false} OneMoreDeal(q: Query, n: nat, groups: seq<Group>, k: nat, f: Filter, m: Measure)
    requires n < |q.deals| && k <= |groups| && Distinct(groups)
    ensures var d := q.deals[n];
      GroupsSum(q, n + 1, groups, k, f, m) == GroupsSum(q, n, groups, k, f, m) +
        if Counts(q, d) && f.Admits(d.stage, d.currency) && Within(groups, k, d) then Value(q, d, m) else 0
  {
    if k > 0 {
      OneMoreDeal(q, n, groups, k - 1, f, m);
      var d, g := q.deals[n], groups[k - 1];
      assert Within(groups, k, d) <==> Within(groups, k - 1, d) || (g.stage == d.stage && g.currency == d.currency);
      assert g.stage == d.stage && g.currency == d.currency ==> !Within(groups, k - 1, d);
    }
  }

  lemma {:induction false} NoDeals(q: Query, groups: seq<Group>, k: nat, f: Filter, m: Measure)
    requires k <= |groups|
    ensures GroupsSum(q, 0, groups, k, f, m) == 0
  {
    if k > 0 { NoDeals(q, groups, k - 1, f, m); }
  }

  /** Summed over the groups of a choice, an aggregate is that of the choice's deals. */
  lemma {:induction false} GroupsPartition(q: Query, n: nat, groups: seq<Group>, f: Filter, m: Measure)
    requires n <= |q.deals| && Covers(q, groups)
    ensures GroupsSum(q, n, groups, |groups|, f, m) == DealsSum(q, n, f, m)
  {
    if n == 0 {
      NoDeals(q, groups, |groups|, f, m);
    } else {
      GroupsPartition(q, n - 1, groups, f, m);
      OneMoreDeal(q, n - 1, groups, |groups|, f, m);
      assert Counts(q, q.deals[n - 1]) ==> Has(groups, q.deals[n - 1].stage, q.deals[n - 1].currency);
      assert Has(groups, q.deals[n - 1].stage, q.deals[n - 1].currency) ==> Within(groups, |groups|, q.deals[n - 1]);
    }
  }

  // --- Conservation -----------------------------------------------------------------

  function CountTotal(entries: seq<Entry>, k: nat): int
    requires k <= |entries|
  {
    if k == 0 then 0 else CountTotal(entries, k - 1) + entries[k - 1].count
  }

  function SumTotal(entries: seq<Entry>, k: nat, currency: Text): int
    requires k <= |entries|
  {
    if k == 0 then 0 else SumTotal(entries, k - 1, currency) + At(entries[k - 1].sums, currency)
  }

  /** No group of the choice has a negative total, so the guard of the loop drops nothing. */
  predicate NoneNegative(groups: seq<Group>, n: nat, f: Filter)
    requires n <= |groups|
  {
    forall i :: 0 <= i < n && f.Admits(groups[i].stage, groups[i].currency) ==> groups[i].total >= 0
  }

  lemma {:induction false} CountsBrought(q: Query, groups: seq<Group>, n: nat, f: Filter)
    requires IsAnswer(q, groups) && n <= |groups|
    ensures Brought(groups, n, f, Ones) == GroupsSum(q, |q.deals|, groups, n, f, Ones)
  {
    if n > 0 {
      CountsBrought(q, groups, n - 1, f);
      assert Aggregates(q, groups[n - 1]);
    }
  }

  lemma {:induction false} SumsBrought(q: Query, groups: seq<Group>, n: nat, f: Filter)
    requires IsAnswer(q, groups) && n <= |groups|
    ensures Brought(groups, n, f, Amounts) >= GroupsSum(q, |q.deals|, groups, n, f, Amounts)
    ensures Brought(groups, n, f, Amounts) == GroupsSum(q, |q.deals|, groups, n, f, Amounts) <==>
      NoneNegative(groups, n, f)
  {
    if n > 0 {
      SumsBrought(q, groups, n - 1, f);
      var g := groups[n - 1];
      assert Aggregates(q, g);
      assert NoneNegative(groups, n, f) <==>
        NoneNegative(groups, n - 1, f) && (f.Admits(g.stage, g.currency) ==> g.total >= 0);
    }
  }

  /**
   Each stage's count is the number of its unarchived deals in the pipeline, and its sum per currency their
   amounts.
   */
  lemma EntriesAreExact(q: Query, groups: seq<Group>, entries: seq<Entry>, k: nat, currency: Text)
    requires IsAnswer(q, groups) && EntriesFit(groups, |groups|, entries) && k < |entries|
    ensures entries[k].count == DealsSum(q, |q.deals|, Filter(Some(entries[k].stage), None), Ones)
    ensures var f := Filter(Some(entries[k].stage), Some(currency));
      At(entries[k].sums, currency) == DealsSum(q, |q.deals|, f, Amounts) <==> NoneNegative(groups, |groups|, f)
  {
    var e := entries[k];
    assert EntryFits(groups, |groups|, e);
    var all, one := Filter(Some(e.stage), None), Filter(Some(e.stage), Some(currency));
    CountsBrought(q, groups, |groups|, all);
    GroupsPartition(q, |q.deals|, groups, all, Ones);
    SumsBrought(q, groups, |groups|, one);
    GroupsPartition(q, |q.deals|, groups, one, Amounts);
    assert At(e.sums, currency) == Brought(groups, |groups|, one, Amounts);
  }

  /** The stages that the first `k` entries stand for. */
  predicate Listed(entries: seq<Entry>, k: nat, stage: Text)
    requires k <= |entries|
  {
    exists i :: 0 <= i < k && entries[i].stage == stage
  }

  /** What the groups bring whose stage is among the first `k` entries. */
  function BroughtTo(groups: seq<Group>, n: nat, entries: seq<Entry>, k: nat, currency: Option<Text>, m: Measure): int
    requires n <= |groups| && k <= |entries|
  {
    if n == 0 then 0
    else
      var g := groups[n - 1];
      BroughtTo(groups, n - 1, entries, k, currency, m) +
      if Listed(entries, k, g.stage) && Filter(None, currency).Admits(g.stage, g.currency) then Brings(g, m) else 0
  }

  /** One more entry takes in the groups of one more stage. */
  lemma {:induction false} OneMoreEntry(groups: seq<Group>, n: nat, entries: seq<Entry>, k: nat, currency: Option<Text>,
        m: Measure)
    requires n <= |groups| && k < |entries|
    requires StagesDistinct(entries)
    ensures BroughtTo(groups, n, entries, k + 1, currency, m) ==
      BroughtTo(groups, n, entries, k, currency, m) + Brought(groups, n, Filter(Some(entries[k].stage), currency), m)
  {
    if n > 0 {
      OneMoreEntry(groups, n - 1, entries, k, currency, m);
      var g := groups[n - 1];
      assert Listed(entries, k + 1, g.stage) <==> Listed(entries, k, g.stage) || entries[k].stage == g.stage;
      assert entries[k].stage == g.stage ==> !Listed(entries, k, g.stage);
    }
  }

  lemma {:induction false} NoEntries(groups: seq<Group>, n: nat, entries: seq<Entry>, currency: Option<Text>,
        m: Measure)
    requires n <= |groups|
    ensures BroughtTo(groups, n, entries, 0, currency, m) == 0
  {
    if n > 0 { NoEntries(groups, n - 1, entries, currency, m); }
  }

  lemma {:induction false} AllEntries(groups: seq<Group>, n: nat, entries: seq<Entry>, currency: Option<Text>,
        m: Measure)
    requires n <= |groups| && forall i :: 0 <= i < n ==> HasStage(entries, groups[i].stage)
    ensures BroughtTo(groups, n, entries, |entries|, currency, m) == Brought(groups, n, Filter(None, currency), m)
  {
    if n > 0 {
      AllEntries(groups, n - 1, entries, currency, m);
      assert HasStage(entries, groups[n - 1].stage) ==> Listed(entries, |entries|, groups[n - 1].stage);
    }
  }

  ghost predicate CountFits(groups: seq<Group>, e: Entry) {
    e.count == Brought(groups, |groups|, Filter(Some(e.stage), None), Ones)
  }

  ghost predicate SumFits(groups: seq<Group>, e: Entry, currency: Text) {
    At(e.sums, currency) == Brought(groups, |groups|, Filter(Some(e.stage), Some(currency)), Amounts)
  }

  lemma {:induction false} CountsAreBrought(groups: seq<Group>, entries: seq<Entry>, k: nat)
    requires StagesDistinct(entries) && k <= |entries| && forall i :: 0 <= i < k ==> CountFits(groups, entries[i])
    ensures CountTotal(entries, k) == BroughtTo(groups, |groups|, entries, k, None, Ones)
  {
    if k == 0 {
      NoEntries(groups, |groups|, entries, None, Ones);
    } else {
      CountsAreBrought(groups, entries, k - 1);
      OneMoreEntry(groups, |groups|, entries, k - 1, None, Ones);
      assert CountFits(groups, entries[k - 1]);
    }
  }

  lemma {:induction false} SumsAreBrought(groups: seq<Group>, entries: seq<Entry>, k: nat, currency: Text)
    requires StagesDistinct(entries) && k <= |entries| && forall i :: 0 <= i < k ==>
      SumFits(groups, entries[i], currency)
    ensures SumTotal(entries, k, currency) == BroughtTo(groups, |groups|, entries, k, Some(currency), Amounts)
  {
    if k == 0 {
      NoEntries(groups, |groups|, entries, Some(currency), Amounts);
    } else {
      SumsAreBrought(groups, entries, k - 1, currency);
      OneMoreEntry(groups, |groups|, entries, k - 1, Some(currency), Amounts);
      assert SumFits(groups, entries[k - 1], currency);
    }
  }

  /**
   Nothing is lost or counted twice. The stage counts add up to the unarchived deals of the pipeline that have a
   stage. The sums of a currency add up to at least those deals' amounts, and exactly to them if and only if no
   group of the currency has a negative total: the guard of the loop leaves such a group out.
   */
  lemma StatsConserve(q: Query, groups: seq<Group>, entries: seq<Entry>, currency: Text)
    requires IsAnswer(q, groups) && EntriesFit(groups, |groups|, entries)
    ensures CountTotal(entries, |entries|) == DealsSum(q, |q.deals|, Filter(None, None), Ones)
    ensures SumTotal(entries, |entries|, currency) >= DealsSum(q, |q.deals|, Filter(None, Some(currency)), Amounts)
    ensures SumTotal(entries, |entries|, currency) == DealsSum(q, |q.deals|, Filter(None, Some(currency)), Amounts) <==>
      NoneNegative(groups, |groups|, Filter(None, Some(currency)))
  {
    forall k | 0 <= k < |entries| ensures CountFits(groups, entries[k]) && SumFits(groups, entries[k], currency) {
      assert EntryFits(groups, |groups|, entries[k]);
    }
    CountsAreBrought(groups, entries, |entries|);
    SumsAreBrought(groups, entries, |entries|, currency);
    AllEntries(groups, |groups|, entries, None, Ones);
    AllEntries(groups, |groups|, entries, Some(currency), Amounts);
    CountsBrought(q, groups, |groups|, Filter(None, None));
    SumsBrought(q, groups, |groups|, Filter(None, Some(currency)));
    GroupsPartition(q, |q.deals|, groups, Filter(None, None), Ones);
    GroupsPartition(q, |q.deals|, groups, Filter(None, Some(currency)), Amounts);
  }

  /** No amount is negative, as every operation that writes one demands. */
  predicate NonNegative(q: Query) {
    forall k :: 0 <= k < |q.deals| && Counts(q, q.deals[k]) ==> Amount(q.deals[k]) >= 0
  }

  lemma {:induction false} GroupNotNegative(q: Query, n: nat, stage: Text, currency: Text)
    requires NonNegative(q) && n <= |q.deals|
    ensures GroupSum(q, n, stage, currency, Amounts) >= 0
  {
    if n > 0 { GroupNotNegative(q, n - 1, stage, currency); }
  }

  /** With the amounts that the operations admit, the sums of every currency add up to the deals' amounts. */
  lemma SumsAreExact(q: Query, groups: seq<Group>, entries: seq<Entry>, currency: Text)
    requires IsAnswer(q, groups) && EntriesFit(groups, |groups|, entries) && NonNegative(q)
    ensures SumTotal(entries, |entries|, currency) == DealsSum(q, |q.deals|, Filter(None, Some(currency)), Amounts)
  {
    StatsConserve(q, groups, entries, currency);
    forall i | 0 <= i < |groups| ensures groups[i].total >= 0 {
      assert Aggregates(q, groups[i]);
      GroupNotNegative(q, |q.deals|, groups[i].stage, groups[i].currency);
    }
  }

  /** A negative amount, which only a row written past the operations can hold: its group's total is left out. */
  lemma NegativeGroupIsLeftOut(pipeline: Text, stage: Text, currency: Text)
    ensures var q := Query([Deal(pipeline, stage, currency, Some(-1), None, false)], pipeline, map[stage := None]);
      var groups := [Group(stage, currency, 1, -1, 0)];
      var entries := [Entry(stage, 1, map[], map[])];
      && IsAnswer(q, groups) && EntriesFit(groups, 1, entries)
      && SumTotal(entries, 1, currency) == 0 && DealsSum(q, 1, Filter(None, Some(currency)), Amounts) == -1
  {
    var q := Query([Deal(pipeline, stage, currency, Some(-1), None, false)], pipeline, map[stage := None]);
    var groups := [Group(stage, currency, 1, -1, 0)];
    var entries := [Entry(stage, 1, map[], map[])];
    assert Has(groups, stage, currency) by { assert groups[0].stage == stage && groups[0].currency == currency; }
    assert GroupSum(q, 0, stage, currency, Ones) == 0 && GroupSum(q, 0, stage, currency, Amounts) == 0;
    assert GroupSum(q, 0, stage, currency, Weights) == 0 && GroupSum(q, 1, stage, currency, Weights) == 0;
    assert Aggregates(q, groups[0]);
    forall f: Filter, m: Measure ensures Brought(groups, 1, f, m) == Brought(groups, 0, f, m) + if f.Admits(stage,
      currency) then Brings(groups[0], m) else 0 {}
    assert EntryFits(groups, 1, entries[0]);
    assert Occurs(groups, 1, stage) by { assert groups[0].stage == stage; }
    assert HasStage(entries, stage) by { assert entries[0].stage == stage; }
    assert SumTotal(entries, 0, currency) == 0;
  }

  // --- What a deal counts for ----------------------------------------------------------

  lemma {:induction false} SumDependsOn(q: Query, r: Query, n: nat, f: Filter, m: Measure)
    requires n <= |q.deals| && n <= |r.deals| && q.pipeline == r.pipeline && q.stages == r.stages
    requires forall k :: 0 <= k < n ==> q.deals[k] == r.deals[k]
    ensures DealsSum(q, n, f, m) == DealsSum(r, n, f, m)
  {
    if n > 0 { SumDependsOn(q, r, n - 1, f, m); }
  }

  /** Whether a deal is one of this choice: of the pipeline, not archived, and in a stage that there is. */
  predicate IsOf(d: Deal, pipeline: Text, stages: Stages, f: Filter) {
    && d.pipeline == pipeline && d.archived == false && d.stage in stages
    && (f.stage == None || f.stage == Some(d.stage)) && (f.currency == None || f.currency == Some(d.currency))
  }

  /** The percentage a deal's amount is weighted with: its own, else its stage's, else none. */
  predicate WeighedWith(d: Deal, stages: Stages, p: int) {
    if d.probability.Some? then d.probability == Some(p)
    else if d.stage in stages && stages[d.stage].Some? then stages[d.stage] == Some(p) else p == 0
  }

  /**
   One more deal: it counts for one, for its amount, and for its weighted amount, in every choice that it is one of,
   and an archived deal, or one of another pipeline, in none.
   */
  lemma DealCountsFor(q: Query, d: Deal, f: Filter, p: int)
    requires WeighedWith(d, q.stages, p)
    ensures var n := |q.deals|; var r := q.(deals := q.deals + [d]);
      var one := IsOf(d, q.pipeline, q.stages, f); var amount := if d.amount.Some? then d.amount.value else 0;
      && DealsSum(r, n + 1, f, Ones) == DealsSum(q, n, f, Ones) + (if one then 1 else 0)
      && DealsSum(r, n + 1, f, Amounts) == DealsSum(q, n, f, Amounts) + (if one then amount else 0)
      && DealsSum(r, n + 1, f, Weights) == DealsSum(q, n, f, Weights) + (if one then amount * p else 0)
  {
    var n := |q.deals|;
    var r := q.(deals := q.deals + [d]);
    assert r.deals[n] == d;
    SumDependsOn(q, r, n, f, Ones);
    SumDependsOn(q, r, n, f, Amounts);
    SumDependsOn(q, r, n, f, Weights);
  }

  // --- Rounding -----------------------------------------------------------------------

  /** Amounts are not negative and probabilities are percentages. */
  predicate Ordinary(q: Query) {
    NonNegative(q) && forall k :: 0 <= k < |q.deals| && Counts(q, q.deals[k]) ==> 0 <= Probability(q, q.deals[k]) <= 100
  }

  /** Halves go up. */
  lemma RoundedHalfUp(hundredths: int)
    ensures 100 * Rounded(hundredths) - 50 <= hundredths < 100 * Rounded(hundredths) + 50
  {
  }

  lemma PartOf(a: int, p: int)
    requires a >= 0 && 0 <= p <= 100
    ensures 0 <= a * p <= 100 * a
  {
  }

  lemma {:induction false} WeightIsAtMostSum(q: Query, n: nat, stage: Text, currency: Text)
    requires Ordinary(q) && n <= |q.deals|
    ensures 0 <= GroupSum(q, n, stage, currency, Weights) <= 100 * GroupSum(q, n, stage, currency, Amounts)
  {
    if n > 0 {
      WeightIsAtMostSum(q, n - 1, stage, currency);
      var d := q.deals[n - 1];
      if Counts(q, d) { PartOf(Amount(d), Probability(q, d)); }
    }
  }

  /** A currency is brought to a stage by one group at most. */
  lemma {:induction false} BroughtByOne(groups: seq<Group>, n: nat, i: nat, m: Measure)
    requires Distinct(groups) && i < |groups| && n <= |groups|
    ensures Brought(groups, n, Filter(Some(groups[i].stage), Some(groups[i].currency)), m) == if i < n
      then Brings(groups[i], m) else 0
  {
    if n > 0 {
      BroughtByOne(groups, n - 1, i, m);
      if n - 1 != i { assert groups[n - 1].stage != groups[i].stage || groups[n - 1].currency != groups[i].currency; }
    }
  }

  /**
   With ordinary deals, a stage's rounded weighted value is at most its sum in that currency and within one half
   of the exact weighted value.
   */
  lemma WeightedIsClose(q: Query, groups: seq<Group>, entries: seq<Entry>, k: nat, currency: Text)
    requires IsAnswer(q, groups) && EntriesFit(groups, |groups|, entries) && k < |entries| && Ordinary(q)
    ensures var stage := entries[k].stage; var exact := GroupSum(q, |q.deals|, stage, currency, Weights);
      && 0 <= At(entries[k].weighted, currency) <= At(entries[k].sums, currency)
      && -50 < 100 * At(entries[k].weighted, currency) - exact <= 50
  {
    var stage := entries[k].stage;
    var f := Filter(Some(stage), Some(currency));
    assert EntryFits(groups, |groups|, entries[k]);
    if Has(groups, stage, currency) {
      var i :| 0 <= i < |groups| && groups[i].stage == stage && groups[i].currency == currency;
      assert Aggregates(q, groups[i]);
      WeightIsAtMostSum(q, |q.deals|, stage, currency);
      BroughtByOne(groups, |groups|, i, Amounts);
      BroughtByOne(groups, |groups|, i, Weights);
    } else {
      NothingBrought(groups, |groups|, f, Amounts);
      NothingBrought(groups, |groups|, f, Weights);
      NoGroupNoSum(q, groups, |q.deals|, stage, currency);
    }
  }

  lemma {:induction false} NoGroupNoSum(q: Query, groups: seq<Group>, n: nat, stage: Text, currency: Text)
    requires Covers(q, groups) && !Has(groups, stage, currency) && n <= |q.deals|
    ensures GroupSum(q, n, stage, currency, Weights) == 0
  {
    if n > 0 { NoGroupNoSum(q, groups, n - 1, stage, currency); }
  }
}
