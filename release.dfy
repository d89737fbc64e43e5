/**
 * The table transformations push_data_live performs, as functions of the tables
 * before the release: the selection of variants from the review ledger, the
 * deletion pass, the queue-to-live merge and the per-gene variant count.
 */
module Release {
  import opened Wrappers
  import opened Schema

  /** Variants to delete: scheduled for deletion (and confirmed, when only confirmed ones go out). */
  function DeleteSet(reviews: map<int, Review>, confirmedOnly: bool): set<int> {
    set v | v in reviews && reviews[v].scheduled && (reviews[v].confirmed || !confirmedOnly)
  }

  /** Variants to update: every review (only the confirmed ones, when so asked). */
  function UpdateSet(reviews: map<int, Review>, confirmedOnly: bool): set<int> {
    set v | v in reviews && (reviews[v].confirmed || !confirmedOnly)
  }

  /** Every variant selected for deletion is also selected for update. */
  lemma DeleteWithinUpdate(reviews: map<int, Review>, confirmedOnly: bool)
    ensures DeleteSet(reviews, confirmedOnly) <= UpdateSet(reviews, confirmedOnly)
    ensures DeleteSet(reviews, confirmedOnly) != {} ==> UpdateSet(reviews, confirmedOnly) != {}
  {
    if DeleteSet(reviews, confirmedOnly) != {} {
      NonEmptyHasId(DeleteSet(reviews, confirmedOnly));
      var v :| v in DeleteSet(reviews, confirmedOnly);
      assert v in UpdateSet(reviews, confirmedOnly);
    }
  }

  /** A table without the given ids. */
  function Without(t: map<int, Row>, ids: set<int>): (r: map<int, Row>)
    ensures r.Keys == t.Keys - ids
    ensures forall id :: id in r ==> r[id] == t[id]
  {
    map id | id in t && id !in ids :: t[id]
  }

  /** The review rows left after `DELETE ... WHERE id IN (ids)`: the ledger's own ids are compared. */
  function WithoutReviewRows(reviews: map<int, Review>, ids: set<int>): (r: map<int, Review>)
    ensures forall v :: v in r <==> v in reviews && reviews[v].rid !in ids
  {
    map v | v in reviews && reviews[v].rid !in ids :: reviews[v]
  }

  /** The live rows copied to the variations log before they are deleted. */
  function LoggedRows(live: map<int, Row>, ids: set<int>): multiset<(int, Row)> {
    multiset(set id | id in live && id in ids :: (id, live[id]))
  }

  /** The multi-table UPDATE: each live row with a queue row of the same id takes every queue column. */
  function Merge(live: map<int, Row>, queue: map<int, Row>): (r: map<int, Row>)
    ensures r.Keys == live.Keys
  {
    map id | id in live :: if id in queue then queue[id] else live[id]
  }

  /** The gene column of a row (the GROUP BY key; NULL forms its own group). */
  function Gene(r: Row): Option<string> {
    Get(r, "gene")
  }

  /** The ids of the rows of one gene. */
  function IdsOfGene(live: map<int, Row>, g: Option<string>): set<int> {
    set id | id in live && Gene(live[id]) == g
  }

  /** The genes occurring in the table. */
  function GenesOf(live: map<int, Row>): set<Option<string>> {
    set id | id in live :: Gene(live[id])
  }

  /** `SELECT gene, count(*) FROM live GROUP BY gene` */
  function GeneCounts(live: map<int, Row>): map<Option<string>, nat> {
    map g | g in GenesOf(live) :: |IdsOfGene(live, g)|
  }

  /**
   * The `genes` figure of the versions row: the loop keeps only the last count,
   * a scalar, and sizeof of a scalar is 1, so the figure is 1 for any non-empty
   * table and 0 (the untouched empty array) otherwise.
   */
  function GenesFigure(live: map<int, Row>): nat {
    if |live| == 0 then 0 else 1
  }

  /** A gene is counted exactly when some row carries it, and its count is positive. */
  lemma GeneCountsKeys(live: map<int, Row>, g: Option<string>)
    ensures g in GeneCounts(live) <==> exists id :: id in live && Gene(live[id]) == g
    ensures g in GeneCounts(live) ==> GeneCounts(live)[g] >= 1
  {
    if g in GeneCounts(live) {
      var id :| id in live && Gene(live[id]) == g;
      assert id in IdsOfGene(live, g);
    }
  }

  /** The `genes` figure is a flag; with two genes in the table it undercounts them. */
  lemma GenesFigureIsFlag(live: map<int, Row>, a: int, b: int)
    requires a in live && b in live && Gene(live[a]) != Gene(live[b])
    ensures GenesFigure(live) == 1 < |GeneCounts(live)|
  {
    var gs := GenesOf(live);
    assert Gene(live[a]) in gs && Gene(live[b]) in gs;
    assert {Gene(live[a]), Gene(live[b])} <= gs;
    assert |{Gene(live[a]), Gene(live[b])}| == 2;
    assert GeneCounts(live).Keys == gs;
    SubsetCard({Gene(live[a]), Gene(live[b])}, gs);
  }

  lemma SubsetCard<T>(a: set<T>, b: set<T>)
    requires a <= b
    ensures |a| <= |b|
  {
    assert b == a + (b - a);
  }

  /** The sum of the counts of a gene table. */
  ghost function Sum(m: map<Option<string>, nat>): nat
    decreases |m|
  {
    if |m| == 0 then 0
    else
      var k :| k in m;
      m[k] + Sum(m - {k})
  }

  /** The sum does not depend on the key taken out first. */
  lemma {:induction false} SumRemove(m: map<Option<string>, nat>, k: Option<string>)
    requires k in m
    ensures Sum(m) == m[k] + Sum(m - {k})
    decreases |m|
  {
    var j := SumKey(m);
    if j != k {
      var mj := m - {j};
      var mk := m - {k};
      assert k in mj && mj[k] == m[k];
      assert j in mk && mk[j] == m[j];
      SumRemove(mj, k);
      SumRemove(mk, j);
      RemoveBoth(m, j, k);
    }
  }

  /** Removing two keys one after the other does not depend on the order. */
  lemma RemoveBoth<K, V>(m: map<K, V>, j: K, k: K)
    ensures (m - {j}) - {k} == (m - {k}) - {j}
  {
  }

  /** The key Sum takes out first. */
  lemma SumKey(m: map<Option<string>, nat>) returns (j: Option<string>)
    requires |m| > 0
    ensures j in m && Sum(m) == m[j] + Sum(m - {j})
  {
    j :| j in m && Sum(m) == m[j] + Sum(m - {j});
  }

  /** Taking out every row of one gene removes exactly that gene from the counts. */
  lemma CountsWithoutGene(live: map<int, Row>, g: Option<string>)
    ensures GeneCounts(Without(live, IdsOfGene(live, g))) == GeneCounts(live) - {g}
  {
    var rest := Without(live, IdsOfGene(live, g));
    forall h | h in GenesOf(live) && h != g
      ensures h in GenesOf(rest)
    {
      var i :| i in live && Gene(live[i]) == h;
      assert i in rest;
    }
    assert GenesOf(rest) == GenesOf(live) - {g};
    forall h | h in GenesOf(rest)
      ensures IdsOfGene(rest, h) == IdsOfGene(live, h)
    {
    }
  }

  /** The rows of one gene and the remaining rows partition the table. */
  lemma PartitionCard(live: map<int, Row>, g: Option<string>)
    ensures |live| == |IdsOfGene(live, g)| + |Without(live, IdsOfGene(live, g))|
  {
    var ids := IdsOfGene(live, g);
    var rest := Without(live, ids);
    assert live.Keys == ids + rest.Keys;
    assert ids !! rest.Keys;
  }

  /** The per-gene counts add up to the number of live rows. */
  lemma {:induction false} GeneCountsTotal(live: map<int, Row>)
    ensures Sum(GeneCounts(live)) == |live|
    decreases |live|
  {
    var counts := GeneCounts(live);
    if |live| == 0 {
      assert counts == map[];
    } else {
      NonEmptyHasId(live.Keys);
      var id0 :| id0 in live;
      var g := Gene(live[id0]);
      assert g in counts;
      var rest := Without(live, IdsOfGene(live, g));
      assert id0 in IdsOfGene(live, g);
      PartitionCard(live, g);
      GeneCountsTotal(rest);
      CountsWithoutGene(live, g);
      SumRemove(counts, g);
    }
  }
}
