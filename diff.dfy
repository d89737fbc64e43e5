/**
 * get_unreleased_changes: for each staged variant, the fields whose queue value
 * differs from the live value, plus variants that have no changes but whose
 * review carries comments or a deletion flag.
 */
module Diff {
  import opened Wrappers
  import opened PhpStrings
  import opened Schema

  /** What the change list shows for an empty side. */
  const NoneMarker: string := "<i>None</i>"
  const Separator: string := " <i class=\"icon-stop\"></i> "

  /** One changed field: the value shown for the live side and for the queue side. */
  datatype Change = Change(liveValue: string, queueValue: string)

  /** One listed variant: its display name, its changed fields and whether it is new. */
  datatype Entry = Entry(name: string, changes: map<string, Change>, isNew: bool)

  /** gene, protein change and variation, joined by the icon separator (NULL prints as ''). */
  function Name(r: Row): string {
    Str(Get(r, "gene")) + Separator + Str(Get(r, "hgvs_protein_change")) + Separator + Str(Get(r, "variation"))
  }

  /** A live row is new (never released) when its variation is NULL. */
  predicate IsNew(live: map<int, Row>, id: int) {
    id in live && Get(live[id], "variation").None?
  }

  /**
   * One field of the comparison. A field is listed when the values differ
   * strictly (NULL and '' differ); it is then dropped again when the queue side
   * is empty and either the variant is new or the live side is empty too.
   */
  function FieldChange(q: Option<string>, l: Option<string>, isNew: bool): Option<Change> {
    if q == l then None
    else if isNew then
      (if Blank(q) then None else Some(Change(NoneMarker, q.value)))
    else if Blank(q) && Blank(l) then None
    else Some(Change(if Blank(l) then NoneMarker else l.value, if Blank(q) then NoneMarker else q.value))
  }

  /** When a field is listed and what each side shows, stated case by case. */
  lemma FieldChangeSpec(q: Option<string>, l: Option<string>, isNew: bool)
    ensures FieldChange(q, l, isNew).Some? <==> q != l && (!Blank(q) || (!isNew && !Blank(l)))
    ensures FieldChange(q, l, isNew).Some? ==>
      var c := FieldChange(q, l, isNew).value;
      && c.queueValue == (if Blank(q) then NoneMarker else q.value)
      && c.liveValue == (if isNew || Blank(l) then NoneMarker else l.value)
  {
  }

  /** The changed fields of a queue row against its live row. */
  function Changes(q: Row, l: Row, isNew: bool): map<string, Change> {
    map f | f in q.Keys && FieldChange(q[f], Get(l, f), isNew).Some? :: FieldChange(q[f], Get(l, f), isNew).value
  }

  /** The loop over the fields of one queue row. */
  method CollectChanges(q: Row, l: Row, isNew: bool) returns (changes: map<string, Change>)
    ensures changes == Changes(q, l, isNew)
  {
    changes := map[];
    var todo := q.Keys;
    while todo != {}
      invariant todo <= q.Keys
      invariant forall f :: f in changes <==> f in q && f !in todo && FieldChange(q[f], Get(l, f), isNew).Some?
      invariant forall f :: f in changes ==> changes[f] == FieldChange(q[f], Get(l, f), isNew).value
      decreases |todo|
    {
      var f :| f in todo;
      var c := FieldChange(q[f], Get(l, f), isNew);
      if c.Some? {
        changes := changes[f := c.value];
      }
      todo := todo - {f};
    }
    ChangesDone(q, l, isNew, changes);
  }

  /** A map holding exactly the listed fields with their changes is the comparison. */
  lemma ChangesDone(q: Row, l: Row, isNew: bool, changes: map<string, Change>)
    requires forall f :: f in changes <==> f in q && FieldChange(q[f], Get(l, f), isNew).Some?
    requires forall f :: f in changes ==> changes[f] == FieldChange(q[f], Get(l, f), isNew).value
    ensures changes == Changes(q, l, isNew)
  {
    var spec := Changes(q, l, isNew);
    assert changes.Keys == spec.Keys;
    assert forall f :: f in changes ==> changes[f] == spec[f];
  }

  /** The entry of a compared variant. */
  function CompareEntry(q: Row, live: map<int, Row>, id: int): Entry
    requires id in live
  {
    Entry(Name(q), Changes(q, live[id], IsNew(live, id)), IsNew(live, id))
  }

  /**
   * First pass: every candidate whose row differs from its live row, or that has
   * a review, is listed with its field changes.
   */
  function Compared(cands: map<int, Row>, live: map<int, Row>, reviews: map<int, Review>): map<int, Entry> {
    map id | id in cands && Listed(cands, live, reviews, id) :: CompareEntry(cands[id], live, id)
  }

  /** The inclusion test of the first pass: the row differs from its live row, or a review exists. */
  predicate Listed(cands: map<int, Row>, live: map<int, Row>, reviews: map<int, Review>, id: int)
    requires id in cands
  {
    id in live && (cands[id] != live[id] || id in reviews)
  }

  /** A review row that asks for attention: informatics comments, or a deletion flag. */
  predicate Flagged(r: Review) {
    !IsEmpty(r.comments) || r.scheduled
  }

  /** Second pass: flagged reviews of unlisted variants with a live row are listed without changes. */
  function WithReviews(entries: map<int, Entry>, revs: map<int, Review>, live: map<int, Row>): map<int, Entry> {
    entries + map id | id in revs && Added(entries, revs, live, id) :: Entry(Name(live[id]), map[], false)
  }

  /** The inclusion test of the second pass. */
  predicate Added(entries: map<int, Entry>, revs: map<int, Review>, live: map<int, Row>, id: int)
    requires id in revs
  {
    id !in entries && Flagged(revs[id]) && id in live
  }

  /** The whole result: NULL when nothing is listed. */
  function Unreleased(cands: map<int, Row>, live: map<int, Row>, reviews: map<int, Review>, revs: map<int, Review>)
    : Option<map<int, Entry>>
  {
    var v := WithReviews(Compared(cands, live, reviews), revs, live);
    if |v| == 0 then None else Some(v)
  }

  /** The first loop: compare every candidate with its live row. */
  method ComparePass(cands: map<int, Row>, live: map<int, Row>, reviews: map<int, Review>)
    returns (variants: map<int, Entry>)
    ensures variants == Compared(cands, live, reviews)
  {
    variants := map[];
    var todo := cands.Keys;
    while todo != {}
      invariant todo <= cands.Keys
      invariant forall id :: id in variants <==> id in cands && id !in todo && Listed(cands, live, reviews, id)
      invariant forall id :: id in variants ==> variants[id] == CompareEntry(cands[id], live, id)
      decreases |todo|
    {
      var id := PickId(todo);
      if Listed(cands, live, reviews, id) {
        var isNew := IsNew(live, id);
        var changes := CollectChanges(cands[id], live[id], isNew);
        var e := Entry(Name(cands[id]), changes, isNew);
        assert e == CompareEntry(cands[id], live, id);
        variants := variants[id := e];
      }
      todo := todo - {id};
    }
    ComparedDone(cands, live, reviews, variants);
  }

  /** A map holding exactly the listed candidates with their entries is the first pass. */
  lemma ComparedDone(cands: map<int, Row>, live: map<int, Row>, reviews: map<int, Review>, variants: map<int, Entry>)
    requires forall id :: id in variants <==> id in cands && Listed(cands, live, reviews, id)
    requires forall id :: id in variants ==> id in live && variants[id] == CompareEntry(cands[id], live, id)
    ensures variants == Compared(cands, live, reviews)
  {
    var spec := Compared(cands, live, reviews);
    forall id ensures id in variants <==> id in spec {
      if id in spec {
        assert id in cands && Listed(cands, live, reviews, id);
      }
    }
    assert variants.Keys == spec.Keys;
    assert forall id :: id in variants ==> variants[id] == spec[id];
  }

  /** The second loop: add flagged reviews of variants not listed yet. */
  method ReviewPass(first: map<int, Entry>, revs: map<int, Review>, live: map<int, Row>)
    returns (variants: map<int, Entry>)
    ensures variants == WithReviews(first, revs, live)
  {
    variants := first;
    var pending := revs.Keys;
    while pending != {}
      invariant pending <= revs.Keys
      invariant forall id :: id in variants <==> id in first || (id in revs && id !in pending && Added(first, revs, live, id))
      invariant forall id :: id in variants && id !in first ==> id in live && variants[id] == Entry(Name(live[id]), map[], false)
      invariant forall id :: id in first ==> variants[id] == first[id]
      decreases |pending|
    {
      var id := PickId(pending);
      if Added(first, revs, live, id) {
        variants := variants[id := Entry(Name(live[id]), map[], false)];
      }
      pending := pending - {id};
    }
    ReviewPassDone(first, revs, live, variants);
  }

  /** What the second loop has built once every review is visited is the second pass. */
  lemma ReviewPassDone(first: map<int, Entry>, revs: map<int, Review>, live: map<int, Row>, variants: map<int, Entry>)
    requires forall id :: id in variants <==> id in first || (id in revs && Added(first, revs, live, id))
    requires forall id :: id in variants && id !in first ==> id in live && variants[id] == Entry(Name(live[id]), map[], false)
    requires forall id :: id in first ==> variants[id] == first[id]
    ensures variants == WithReviews(first, revs, live)
  {
    var w := WithReviews(first, revs, live);
    var added := map id | id in revs && Added(first, revs, live, id) :: Entry(Name(live[id]), map[], false);
    assert w == first + added;
    forall id | id in variants
      ensures id in w && variants[id] == w[id]
    {
      if id !in first {
        assert id in added;
      }
    }
    forall id | id in w
      ensures id in variants
    {
      if id !in first {
        assert id in added;
      }
    }
  }

  /** get_unreleased_changes over the candidates and reviews it is given. */
  method BuildUnreleased(cands: map<int, Row>, live: map<int, Row>, reviews: map<int, Review>, revs: map<int, Review>)
    returns (r: Option<map<int, Entry>>)
    ensures r == Unreleased(cands, live, reviews, revs)
  {
    var first := ComparePass(cands, live, reviews);
    var variants := ReviewPass(first, revs, live);
    if |variants| == 0 {
      r := None;
    } else {
      r := Some(variants);
    }
  }

  // ---------------------------------------------------------------------------
  // Properties

  /**
   * A listed field really differs, is never empty on both sides, and a new
   * variant always shows None on the live side.
   */
  lemma ChangesAreReal(q: Row, l: Row, isNew: bool, f: string)
    requires f in Changes(q, l, isNew)
    ensures f in q && q[f] != Get(l, f)
    ensures !(Blank(q[f]) && Blank(Get(l, f)))
    ensures isNew ==> Changes(q, l, isNew)[f].liveValue == NoneMarker && Changes(q, l, isNew)[f] == Change(NoneMarker, q[f].value)
  {
    FieldChangeSpec(q[f], Get(l, f), isNew);
  }

  /** Identical rows have no changes. */
  lemma NoChangesForEqualRows(q: Row, l: Row, isNew: bool)
    requires q.Keys <= l.Keys
    requires forall f :: f in q ==> q[f] == l[f]
    ensures Changes(q, l, isNew) == map[]
  {
  }

  /**
   * A variant whose queue row equals its live row is listed only through its
   * review, and then with an empty change set.
   */
  lemma UnchangedListedOnlyByReview(cands: map<int, Row>, live: map<int, Row>, reviews: map<int, Review>, id: int)
    requires id in cands && id in live && cands[id] == live[id]
    ensures var r := Unreleased(cands, live, reviews, reviews);
      (r.Some? && id in r.value) <==> id in reviews
    ensures var r := Unreleased(cands, live, reviews, reviews);
      r.Some? && id in r.value ==> r.value[id].changes == map[]
  {
    var v := WithReviews(Compared(cands, live, reviews), reviews, live);
    if id in reviews {
      NoChangesForEqualRows(cands[id], live[id], IsNew(live, id));
      assert id in v;
    } else {
      assert id !in v;
    }
  }

  /** Entries added for reviews alone have no changes and are not new. */
  lemma ReviewEntriesEmpty(cands: map<int, Row>, live: map<int, Row>, reviews: map<int, Review>, revs: map<int, Review>, id: int)
    requires id !in Compared(cands, live, reviews)
    ensures var r := Unreleased(cands, live, reviews, revs);
      r.Some? && id in r.value <==> id in revs && Flagged(revs[id]) && id in live
    ensures var r := Unreleased(cands, live, reviews, revs);
      r.Some? && id in r.value ==> r.value[id] == Entry(Name(live[id]), map[], false)
  {
    var v := WithReviews(Compared(cands, live, reviews), revs, live);
    if id in revs && Flagged(revs[id]) && id in live {
      assert id in v;
    }
  }

  /** NULL exactly when no candidate differs or has a review and no review is flagged. */
  lemma UnreleasedNone(cands: map<int, Row>, live: map<int, Row>, reviews: map<int, Review>, revs: map<int, Review>)
    ensures Unreleased(cands, live, reviews, revs).None? <==>
      (forall id :: id in cands && id in live ==> cands[id] == live[id] && id !in reviews)
      && (forall id :: id in revs && id in live ==> !Flagged(revs[id]))
  {
    var c := Compared(cands, live, reviews);
    var v := WithReviews(c, revs, live);
    if v == map[] {
      forall id | id in cands && id in live
        ensures cands[id] == live[id] && id !in reviews
      {
        assert id !in c;
      }
      forall id | id in revs && id in live
        ensures !Flagged(revs[id])
      {
        assert id !in v;
      }
    }
    if (forall id :: id in cands && id in live ==> cands[id] == live[id] && id !in reviews)
      && (forall id :: id in revs && id in live ==> !Flagged(revs[id])) {
      assert c == map[];
      assert v == map[];
    }
  }
}
