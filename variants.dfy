/**
 * The variant tables as one value, and the store operations of the variations
 * model as functions of it: the lookups by id and by position, staging an edit
 * in the queue, the review-ledger upsert, creating and removing a variant, and
 * a release. The VariantStore class performs the same operations on its fields.
 */
module Variants {
  import opened Wrappers
  import opened PhpStrings
  import opened Schema
  import Annotation
  import Diff
  import Release
  import Expert

  /** The live table, the queue, the review ledger (keyed by variant id) and the two auto-increment counters. */
  datatype Tables = Tables(
    live: map<int, Row>,
    queue: map<int, Row>,
    reviews: map<int, Review>,
    nextId: int,
    nextReviewId: int)

  /**
   * What the operations keep: stored rows carry the table's columns, every
   * staged variant has a live row, live ids were handed out by the live table's
   * counter and review ids by the ledger's.
   */
  predicate Valid(t: Tables) {
    && (forall id :: id in t.live ==> WellFormed(t.live[id]))
    && (forall id :: id in t.queue ==> WellFormed(t.queue[id]))
    && t.queue.Keys <= t.live.Keys
    && 1 <= t.nextId
    && (forall id :: id in t.live ==> 1 <= id < t.nextId)
    && (forall v :: v in t.reviews ==> t.reviews[v].rid < t.nextReviewId)
  }

  /** The table a lookup names; the queue is the default. */
  datatype Table = QueueTable | LiveTable

  // ---------------------------------------------------------------------------
  // get_variant_by_id, variant_exists_in_table

  /** The row of a variant: from the queue when staged there, else from the live table; NULL when neither has it. */
  function ById(t: Tables, id: int, table: Table): (r: Option<Row>)
    ensures table == LiveTable ==> (r.Some? <==> id in t.live) && (r.Some? ==> r.value == t.live[id])
    ensures table == QueueTable ==> (r.Some? <==> id in t.queue || id in t.live)
    ensures table == QueueTable && id in t.queue ==> r == Some(t.queue[id])
    ensures table == QueueTable && id !in t.queue && id in t.live ==> r == Some(t.live[id])
    decreases if table == QueueTable then 1 else 0
  {
    if table == QueueTable && id !in t.queue then ById(t, id, LiveTable)
    else if table == QueueTable then Some(t.queue[id])
    else if id in t.live then Some(t.live[id])
    else None
  }

  /** A lookup in the live table never sees the queue. */
  lemma LiveLookupIgnoresQueue(t: Tables, queue: map<int, Row>, id: int)
    ensures ById(t.(queue := queue), id, LiveTable) == ById(t, id, LiveTable)
  {
  }

  /** variant_exists_in_table: the named table alone is asked, without the fallback. */
  function ExistsIn(t: Tables, id: int, table: Table): (r: bool)
    ensures table == LiveTable ==> (r <==> ById(t, id, LiveTable).Some?)
    ensures table == QueueTable && r ==> id in t.queue && ById(t, id, QueueTable) == Some(t.queue[id])
    ensures table == QueueTable && !r ==> ById(t, id, QueueTable) == ById(t, id, LiveTable)
  {
    if table == LiveTable then id in t.live else id in t.queue
  }

  // ---------------------------------------------------------------------------
  // get_variants_by_position

  /** `variation LIKE 'position:%'`, or also `LIKE 'position%'` in a fuzzy search; a NULL variation never matches. */
  predicate AtPosition(r: Row, position: string, fuzzy: bool) {
    var v := Get(r, "variation");
    v.Some? && (StartsWith(v.value, position + ":") || (fuzzy && StartsWith(v.value, position)))
  }

  /** The rows of one table at a position. */
  function Found(tbl: map<int, Row>, position: string, fuzzy: bool): (r: map<int, Row>)
    ensures forall id :: id in r <==> id in tbl && AtPosition(tbl[id], position, fuzzy)
    ensures forall id :: id in r ==> r[id] == tbl[id]
  {
    map id | id in tbl && AtPosition(tbl[id], position, fuzzy) :: tbl[id]
  }

  /**
   * The variants at a position: the queue's when it has any, else the live
   * table's (searched exactly: the fallback drops the fuzzy flag); NULL when
   * neither has one.
   */
  function ByPosition(t: Tables, position: string, table: Table, fuzzy: bool): (r: Option<map<int, Row>>)
    ensures r.Some? ==> |r.value| > 0
    ensures table == LiveTable ==> (r.None? <==> Found(t.live, position, fuzzy) == map[])
    decreases if table == QueueTable then 1 else 0
  {
    var found := Found(if table == LiveTable then t.live else t.queue, position, fuzzy);
    if |found| == 0 && table == QueueTable then ByPosition(t, position, LiveTable, false)
    else if |found| == 0 then None
    else Some(found)
  }

  /** A fuzzy search is a plain prefix search: the exact pattern is one of its cases. */
  lemma FuzzyIsPrefix(r: Row, position: string)
    ensures AtPosition(r, position, true) <==> Get(r, "variation").Some? && StartsWith(Get(r, "variation").value, position)
    ensures AtPosition(r, position, false) ==> AtPosition(r, position, true)
  {
    var v := Get(r, "variation");
    if v.Some? && StartsWith(v.value, position + ":") {
      assert v.value[..|position|] == (position + ":")[..|position|];
    }
  }

  /**
   * Through the queue, the answer is every queue row at the position when there
   * is one, and otherwise every live row at the exact position.
   */
  lemma ByPositionQueueFirst(t: Tables, position: string, fuzzy: bool)
    ensures var r := ByPosition(t, position, QueueTable, fuzzy);
      && (Found(t.queue, position, fuzzy) != map[] ==> r == Some(Found(t.queue, position, fuzzy)))
      && (Found(t.queue, position, fuzzy) == map[] && Found(t.live, position, false) != map[] ==>
            r == Some(Found(t.live, position, false)))
      && (r.None? <==> Found(t.queue, position, fuzzy) == map[] && Found(t.live, position, false) == map[])
  {
  }

  /**
   * A live variant matched only by the fuzzy pattern is not found through the
   * queue's fallback, although a fuzzy search of the live table finds it.
   */
  lemma FallbackNotFuzzy(t: Tables, position: string, id: int)
    requires Found(t.queue, position, true) == map[]
    requires id in t.live && Get(t.live[id], "variation").Some?
    requires StartsWith(Get(t.live[id], "variation").value, position)
    requires !StartsWith(Get(t.live[id], "variation").value, position + ":")
    ensures var r := ByPosition(t, position, QueueTable, true); r.None? || id !in r.value
    ensures var r := ByPosition(t, position, LiveTable, true); r.Some? && id in r.value
  {
    assert id in Found(t.live, position, true);
  }

  // ---------------------------------------------------------------------------
  // update_variant_in_queue

  /** One submitted value as stored: trimmed, with '' (and NULL) stored as NULL. */
  function CleanValue(v: Option<string>): (r: Option<string>)
    ensures r.None? <==> Trim(Str(v)) == ""
    ensures r.Some? ==> r.value == Trim(Str(v))
    ensures r.Some? ==> |r.value| > 0 && !IsTrimChar(r.value[0]) && !IsTrimChar(r.value[|r.value| - 1])
  {
    var s := Trim(Str(v));
    if s == "" then None else Some(s)
  }

  /** The submitted fields that are columns of the queue, cleaned. */
  function Clean(data: Row): (c: Row)
    ensures c.Keys == data.Keys * Columns
    ensures forall k :: k in c ==> c[k] == CleanValue(data[k])
  {
    map k | k in data && k in Columns :: CleanValue(data[k])
  }

  /** array_diff_assoc: the cleaned fields whose string form differs from the row's (NULL reads as ''). */
  function DiffKeys(clean: Row, l: Row): (ks: set<string>)
    ensures forall k :: k in ks <==> k in clean && Str(clean[k]) != Str(Get(l, k))
  {
    set k | k in clean && Str(clean[k]) != Str(Get(l, k))
  }

  /**
   * Stage an edit. A staged variant takes the cleaned fields at once; an
   * unstaged one is first copied from the live table, and only when some
   * cleaned field differs from its live value. The flag says whether the
   * queue was written.
   */
  function UpdateInQueue(t: Tables, id: int, data: Row): (r: (Tables, bool))
    requires id in t.queue || id in t.live || Clean(data) == map[]
    ensures r.1 <==> id in t.queue || (id in t.live && DiffKeys(Clean(data), t.live[id]) != {})
    ensures !r.1 ==> r.0 == t
    ensures r.0.live == t.live && r.0.reviews == t.reviews && r.0.nextId == t.nextId && r.0.nextReviewId == t.nextReviewId
    ensures r.0.queue.Keys == if r.1 then t.queue.Keys + {id} else t.queue.Keys
    ensures forall i :: i in t.queue && i != id ==> r.0.queue[i] == t.queue[i]
  {
    if id in t.queue then
      (t.(queue := t.queue[id := t.queue[id] + Clean(data)]), true)
    else if id !in t.live || DiffKeys(Clean(data), t.live[id]) == {} then
      (t, false)
    else
      (t.(queue := t.queue[id := t.live[id] + Clean(data)]), true)
  }

  /**
   * After a write the staged row holds every cleaned field, and the value it
   * had before (staged or live) in every other column.
   */
  lemma UpdateStoresCleanValues(t: Tables, id: int, data: Row, c: string)
    requires id in t.queue || id in t.live
    requires UpdateInQueue(t, id, data).1
    ensures var q := UpdateInQueue(t, id, data).0.queue;
      var before := if id in t.queue then t.queue[id] else t.live[id];
      Get(q[id], c) == if c in Clean(data) then CleanValue(data[c]) else Get(before, c)
  {
  }

  /** An edit repeated is written once more to the same effect. */
  lemma UpdateTwiceIsOnce(t: Tables, id: int, data: Row)
    requires id in t.queue || id in t.live
    requires UpdateInQueue(t, id, data).1
    ensures var once := UpdateInQueue(t, id, data).0;
      UpdateInQueue(once, id, data) == (once, true)
  {
    var c := Clean(data);
    var base := if id in t.queue then t.queue[id] else t.live[id];
    var once := UpdateInQueue(t, id, data).0;
    assert once == t.(queue := t.queue[id := base + c]);
    var twice := UpdateInQueue(once, id, data);
    assert twice.0 == once.(queue := once.queue[id := once.queue[id] + c]);
    OverlayTwice(base, c);
    SameWrite(once.queue, id, once.queue[id] + c);
  }

  lemma OverlayTwice(base: Row, c: Row)
    ensures (base + c) + c == base + c
  {
  }

  /** Writing a key the value it already holds leaves the map as it is. */
  lemma SameWrite<K, W>(m: map<K, W>, k: K, v: W)
    requires k in m && m[k] == v
    ensures m[k := v] == m
  {
  }

  /** An edit submitting only NULLs and blanks for columns that are NULL in the live row stages nothing. */
  lemma BlankEditOfNullRowStagesNothing(t: Tables, id: int, data: Row)
    requires id in t.live && id !in t.queue
    requires forall k :: k in data && k in Columns ==> Trim(Str(data[k])) == "" && Get(t.live[id], k).None?
    ensures UpdateInQueue(t, id, data) == (t, false)
  {
    assert DiffKeys(Clean(data), t.live[id]) == {};
  }

  lemma UpdateInQueueValid(t: Tables, id: int, data: Row)
    requires Valid(t)
    requires id in t.queue || id in t.live || Clean(data) == map[]
    ensures Valid(UpdateInQueue(t, id, data).0)
  {
    var r := UpdateInQueue(t, id, data);
    if r.1 {
      var base := if id in t.queue then t.queue[id] else t.live[id];
      OverlayKeys(base, Clean(data), Columns);
      assert r.0 == t.(queue := t.queue[id := base + Clean(data)]);
      QueueWriteValid(t, id, base + Clean(data));
    }
  }

  /** A row overlaid with some of its own columns keeps its columns. */
  lemma OverlayKeys(base: Row, c: Row, cols: set<string>)
    requires base.Keys == cols && c.Keys <= cols
    ensures (base + c).Keys == cols
  {
  }

  /** Writing a well-formed row to the queue for a live variant keeps the tables valid. */
  lemma QueueWriteValid(t: Tables, id: int, row: Row)
    requires Valid(t) && id in t.live && WellFormed(row)
    ensures Valid(t.(queue := t.queue[id := row]))
  {
  }

  // ---------------------------------------------------------------------------
  // update_variant_review_info

  /** The review columns a caller sets; a None leaves the column as it is, or at its default in a new row. */
  datatype ReviewData = ReviewData(confirmed: Option<bool>, scheduled: Option<bool>, comments: Option<Option<string>>)

  /** The call without data, as create_new_variant makes it. */
  const NoReviewData: ReviewData := ReviewData(None, None, None)

  function Given<T>(v: Option<T>, otherwise: T): T {
    if v.Some? then v.value else otherwise
  }

  /**
   * Upsert the review of a variant: the given columns and the update time are
   * written; a new row also gets the creation time and the next review id.
   */
  function Upsert(t: Tables, id: int, d: ReviewData, now: string): (r: Tables)
    ensures r.live == t.live && r.queue == t.queue && r.nextId == t.nextId
    ensures r.reviews.Keys == t.reviews.Keys + {id}
    ensures forall v :: v in t.reviews && v != id ==> r.reviews[v] == t.reviews[v]
  {
    if id in t.reviews then
      var v := t.reviews[id];
      t.(reviews := t.reviews[id := Review(v.rid, Given(d.confirmed, v.confirmed), Given(d.scheduled, v.scheduled),
                                           Given(d.comments, v.comments), v.created, now)])
    else
      t.(reviews := t.reviews[id := Review(t.nextReviewId, Given(d.confirmed, false), Given(d.scheduled, false),
                                           Given(d.comments, None), now, now)],
         nextReviewId := t.nextReviewId + 1)
  }

  /**
   * The review written carries the update time and the given columns; an
   * existing review keeps its id, creation time and every column not given; a
   * new review gets a fresh id and the creation time.
   */
  lemma UpsertSpec(t: Tables, id: int, d: ReviewData, now: string)
    requires Valid(t)
    ensures var r := Upsert(t, id, d, now).reviews[id];
      && r.updated == now
      && (d.confirmed.Some? ==> r.confirmed == d.confirmed.value)
      && (d.scheduled.Some? ==> r.scheduled == d.scheduled.value)
      && (d.comments.Some? ==> r.comments == d.comments.value)
    ensures id in t.reviews ==> var r := Upsert(t, id, d, now).reviews[id];
      && r.rid == t.reviews[id].rid && r.created == t.reviews[id].created
      && (d.confirmed.None? ==> r.confirmed == t.reviews[id].confirmed)
      && (d.scheduled.None? ==> r.scheduled == t.reviews[id].scheduled)
      && (d.comments.None? ==> r.comments == t.reviews[id].comments)
    ensures id !in t.reviews ==> var r := Upsert(t, id, d, now).reviews[id];
      && r.created == now
      && (forall v :: v in t.reviews ==> t.reviews[v].rid != r.rid)
    ensures Valid(Upsert(t, id, d, now))
  {
  }

  /** The same upsert twice at the same time leaves the ledger as once. */
  lemma UpsertIdempotent(t: Tables, id: int, d: ReviewData, now: string)
    ensures Upsert(Upsert(t, id, d, now), id, d, now) == Upsert(t, id, d, now)
  {
    var once := Upsert(t, id, d, now);
    assert once.reviews[id := once.reviews[id]] == once.reviews;
  }

  // ---------------------------------------------------------------------------
  // remove_all_changes, remove_from_queue_if_unchanged

  /** The empty record that reserves a new variant's id: variation and nucleotide change both NULL. */
  predicate IsPlaceholder(r: Row) {
    Get(r, "variation").None? && Get(r, "hgvs_nucleotide_change").None?
  }

  /** `DELETE FROM live WHERE id = id AND variation IS NULL AND hgvs_nucleotide_change IS NULL` */
  function DropPlaceholder(live: map<int, Row>, id: int): (r: map<int, Row>)
    ensures r.Keys == if id in live && IsPlaceholder(live[id]) then live.Keys - {id} else live.Keys
    ensures forall i :: i in r ==> r[i] == live[i]
  {
    if id in live && IsPlaceholder(live[id]) then live - {id} else live
  }

  /** Drop a variant's staged row and its review, and its live row when that is still a placeholder. */
  function RemoveAll(t: Tables, id: int): (r: Tables)
    ensures id !in r.queue && id !in r.reviews
    ensures r.queue == t.queue - {id} && r.reviews == t.reviews - {id}
    ensures id in t.live && !IsPlaceholder(t.live[id]) ==> r.live == t.live
    ensures id in t.live && IsPlaceholder(t.live[id]) ==> r.live == t.live - {id}
    ensures Valid(t) ==> Valid(r)
  {
    t.(queue := t.queue - {id}, reviews := t.reviews - {id}, live := DropPlaceholder(t.live, id))
  }

  /** The candidates get_unreleased_changes compares: one variant (queue row, else live row), or the whole queue. */
  function Candidates(t: Tables, variantId: Option<int>): map<int, Row> {
    match variantId
    case None => t.queue
    case Some(id) =>
      match ById(t, id, QueueTable)
      case Some(r) => map[id := r]
      case None => map[]
  }

  /** The reviews its second pass walks: the one variant's, or the whole ledger. */
  function ReviewsFor(t: Tables, variantId: Option<int>): map<int, Review> {
    match variantId
    case None => t.reviews
    case Some(id) => if id in t.reviews then map[id := t.reviews[id]] else map[]
  }

  /** get_unreleased_changes for one variant or for all. */
  function Unreleased(t: Tables, variantId: Option<int>): Option<map<int, Diff.Entry>> {
    Diff.Unreleased(Candidates(t, variantId), t.live, t.reviews, ReviewsFor(t, variantId))
  }

  /** `empty($result[$id]['changes'])`: nothing listed, the variant not listed, or listed without changes. */
  predicate Unchanged(t: Tables, id: int) {
    var u := Unreleased(t, Some(id));
    u.None? || id !in u.value || u.value[id].changes == map[]
  }

  /** Drop the staged row (and the placeholder live row) of a variant whose changes are empty; the review stays. */
  function RemoveIfUnchanged(t: Tables, id: int): (r: Tables)
    ensures r.reviews == t.reviews && r.nextId == t.nextId && r.nextReviewId == t.nextReviewId
    ensures Unchanged(t, id) ==> r.queue == t.queue - {id} && r.live == DropPlaceholder(t.live, id)
    ensures !Unchanged(t, id) ==> r == t
    ensures Valid(t) ==> Valid(r)
  {
    if Unchanged(t, id) then t.(queue := t.queue - {id}, live := DropPlaceholder(t.live, id)) else t
  }

  /** A staged row with a listed field change stays staged. */
  lemma RemoveIfUnchangedKeepsEdits(t: Tables, id: int, f: string)
    requires Valid(t) && id in t.queue && f in t.queue[id]
    requires Diff.FieldChange(t.queue[id][f], Get(t.live[id], f), Diff.IsNew(t.live, id)).Some?
    ensures RemoveIfUnchanged(t, id) == t
  {
    var q := t.queue[id];
    var cands := Candidates(t, Some(id));
    assert id in cands && cands[id] == q;
    assert q[f] != Get(t.live[id], f);
    assert q != t.live[id];
    var compared := Diff.Compared(cands, t.live, t.reviews);
    assert id in compared;
    assert f in compared[id].changes;
    ComparedKept(cands, t.live, t.reviews, ReviewsFor(t, Some(id)), id);
  }

  /** A variant listed by the first pass keeps its entry in the result. */
  lemma ComparedKept(cands: map<int, Row>, live: map<int, Row>, reviews: map<int, Review>, revs: map<int, Review>, id: int)
    requires id in Diff.Compared(cands, live, reviews)
    ensures var u := Diff.Unreleased(cands, live, reviews, revs);
      u.Some? && id in u.value && u.value[id] == Diff.Compared(cands, live, reviews)[id]
  {
    var v := Diff.WithReviews(Diff.Compared(cands, live, reviews), revs, live);
    assert id in v;
  }

  /** A staged row equal to its live row is dropped, whatever its review says. */
  lemma RemoveIfUnchangedDropsCopies(t: Tables, id: int)
    requires Valid(t) && id in t.queue && t.queue[id] == t.live[id]
    ensures RemoveIfUnchanged(t, id).queue == t.queue - {id}
  {
    var cands := Candidates(t, Some(id));
    assert cands == map[id := t.queue[id]];
    Diff.NoChangesForEqualRows(t.queue[id], t.live[id], Diff.IsNew(t.live, id));
    var u := Unreleased(t, Some(id));
    if u.Some? && id in u.value {
      if id !in Diff.Compared(cands, t.live, t.reviews) {
        Diff.ReviewEntriesEmpty(cands, t.live, t.reviews, ReviewsFor(t, Some(id)), id);
      }
    }
  }

  // ---------------------------------------------------------------------------
  // create_new_variant

  /** The rows of a table holding exactly this variation. */
  function WithVariation(tbl: map<int, Row>, variation: string): set<int> {
    set id | id in tbl && Get(tbl[id], "variation") == Some(variation)
  }

  /** The variation is already in the live table or the queue. */
  predicate Known(t: Tables, variation: string) {
    WithVariation(t.live, variation) != {} || WithVariation(t.queue, variation) != {}
  }

  /** The code returned for a variation already in the database. */
  const Conflict: int := -409

  /** The record a manual insert starts from. */
  function ManualRecord(variation: string): Row {
    map["variation" := Some(variation), "pathogenicity" := Some("Unknown significance"),
        "comments" := Some("Manual curation in progress.")]
  }

  /**
   * The record create_new_variant stages, as written: the manual record is
   * always overwritten, since the annotation tool runs whenever no CADI data
   * is given.
   */
  function AnnotationAsWritten(variation: string, manual: bool, cadi: Option<Row>,
                               configured: bool, freqs: seq<string>, tool: string -> Annotation.ToolRun)
    : Result<Row, Annotation.AnnotationError>
  {
    if cadi.Some? then Success(cadi.value)
    else Annotation.GetAnnotationData(variation, configured, freqs, tool)
  }

  /** The record as evidently intended: CADI data, else the manual record in manual mode, else the tool's. */
  function AnnotationFor(variation: string, manual: bool, cadi: Option<Row>,
                         configured: bool, freqs: seq<string>, tool: string -> Annotation.ToolRun)
    : (r: Result<Row, Annotation.AnnotationError>)
    ensures cadi.Some? ==> r == Success(cadi.value)
    ensures manual && cadi.None? ==> r == Success(ManualRecord(variation))
    ensures !manual && cadi.None? ==> r == AnnotationAsWritten(variation, manual, cadi, configured, freqs, tool)
  {
    if cadi.Some? then Success(cadi.value)
    else if manual then Success(ManualRecord(variation))
    else Annotation.GetAnnotationData(variation, configured, freqs, tool)
  }

  /** As written, a manual insert still fails when the annotation tool is not configured. */
  lemma ManualModeStillAnnotates(variation: string, freqs: seq<string>, tool: string -> Annotation.ToolRun)
    ensures AnnotationAsWritten(variation, true, None, false, freqs, tool) == Failure(Annotation.ToolNotConfigured)
    ensures AnnotationFor(variation, true, None, false, freqs, tool).Success?
  {
  }

  /**
   * Create a variant: refuse a known variation unless in manual mode, return
   * the annotation's error code, else reserve the next id with a placeholder
   * live row, stage the record over an all-NULL row and open its review.
   */
  function Create(t: Tables, variation: string, manual: bool, annot: Result<Row, Annotation.AnnotationError>, now: string)
    : (Tables, int)
  {
    if !manual && Known(t, variation) then (t, Conflict)
    else if annot.Failure? then (t, Annotation.ErrorCode(annot.error))
    else
      var staged := UpdateInQueue(Reserve(t), t.nextId, NullRow() + annot.value).0;
      (Upsert(staged, t.nextId, NoReviewData, now), t.nextId)
  }

  /** The placeholder insert: the next id gets an all-NULL live row. */
  function Reserve(t: Tables): (r: Tables)
    ensures r.nextId == t.nextId + 1 && t.nextId in r.live && r.live[t.nextId] == NullRow()
  {
    t.(live := t.live[t.nextId := NullRow()], nextId := t.nextId + 1)
  }

  /** Creating a variant keeps the tables valid. */
  lemma CreateValid(t: Tables, variation: string, manual: bool, annot: Result<Row, Annotation.AnnotationError>, now: string)
    requires Valid(t)
    ensures Valid(Create(t, variation, manual, annot, now).0)
  {
    if (manual || !Known(t, variation)) && annot.Success? {
      ReserveValid(t);
      UpdateInQueueValid(Reserve(t), t.nextId, NullRow() + annot.value);
      var staged := UpdateInQueue(Reserve(t), t.nextId, NullRow() + annot.value).0;
      UpsertSpec(staged, t.nextId, NoReviewData, now);
    }
  }

  /** Reserving the next id with a placeholder row keeps the tables valid. */
  lemma ReserveValid(t: Tables)
    requires Valid(t)
    ensures Valid(Reserve(t))
  {
  }

  /** The staged record's columns: the given value where one was given, NULL elsewhere. */
  function Staged(a: Row): Row {
    Clean(NullRow() + a)
  }

  /** A refused variation and an annotation error leave the tables alone and return a negative code. */
  lemma CreateRefused(t: Tables, variation: string, manual: bool, annot: Result<Row, Annotation.AnnotationError>, now: string)
    requires Valid(t)
    ensures var r := Create(t, variation, manual, annot, now);
      && (r.1 == Conflict <==> !manual && Known(t, variation))
      && (r.1 < 0 <==> (!manual && Known(t, variation)) || annot.Failure?)
      && (r.1 < 0 ==> r.0 == t)
      && (r.1 < 0 && r.1 != Conflict ==> r.1 == Annotation.ErrorCode(annot.error))
  {
  }

  /**
   * Once the variation is admitted (manual mode, or not yet known), a created
   * variant gets the next id, a placeholder live row and a new review; a queue
   * row exists exactly when the record has a non-blank value for some column,
   * and then holds the record's cleaned values over NULLs.
   */
  lemma CreateSucceeds(t: Tables, variation: string, manual: bool, a: Row, now: string)
    requires Valid(t) && t.nextId !in t.reviews
    requires manual || !Known(t, variation)
    ensures var r := Create(t, variation, manual, Success(a), now);
      && r.1 == t.nextId && r.1 !in t.live && r.1 >= 1
      && r.0.live == t.live[r.1 := NullRow()]
      && r.0.reviews == t.reviews[r.1 := Review(t.nextReviewId, false, false, None, now, now)]
      && r.0.nextId == t.nextId + 1 && r.0.nextReviewId == t.nextReviewId + 1
      && (r.1 in r.0.queue <==> exists k :: k in Staged(a) && Staged(a)[k].Some?)
      && (r.1 in r.0.queue ==> r.0.queue == t.queue[r.1 := NullRow() + Staged(a)])
      && (r.1 !in r.0.queue ==> r.0.queue == t.queue)
  {
    var id := t.nextId;
    var u := UpdateInQueue(Reserve(t), id, NullRow() + a);
    CreateStaging(t, a);
    assert u.0.reviews == t.reviews && u.0.nextReviewId == t.nextReviewId;
    assert Create(t, variation, manual, Success(a), now) == (Upsert(u.0, id, NoReviewData, now), id);
  }

  /** The staging step of Create: a queue row exactly when the record has a value. */
  lemma CreateStaging(t: Tables, a: Row)
    requires Valid(t)
    ensures var u := UpdateInQueue(Reserve(t), t.nextId, NullRow() + a);
      && t.nextId !in t.live && t.nextId >= 1
      && u.0.live == t.live[t.nextId := NullRow()]
      && u.0.reviews == t.reviews && u.0.nextId == t.nextId + 1 && u.0.nextReviewId == t.nextReviewId
      && (u.1 <==> exists k :: k in Staged(a) && Staged(a)[k].Some?)
      && (u.1 ==> u.0.queue == t.queue[t.nextId := NullRow() + Staged(a)])
      && (!u.1 ==> u.0.queue == t.queue)
  {
    assert t.nextId !in t.queue;
    StagedDiffers(a);
  }

  /** The staged record differs from the placeholder exactly when one of its values is not NULL. */
  lemma StagedDiffers(a: Row)
    ensures DiffKeys(Staged(a), NullRow()) != {} <==> exists k :: k in Staged(a) && Staged(a)[k].Some?
  {
    var c := Staged(a);
    if exists k :: k in c && c[k].Some? {
      var k :| k in c && c[k].Some?;
      assert Get(NullRow(), k) == None;
      assert k in DiffKeys(c, NullRow());
    }
  }

  /** In manual mode the variation given is staged, even when the annotation tool is not configured. */
  lemma ManualCreateStagesVariation(t: Tables, variation: string, configured: bool, freqs: seq<string>,
                                    tool: string -> Annotation.ToolRun, now: string)
    requires Valid(t) && t.nextId !in t.reviews
    requires |variation| > 0 && !IsTrimChar(variation[0]) && !IsTrimChar(variation[|variation| - 1])
    ensures var r := Create(t, variation, true, AnnotationFor(variation, true, None, configured, freqs, tool), now);
      r.1 == t.nextId && r.1 in r.0.queue && Get(r.0.queue[r.1], "variation") == Some(variation)
  {
    var a := ManualRecord(variation);
    ManualRecordStaged(variation);
    CreateSucceeds(t, variation, true, a, now);
    assert Get(NullRow() + Staged(a), "variation") == Some(variation);
  }

  /** The manual record's variation survives the cleaning when it has no surrounding blanks. */
  lemma ManualRecordStaged(variation: string)
    requires |variation| > 0 && !IsTrimChar(variation[0]) && !IsTrimChar(variation[|variation| - 1])
    ensures "variation" in Staged(ManualRecord(variation)) && Staged(ManualRecord(variation))["variation"] == Some(variation)
  {
    NamedColumns();
    assert TrimLeft(variation) == variation;
    assert TrimRight(variation) == variation;
    assert (NullRow() + ManualRecord(variation))["variation"] == Some(variation);
  }

  /** Removing a variant just created restores the tables, apart from the two counters. */
  lemma RemoveAllUndoesCreate(t: Tables, variation: string, a: Row, now: string)
    requires Valid(t) && t.nextId !in t.reviews
    requires !Known(t, variation)
    ensures var r := Create(t, variation, false, Success(a), now);
      RemoveAll(r.0, r.1) == t.(nextId := t.nextId + 1, nextReviewId := t.nextReviewId + 1)
  {
    CreateSucceeds(t, variation, false, a, now);
    var r := Create(t, variation, false, Success(a), now);
    var id := r.1;
    var rm := RemoveAll(r.0, id);
    assert rm.live == t.live by {
      PlaceholderNull();
      WriteThenRemove(t.live, id, NullRow());
    }
    assert rm.reviews == t.reviews by {
      WriteThenRemove(t.reviews, id, Review(t.nextReviewId, false, false, None, now, now));
    }
    assert rm.queue == t.queue by {
      if id in r.0.queue {
        WriteThenRemove(t.queue, id, NullRow() + Staged(a));
      }
    }
  }

  /** The all-NULL row is a placeholder. */
  lemma PlaceholderNull()
    ensures IsPlaceholder(NullRow())
  {
    NamedColumns();
  }

  lemma WriteThenRemove<K, W>(m: map<K, W>, k: K, v: W)
    requires k !in m
    ensures m[k := v] - {k} == m
  {
  }

  // ---------------------------------------------------------------------------
  // push_data_live

  /** The tables after a release: the deletion pass, then the merge that empties the queue and the ledger. */
  function Push(t: Tables, confirmedOnly: bool): Tables {
    var del := Release.DeleteSet(t.reviews, confirmedOnly);
    var upd := Release.UpdateSet(t.reviews, confirmedOnly);
    var pruned :=
      if del == {} then t
      else t.(reviews := Release.WithoutReviewRows(t.reviews, del), queue := Release.Without(t.queue, del),
              live := Release.Without(t.live, del));
    if upd == {} then pruned
    else pruned.(live := Release.Merge(pruned.live, pruned.queue), queue := map[], reviews := map[])
  }

  /** The live rows the deletion pass copies to the variations log. */
  function PushLogged(t: Tables, confirmedOnly: bool): multiset<(int, Row)> {
    var del := Release.DeleteSet(t.reviews, confirmedOnly);
    if del == {} then multiset{} else Release.LoggedRows(t.live, del)
  }

  /**
   * Without a selected review a release changes no table. With one, every
   * variant selected for deletion is gone, every other live variant holds its
   * staged row when it has one (confirmed or not), and the queue and the whole
   * ledger are empty.
   */
  lemma PushSpec(t: Tables, confirmedOnly: bool)
    requires Valid(t)
    ensures var del := Release.DeleteSet(t.reviews, confirmedOnly);
      var upd := Release.UpdateSet(t.reviews, confirmedOnly);
      var r := Push(t, confirmedOnly);
      && (upd == {} ==> r == t && PushLogged(t, confirmedOnly) == multiset{})
      && (upd != {} ==> r.queue == map[] && r.reviews == map[])
      && (upd != {} ==> r.live.Keys == t.live.Keys - del)
      && (upd != {} ==> forall id :: id in r.live ==> r.live[id] == if id in t.queue then t.queue[id] else t.live[id])
    ensures Valid(Push(t, confirmedOnly))
  {
    Release.DeleteWithinUpdate(t.reviews, confirmedOnly);
  }

  /** The log receives each deleted variant's live row, once. */
  lemma PushLoggedSpec(t: Tables, confirmedOnly: bool, id: int, row: Row)
    ensures var del := Release.DeleteSet(t.reviews, confirmedOnly);
      PushLogged(t, confirmedOnly)[(id, row)] == if id in del && id in t.live && row == t.live[id] then 1 else 0
  {
  }

  /**
   * The ledger's deletion by review id is masked: whenever a variant is
   * deleted, some review is selected for update and the merge empties the
   * whole ledger.
   */
  lemma DeletionEmptiesLedger(t: Tables, confirmedOnly: bool)
    requires Release.DeleteSet(t.reviews, confirmedOnly) != {}
    ensures Push(t, confirmedOnly).reviews == map[]
  {
    Release.DeleteWithinUpdate(t.reviews, confirmedOnly);
  }

  // ---------------------------------------------------------------------------
  // apply_expert_curations, update_disease_names

  /** New queue rows with the old ids and the table's columns keep the tables valid. */
  lemma QueueRowsValid(t: Tables, queue: map<int, Row>)
    requires Valid(t) && queue.Keys == t.queue.Keys
    requires forall id :: id in queue ==> WellFormed(queue[id])
    ensures Valid(t.(queue := queue))
  {
  }

  /** The overrides write only columns of the table, and the scheduling keeps every review's id. */
  lemma ApplyExpertValid(t: Tables, experts: map<string, ExpertCuration>)
    requires Valid(t)
    ensures Valid(t.(reviews := Expert.Scheduled(t.reviews, Expert.ToSchedule(t.queue, experts)),
                     queue := Expert.ApplyOverrides(t.queue, experts)))
  {
    NamedColumns();
    var q := Expert.ApplyOverrides(t.queue, experts);
    forall id | id in q ensures WellFormed(q[id]) {
      assert WellFormed(t.queue[id]);
    }
    QueueRowsValid(t, q);
  }

  /** A rename writes only the disease column. */
  lemma RenameValid(t: Tables, n: Expert.Rename)
    requires Valid(t)
    ensures Valid(t.(queue := Expert.RenameRows(t.queue, n)))
  {
    NamedColumns();
    var q := Expert.RenameRows(t.queue, n);
    forall id | id in q ensures WellFormed(q[id]) {
      assert WellFormed(t.queue[id]);
    }
    QueueRowsValid(t, q);
  }
}
