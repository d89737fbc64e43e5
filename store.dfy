/**
 * The variations model as an object over its tables. Each method changes the
 * tables the way the PHP method of the same name does, and is proved to leave
 * them as the Variants, Release and Expert functions describe.
 */
module Store {
  import opened Wrappers
  import opened PhpStrings
  import opened Schema
  import opened Variants
  import Annotation
  import Diff
  import Release
  import Expert
  import Cadi

  /** The tables an import of CADI lines leaves: each line with a variation is created in turn. */
  function CadiFold(t: Tables, lines: seq<string>, now: string): Tables
    decreases |lines|
  {
    if |lines| == 0 then t
    else
      var record := Cadi.CadiRecord(lines[0]);
      var next := if record.Some? then Create(t, Cadi.CadiVariation(lines[0]), false, Success(record.value), now).0 else t;
      CadiFold(next, lines[1..], now)
  }

  /** Creating a variant never changes or drops a live row that was there before. */
  lemma CreateKeepsLive(t: Tables, variation: string, manual: bool, annot: Result<Row, Annotation.AnnotationError>, now: string)
    requires Valid(t)
    ensures var r := Create(t, variation, manual, annot, now).0;
      t.live.Keys <= r.live.Keys && forall id :: id in t.live ==> r.live[id] == t.live[id]
  {
    var r := Create(t, variation, manual, annot, now).0;
    CreateLive(t, variation, manual, annot, now);
    assert t.nextId !in t.live;
    assert r.live == t.live || r.live == t.live[t.nextId := NullRow()];
  }

  /** The live table after a create: the placeholder row added when the variant is admitted. */
  lemma CreateLive(t: Tables, variation: string, manual: bool, annot: Result<Row, Annotation.AnnotationError>, now: string)
    requires Valid(t)
    ensures Create(t, variation, manual, annot, now).0.live ==
      if (manual || !Known(t, variation)) && annot.Success? then t.live[t.nextId := NullRow()] else t.live
  {
    if (manual || !Known(t, variation)) && annot.Success? {
      var s := Reserve(t);
      var u := UpdateInQueue(s, t.nextId, NullRow() + annot.value);
      assert u.0.live == s.live;
      assert Upsert(u.0, t.nextId, NoReviewData, now).live == s.live;
    }
  }

  lemma NonEmptyHasKey(s: set<string>)
    requires s != {}
    ensures exists k :: k in s
  {
    if forall k :: k !in s {
      assert false;
    }
  }

  lemma PushValid(t: Tables, confirmedOnly: bool)
    requires Valid(t)
    ensures Valid(Push(t, confirmedOnly))
  {
    PushSpec(t, confirmedOnly);
  }

  /** Two maps with the same keys and the same value at every key are equal. */
  lemma SameEntries<K, W>(a: map<K, W>, b: map<K, W>)
    requires a.Keys == b.Keys && forall k :: k in a ==> a[k] == b[k]
    ensures a == b
  {
  }

  /** Writing a key twice leaves the second value. */
  lemma Rewrite<K, W>(m: map<K, W>, k: K, a: W, b: W)
    ensures m[k := a][k := b] == m[k := b]
  {
  }

  /** An import keeps the tables valid and keeps every live row that was there before. */
  lemma {:induction false} CadiFoldKeepsLive(t: Tables, lines: seq<string>, now: string)
    requires Valid(t)
    ensures var r := CadiFold(t, lines, now);
      && Valid(r)
      && t.live.Keys <= r.live.Keys
      && forall id :: id in t.live ==> r.live[id] == t.live[id]
    decreases |lines|
  {
    if |lines| > 0 {
      var record := Cadi.CadiRecord(lines[0]);
      if record.Some? {
        var v := Cadi.CadiVariation(lines[0]);
        CreateValid(t, v, false, Success(record.value), now);
        CreateKeepsLive(t, v, false, Success(record.value), now);
        CadiFoldKeepsLive(Create(t, v, false, Success(record.value), now).0, lines[1..], now);
      } else {
        CadiFoldKeepsLive(t, lines[1..], now);
      }
    }
  }

  /**
   * A CADI line imported twice creates one variant: once its (blank-free)
   * variation is staged, the second import is refused as a conflict.
   */
  lemma CadiLineTwice(t: Tables, line: string, now: string)
    requires Valid(t) && t.nextId !in t.reviews
    requires Cadi.CadiRecord(line).Some?
    requires var v := Cadi.CadiVariation(line); |v| > 0 && !IsTrimChar(v[0]) && !IsTrimChar(v[|v| - 1])
    ensures var v := Cadi.CadiVariation(line);
      var a := Success(Cadi.CadiRecord(line).value);
      Create(Create(t, v, false, a, now).0, v, false, a, now).1 == Conflict
  {
    var v := Cadi.CadiVariation(line);
    var a := Cadi.CadiRecord(line).value;
    if !Known(t, v) {
      CadiStagedVariation(line);
      CreateMakesKnown(t, v, a, now);
    }
  }

  /** The staged CADI record holds the line's variation, unchanged by the trimming. */
  lemma CadiStagedVariation(line: string)
    requires Cadi.CadiRecord(line).Some?
    requires var v := Cadi.CadiVariation(line); |v| > 0 && !IsTrimChar(v[0]) && !IsTrimChar(v[|v| - 1])
    ensures var s := Staged(Cadi.CadiRecord(line).value);
      "variation" in s && s["variation"] == Some(Cadi.CadiVariation(line))
  {
    var v := Cadi.CadiVariation(line);
    NamedColumns();
    Cadi.CadiVariationStored(line);
    assert TrimLeft(v) == v;
    assert TrimRight(v) == v;
  }

  /** A created variant whose staged record names a variation makes that variation known. */
  lemma CreateMakesKnown(t: Tables, v: string, a: Row, now: string)
    requires Valid(t) && t.nextId !in t.reviews && !Known(t, v)
    requires "variation" in Staged(a) && Staged(a)["variation"] == Some(v)
    ensures Known(Create(t, v, false, Success(a), now).0, v)
  {
    CreateSucceeds(t, v, false, a, now);
    var r := Create(t, v, false, Success(a), now);
    assert r.1 in r.0.queue;
    assert Get(r.0.queue[r.1], "variation") == Some(v);
    assert r.1 in WithVariation(r.0.queue, v);
  }

  class VariantStore {
    var live: map<int, Row>
    var queue: map<int, Row>
    /** The review ledger, one row per variant id. */
    var reviews: map<int, Review>
    var nextId: int
    var nextReviewId: int
    /** The variations log: live rows copied out before a release deletes them. */
    var variationsLog: multiset<(int, Row)>
    var versions: seq<VersionRecord>
    /** The variant_count table: the number of live variants per gene. */
    var variantCount: map<Option<string>, nat>
    var expertCurations: map<string, ExpertCuration>
    var expertLog: multiset<ExpertCuration>
    /** The configured version number a release records. */
    const version: int

    /** The variant tables and the counters, as one value. */
    function State(): Tables
      reads this
    {
      Tables(live, queue, reviews, nextId, nextReviewId)
    }

    predicate Valid()
      reads this
    {
      Variants.Valid(State())
    }

    constructor(version: int)
      ensures Valid() && this.version == version
      ensures live == map[] && queue == map[] && reviews == map[]
      ensures variationsLog == multiset{} && versions == [] && variantCount == map[]
      ensures expertCurations == map[] && expertLog == multiset{}
      ensures nextId == 1 && nextReviewId == 1
    {
      live := map[];
      queue := map[];
      reviews := map[];
      nextId := 1;
      nextReviewId := 1;
      variationsLog := multiset{};
      versions := [];
      variantCount := map[];
      expertCurations := map[];
      expertLog := multiset{};
      this.version := version;
    }

    /** copy_variant_into_queue: the live row is inserted into the queue under its id. */
    method CopyVariantIntoQueue(id: int)
      requires Valid() && id in live && id !in queue
      modifies this`queue
      ensures queue == old(queue)[id := old(live)[id]]
      ensures Valid()
    {
      var variant := ById(State(), id, QueueTable);
      queue := queue[id := variant.value];
    }

    /** The loop keeping the submitted fields that are queue columns, trimmed, '' as NULL. */
    static method CleanData(data: Row) returns (clean: Row)
      ensures clean == Clean(data)
    {
      clean := map[];
      var todo := data.Keys;
      while todo != {}
        invariant todo <= data.Keys
        invariant clean.Keys == (data.Keys - todo) * Columns
        invariant forall k :: k in clean ==> clean[k] == CleanValue(data[k])
        decreases |todo|
      {
        NonEmptyHasKey(todo);
        var k :| k in todo;
        if k in Columns {
          clean := clean[k := CleanValue(data[k])];
        }
        todo := todo - {k};
      }
      SameEntries(clean, Clean(data));
    }

    /** update_variant_in_queue */
    method UpdateVariantInQueue(id: int, data: Row) returns (written: bool)
      requires Valid() && (id in queue || id in live || Clean(data) == map[])
      modifies this`queue
      ensures (State(), written) == UpdateInQueue(old(State()), id, data)
      ensures Valid()
      decreases if id in queue then 0 else 2
    {
      ghost var t := State();
      UpdateInQueueValid(t, id, data);
      var clean := CleanData(data);
      if id in queue {
        queue := queue[id := queue[id] + clean];
        assert State() == t.(queue := t.queue[id := t.queue[id] + Clean(data)]);
        return true;
      }
      var liveVariant := ById(State(), id, LiveTable);
      var changes := DiffKeys(clean, if liveVariant.Some? then liveVariant.value else map[]);
      assert id !in live ==> clean == map[];
      if changes == {} {
        assert id in t.live ==> DiffKeys(Clean(data), t.live[id]) == {};
        return false;
      }
      StageFromLive(id, data);
      written := true;
    }

    /** The copy-then-update branch of update_variant_in_queue, for a variant not yet staged. */
    method StageFromLive(id: int, data: Row)
      requires Valid() && id in live && id !in queue
      modifies this`queue
      ensures State() == old(State()).(queue := old(queue)[id := old(live)[id] + Clean(data)])
      decreases 1
    {
      ghost var t := State();
      CopyVariantIntoQueue(id);
      ghost var mid := State();
      assert mid == t.(queue := t.queue[id := t.live[id]]);
      var _ := UpdateVariantInQueue(id, data);
      Rewrite(t.queue, id, t.live[id], t.live[id] + Clean(data));
    }

    /** update_variant_review_info */
    method UpdateVariantReviewInfo(id: int, d: ReviewData, now: string)
      requires Valid()
      modifies this`reviews, this`nextReviewId
      ensures State() == Upsert(old(State()), id, d, now)
      ensures Valid()
    {
      UpsertSpec(State(), id, d, now);
      if id in reviews {
        var v := reviews[id];
        reviews := reviews[id := Review(v.rid, Given(d.confirmed, v.confirmed), Given(d.scheduled, v.scheduled),
                                        Given(d.comments, v.comments), v.created, now)];
      } else {
        reviews := reviews[id := Review(nextReviewId, Given(d.confirmed, false), Given(d.scheduled, false),
                                        Given(d.comments, None), now, now)];
        nextReviewId := nextReviewId + 1;
      }
    }

    /**
     * create_new_variant: the annotation tool, the clock and the configuration
     * are parameters; the CADI record, when given, replaces the tool's output.
     */
    method CreateNewVariant(variation: string, manual: bool, cadi: Option<Row>, configured: bool, freqs: seq<string>,
                            tool: string -> Annotation.ToolRun, now: string)
      returns (code: int)
      requires Valid()
      modifies this`live, this`queue, this`reviews, this`nextId, this`nextReviewId
      ensures (State(), code) ==
        Create(old(State()), variation, manual, AnnotationAsWritten(variation, manual, cadi, configured, freqs, tool), now)
      ensures Valid()
    {
      ghost var t := State();
      var inLive := WithVariation(live, variation);
      var inQueue := WithVariation(queue, variation);
      if !manual && (inLive != {} || inQueue != {}) {
        return Conflict;
      }
      var annot := AnnotationAsWritten(variation, manual, cadi, configured, freqs, tool);
      if annot.Failure? {
        return Annotation.ErrorCode(annot.error);
      }
      code := InsertVariant(annot.value, now);
    }

    /**
     * The admitted branch of create_new_variant: the placeholder insert, the
     * staging of the record through update_variant_in_queue, and the review.
     */
    method InsertVariant(a: Row, now: string) returns (id: int)
      requires Valid()
      modifies this`live, this`queue, this`reviews, this`nextId, this`nextReviewId
      ensures id == old(nextId)
      ensures State() == Upsert(UpdateInQueue(Reserve(old(State())), id, NullRow() + a).0, id, NoReviewData, now)
      ensures Valid()
    {
      ghost var t := State();
      ReserveValid(t);
      id := nextId;
      live := live[id := NullRow()];
      nextId := nextId + 1;
      assert State() == Reserve(t);
      var _ := UpdateVariantInQueue(id, NullRow() + a);
      ghost var staged := State();
      assert staged == UpdateInQueue(Reserve(t), id, NullRow() + a).0;
      UpdateVariantReviewInfo(id, NoReviewData, now);
    }

    /** remove_all_changes */
    method RemoveAllChanges(id: int)
      requires Valid()
      modifies this`live, this`queue, this`reviews
      ensures State() == RemoveAll(old(State()), id)
      ensures Valid()
    {
      queue := queue - {id};
      reviews := reviews - {id};
      live := DropPlaceholder(live, id);
    }

    /** get_unreleased_changes for one variant (Some id) or for the whole queue (None). */
    method UnreleasedChanges(variantId: Option<int>) returns (r: Option<map<int, Diff.Entry>>)
      ensures r == Unreleased(State(), variantId)
    {
      var candidates: map<int, Row>;
      var revs: map<int, Review>;
      if variantId.Some? {
        var id := variantId.value;
        var variant := ById(State(), id, QueueTable);
        candidates := if variant.Some? then map[id := variant.value] else map[];
        revs := if id in reviews then map[id := reviews[id]] else map[];
      } else {
        candidates := queue;
        revs := reviews;
      }
      r := Diff.BuildUnreleased(candidates, live, reviews, revs);
    }

    /** `empty($result[$id]['changes'])` over this variant's unreleased changes. */
    method HasNoChanges(id: int) returns (b: bool)
      ensures b == Unchanged(State(), id)
    {
      var result := UnreleasedChanges(Some(id));
      b := result.None? || id !in result.value || result.value[id].changes == map[];
    }

    /** remove_from_queue_if_unchanged */
    method RemoveFromQueueIfUnchanged(id: int)
      requires Valid()
      modifies this`live, this`queue
      ensures State() == RemoveIfUnchanged(old(State()), id)
      ensures Valid()
    {
      var noChanges := HasNoChanges(id);
      if noChanges {
        queue := queue - {id};
        live := DropPlaceholder(live, id);
      }
    }

    /** The deletion pass of push_data_live: the selected variants' live rows are logged, then deleted everywhere. */
    method DeleteSelected(deleteVariants: set<int>)
      requires deleteVariants != {}
      modifies this`live, this`queue, this`reviews, this`variationsLog
      ensures variationsLog == old(variationsLog) + Release.LoggedRows(old(live), deleteVariants)
      ensures reviews == Release.WithoutReviewRows(old(reviews), deleteVariants)
      ensures queue == Release.Without(old(queue), deleteVariants)
      ensures live == Release.Without(old(live), deleteVariants)
    {
      variationsLog := variationsLog + Release.LoggedRows(live, deleteVariants);
      reviews := Release.WithoutReviewRows(reviews, deleteVariants);
      queue := Release.Without(queue, deleteVariants);
      live := Release.Without(live, deleteVariants);
    }

    /** The table changes of push_data_live: the deletion pass, then the merge that empties the queue and the ledger. */
    method ReleaseTables(confirmedOnly: bool)
      requires Valid()
      modifies this`live, this`queue, this`reviews, this`variationsLog
      ensures State() == Push(old(State()), confirmedOnly)
      ensures variationsLog == old(variationsLog) + PushLogged(old(State()), confirmedOnly)
      ensures Valid()
    {
      ghost var t := State();
      var deleteVariants := Release.DeleteSet(reviews, confirmedOnly);
      var updateVariants := Release.UpdateSet(reviews, confirmedOnly);
      if deleteVariants != {} {
        DeleteSelected(deleteVariants);
      }
      if updateVariants != {} {
        live := Release.Merge(live, queue);
        reviews := map[];
        queue := map[];
      }
      PushValid(t, confirmedOnly);
    }

    /**
     * push_data_live: the release of the selected reviews' variants, a new
     * versions row and the recomputed per-gene counts.
     */
    method PushDataLive(confirmedOnly: bool, now: string) returns (ok: bool)
      requires Valid()
      modifies this`live, this`queue, this`reviews, this`variationsLog, this`versions, this`variantCount
      ensures State() == Push(old(State()), confirmedOnly)
      ensures variationsLog == old(variationsLog) + PushLogged(old(State()), confirmedOnly)
      ensures versions == old(versions) + [VersionRecord(version, now, now, |live|, Release.GenesFigure(live))]
      ensures variantCount == Release.GeneCounts(live)
      ensures Valid() && ok
    {
      ReleaseTables(confirmedOnly);
      versions := versions + [VersionRecord(version, now, now, |live|, Release.GenesFigure(live))];
      variantCount := Release.GeneCounts(live);
      ok := true;
    }

    /**
     * load_expert_curations: each data line of the upload is parsed; a record
     * stored under its variation is copied to the log, then replaced. Returns
     * the number of records in the table.
     */
    method LoadExpertCurations(lines: seq<string>, date: string) returns (n: nat)
      modifies this`expertCurations, this`expertLog
      ensures (expertCurations, expertLog) == Expert.Load(old(expertCurations), old(expertLog), Expert.Entries(lines, date))
      ensures n == |expertCurations|
    {
      var entries := Expert.Entries(lines, date);
      var i := 0;
      while i < |entries|
        invariant 0 <= i <= |entries|
        invariant Expert.Load(old(expertCurations), old(expertLog), entries) == Expert.Load(expertCurations, expertLog, entries[i..])
      {
        var e := entries[i];
        if e.variation in expertCurations {
          expertLog := expertLog + multiset{expertCurations[e.variation]};
        }
        expertCurations := expertCurations[e.variation := e];
        assert entries[i..][1..] == entries[i + 1..];
        i := i + 1;
      }
      n := |expertCurations|;
    }

    /**
     * apply_expert_curations: reviews of staged variants whose enabled override
     * asks for deletion are scheduled, then every staged row with an override
     * takes its four curated values.
     */
    method ApplyExpertCurations()
      requires Valid()
      modifies this`queue, this`reviews
      ensures reviews == Expert.Scheduled(old(reviews), Expert.ToSchedule(old(queue), expertCurations))
      ensures queue == Expert.ApplyOverrides(old(queue), expertCurations)
      ensures Valid()
    {
      ApplyExpertValid(State(), expertCurations);
      reviews := Expert.Scheduled(reviews, Expert.ToSchedule(queue, expertCurations));
      queue := Expert.ApplyOverrides(queue, expertCurations);
    }

    /** update_disease_names: the renames of the form or of the file, run one after the other. */
    method UpdateDiseaseNames(post: map<string, string>, diseases: seq<string>, lines: seq<string>, fileMode: bool)
      requires Valid()
      modifies this`queue
      ensures queue == Expert.RenameAll(old(queue), Expert.DiseaseRenames(post, diseases, lines, fileMode))
      ensures Valid()
    {
      ghost var t := State();
      var renames := Expert.DiseaseRenames(post, diseases, lines, fileMode);
      var q := queue;
      var i := 0;
      while i < |renames|
        invariant 0 <= i <= |renames|
        invariant Expert.RenameAll(t.queue, renames) == Expert.RenameAll(q, renames[i..])
        invariant Variants.Valid(t.(queue := q))
        modifies {}
      {
        RenameValid(t.(queue := q), renames[i]);
        assert renames[i..][1..] == renames[i + 1..];
        q := Expert.RenameRows(q, renames[i]);
        i := i + 1;
      }
      queue := q;
      assert State() == t.(queue := q);
    }

    /** UploadCADIData: every line of the file with a variation field is created from its record. */
    method UploadCadiData(lines: seq<string>, now: string)
      requires Valid()
      modifies this`live, this`queue, this`reviews, this`nextId, this`nextReviewId
      ensures State() == CadiFold(old(State()), lines, now)
      ensures Valid()
    {
      var i := 0;
      while i < |lines|
        invariant 0 <= i <= |lines|
        invariant CadiFold(old(State()), lines, now) == CadiFold(State(), lines[i..], now)
        invariant Valid()
      {
        var line := lines[i];
        var record := Cadi.CadiRecord(line);
        if record.Some? {
          var _ := CreateNewVariant(Cadi.CadiVariation(line), false, record, false, [], _ => Annotation.ToolRun(None, ""), now);
        }
        assert lines[i..][1..] == lines[i + 1..];
        i := i + 1;
      }
    }
  }
}
