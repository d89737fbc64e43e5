/**
 * The expert-override upload (load_expert_curations), its application to the
 * queue (apply_expert_curations) and the bulk disease rename
 * (update_disease_names), as functions of the tables; the VariantStore methods
 * perform them step by step.
 *
 * An uploaded file is the sequence of lines fgets hands out, each with its
 * line break.
 */
module Expert {
  import opened Wrappers
  import opened PhpStrings
  import opened Schema

  /** The field separator of the uploaded CSV files: a quote, a comma, a quote. */
  const Sep: string := "\",\""

  /** What is written into the delete and disabled columns to switch them on. */
  const True: string := "TRUE"

  predicate QuoteFree(s: string) {
    forall j :: 0 <= j < |s| ==> s[j] != '"'
  }

  /** str_replace('"', "", s) */
  function StripQuotes(s: string): (r: string)
    ensures |r| <= |s| && QuoteFree(r)
    ensures QuoteFree(s) ==> r == s
    decreases |s|
  {
    if |s| == 0 then ""
    else if s[0] == '"' then StripQuotes(s[1..])
    else [s[0]] + StripQuotes(s[1..])
  }

  /** `$data[i]`: an undefined index reads as NULL, which string functions take as "". */
  function Field(data: seq<string>, i: nat): string {
    if i < |data| then data[i] else ""
  }

  /** The visited lines after the header row (`$row != 1`). */
  function DataLines(lines: seq<string>): (r: seq<string>)
    ensures |r| == if |Readable(lines)| == 0 then 0 else |Readable(lines)| - 1
    ensures forall i :: 0 <= i < |r| ==> r[i] == lines[i + 1]
  {
    var visited := Readable(lines);
    if |visited| == 0 then [] else visited[1..]
  }

  // ---------------------------------------------------------------------------
  // load_expert_curations

  /**
   * One data line of the override file: split on `","`, quotes stripped from
   * the gene and the disabled flag only, disease and comments url-encoded.
   */
  function ParseExpertLine(line: string, date: string): (e: ExpertCuration)
    ensures e.dateInserted == date
    ensures QuoteFree(e.gene) && QuoteFree(e.disabledCuration)
  {
    var d := Explode(line, Sep);
    ExpertCuration(
      gene := StripQuotes(Field(d, 0)),
      chr := Field(d, 1),
      pos := Field(d, 2),
      ref := Field(d, 3),
      alt := Field(d, 4),
      variation := Field(d, 5),
      pathogenicity := Field(d, 6),
      disease := UrlEncode(Field(d, 7)),
      pubmedId := Field(d, 8),
      comments := UrlEncode(Field(d, 9)),
      deleteOnRelease := Field(d, 10),
      disabledCuration := StripQuotes(Field(d, 11)),
      dateInserted := date)
  }

  /** The records the upload loop writes, in file order. */
  function Entries(lines: seq<string>, date: string): (es: seq<ExpertCuration>)
    ensures |es| == |DataLines(lines)|
    ensures forall i :: 0 <= i < |es| ==> es[i] == ParseExpertLine(DataLines(lines)[i], date)
  {
    var data := DataLines(lines);
    seq(|data|, i requires 0 <= i < |data| => ParseExpertLine(data[i], date))
  }

  /**
   * The upload loop as a fold: a record already stored under the same
   * variation is copied to the log, then REPLACE stores the new one.
   */
  function Load(table: map<string, ExpertCuration>, log: multiset<ExpertCuration>, entries: seq<ExpertCuration>)
    : (map<string, ExpertCuration>, multiset<ExpertCuration>)
    decreases |entries|
  {
    if |entries| == 0 then (table, log)
    else
      var e := entries[0];
      var logged := if e.variation in table then log + multiset{table[e.variation]} else log;
      Load(table[e.variation := e], logged, entries[1..])
  }

  /** The variations named by some entry. */
  function Variations(entries: seq<ExpertCuration>): set<string> {
    set i | 0 <= i < |entries| :: entries[i].variation
  }

  /** Entry `i` is the last one for its variation. */
  predicate LastFor(entries: seq<ExpertCuration>, i: int)
    requires 0 <= i < |entries|
  {
    forall j :: i < j < |entries| ==> entries[j].variation != entries[i].variation
  }

  lemma VariationsCons(entries: seq<ExpertCuration>)
    requires |entries| > 0
    ensures Variations(entries) == {entries[0].variation} + Variations(entries[1..])
  {
    var rest := entries[1..];
    forall v | v in Variations(entries) ensures v in {entries[0].variation} + Variations(rest) {
      var i :| 0 <= i < |entries| && entries[i].variation == v;
      if i > 0 { assert rest[i - 1].variation == v; }
    }
    forall v | v in Variations(rest) ensures v in Variations(entries) {
      var i :| 0 <= i < |rest| && rest[i].variation == v;
      assert entries[i + 1].variation == v;
    }
  }

  lemma LastForTail(entries: seq<ExpertCuration>, i: int)
    requires 0 < i < |entries| && LastFor(entries, i)
    ensures LastFor(entries[1..], i - 1)
  {
    var rest := entries[1..];
    forall j | i - 1 < j < |rest| ensures rest[j].variation != rest[i - 1].variation {
      assert entries[j + 1].variation != entries[i].variation;
    }
  }

  /**
   * After the upload the table holds the old variations and the uploaded ones;
   * each uploaded variation holds its last line and every other one is untouched.
   */
  lemma {:induction false} LoadTable(table: map<string, ExpertCuration>, log: multiset<ExpertCuration>, entries: seq<ExpertCuration>)
    ensures Load(table, log, entries).0.Keys == table.Keys + Variations(entries)
    ensures forall i :: 0 <= i < |entries| && LastFor(entries, i) ==> Load(table, log, entries).0[entries[i].variation] == entries[i]
    ensures forall v :: v in table && v !in Variations(entries) ==> Load(table, log, entries).0[v] == table[v]
    decreases |entries|
  {
    if |entries| > 0 {
      var e := entries[0];
      var logged := if e.variation in table then log + multiset{table[e.variation]} else log;
      var rest := entries[1..];
      LoadTable(table[e.variation := e], logged, rest);
      VariationsCons(entries);
      var r := Load(table, log, entries).0;
      forall i | 0 <= i < |entries| && LastFor(entries, i)
        ensures r[entries[i].variation] == entries[i]
      {
        if i == 0 {
          assert e.variation !in Variations(rest);
        } else {
          LastForTail(entries, i);
        }
      }
    }
  }

  /**
   * The log keeps what it held and gains one record per line whose variation
   * was already stored; the first replaced record of an old variation is its
   * record from before the upload.
   */
  lemma {:induction false} LoadLog(table: map<string, ExpertCuration>, log: multiset<ExpertCuration>, entries: seq<ExpertCuration>)
    ensures log <= Load(table, log, entries).1
    ensures forall v :: v in table && v in Variations(entries) ==> table[v] in Load(table, log, entries).1
    ensures |Load(table, log, entries).1| <= |log| + |entries|
    decreases |entries|
  {
    if |entries| > 0 {
      var e := entries[0];
      var logged := if e.variation in table then log + multiset{table[e.variation]} else log;
      var rest := entries[1..];
      LoadLog(table[e.variation := e], logged, rest);
      forall v | v in table && v in Variations(entries)
        ensures table[v] in Load(table, log, entries).1
      {
        if v == e.variation {
          assert table[v] in logged;
        } else {
          var i :| 0 <= i < |entries| && entries[i].variation == v;
          assert rest[i - 1].variation == v;
        }
      }
    }
  }

  // Parsing a well-formed line -------------------------------------------------

  /** A line as a spreadsheet exports it: every field in quotes, separated by commas. */
  function QuotedLine(fields: seq<string>, tail: string): string {
    "\"" + Implode(Sep, fields) + "\"" + tail
  }

  lemma {:induction false} ImplodeAppendLast(d: string, parts: seq<string>, y: string)
    requires |parts| >= 1
    ensures Implode(d, parts[..|parts| - 1] + [parts[|parts| - 1] + y]) == Implode(d, parts) + y
    decreases |parts|
  {
    var n := |parts|;
    var ps := parts[..n - 1] + [parts[n - 1] + y];
    if n > 1 {
      ImplodeAppendLast(d, parts[1..], y);
      assert ps[1..] == parts[1..][..n - 2] + [parts[1..][n - 2] + y];
      assert ps[0] == parts[0];
    }
  }

  lemma OpeningQuote(f0: string, rest: seq<string>)
    ensures "\"" + Implode(Sep, [f0] + rest) == Implode(Sep, ["\"" + f0] + rest)
  {
    ImplodeCons(Sep, "\"", f0, rest);
  }

  /** The first field, behind the opening quote, splits off unless it starts with a comma. */
  lemma SplitsOffOpening(f0: string, rest: string)
    requires QuoteFree(f0) && (|f0| == 0 || f0[0] != ',')
    ensures Explode("\"" + f0 + Sep + rest, Sep) == ["\"" + f0] + Explode(rest, Sep)
  {
    var s := "\"" + f0 + Sep + rest;
    assert s[..3] != Sep by {
      if |f0| == 0 { assert s[1] == '"'; } else { assert s[1] == f0[0]; }
    }
    assert s[1..] == f0 + Sep + rest;
    ExplodeSplitsOff(f0, Sep, rest);
    assert [s[0]] + f0 == "\"" + f0;
  }

  lemma {:induction false} LastPieceAlone(f: string, tail: string)
    requires QuoteFree(f) && QuoteFree(tail) && (|tail| == 0 || tail[0] != ',')
    ensures Explode(f + "\"" + tail, Sep) == [f + "\"" + tail]
    decreases |f|
  {
    var s := f + "\"" + tail;
    if |f| == 0 {
      assert s == "\"" + tail;
      if |s| >= 3 {
        assert s[..3] != Sep by { assert s[1] == tail[0]; }
        assert s[1..] == tail;
        ExplodeSingle(tail, Sep);
      }
    } else {
      if |s| >= 3 {
        assert s[..3] != Sep by { assert s[0] == f[0]; }
      }
      assert s[1..] == f[1..] + "\"" + tail;
      LastPieceAlone(f[1..], tail);
      assert [s[0]] + s[1..] == s;
    }
  }

  lemma {:induction false} ExplodeMiddle(mid: seq<string>, last: string)
    requires forall i :: 0 <= i < |mid| ==> QuoteFree(mid[i])
    requires Explode(last, Sep) == [last]
    ensures Explode(Implode(Sep, mid + [last]), Sep) == mid + [last]
    decreases |mid|
  {
    if |mid| > 0 {
      assert (mid + [last])[1..] == mid[1..] + [last];
      ExplodeMiddle(mid[1..], last);
      ExplodeSplitsOff(mid[0], Sep, Implode(Sep, mid[1..] + [last]));
      assert [mid[0]] + (mid[1..] + [last]) == mid + [last];
    }
  }

  /** A line of at least two fields, regrouped as its first field and the pieces after it. */
  lemma QuotedLineShape(fields: seq<string>, tail: string)
    requires |fields| >= 2
    ensures QuotedLine(fields, tail) ==
      "\"" + fields[0] + Sep + Implode(Sep, fields[1..|fields| - 1] + [fields[|fields| - 1] + "\"" + tail])
  {
    var n := |fields|;
    var x := fields[1..n - 1] + [fields[n - 1] + "\"" + tail];
    ImplodeAppendLast(Sep, fields, "\"" + tail);
    assert fields[..n - 1] == [fields[0]] + fields[1..n - 1];
    assert fields[n - 1] + ("\"" + tail) == fields[n - 1] + "\"" + tail;
    assert fields[..n - 1] + [fields[n - 1] + ("\"" + tail)] == [fields[0]] + x;
    assert Implode(Sep, [fields[0]] + x) == fields[0] + Sep + Implode(Sep, x);
    assert QuotedLine(fields, tail) == "\"" + (Implode(Sep, fields) + ("\"" + tail));
  }

  /** How a well-formed line splits: the outer quotes stay on the first and the last piece. */
  lemma ExplodeQuotedLine(fields: seq<string>, tail: string)
    requires |fields| >= 2
    requires forall i :: 0 <= i < |fields| ==> QuoteFree(fields[i])
    requires |fields[0]| == 0 || fields[0][0] != ','
    requires QuoteFree(tail) && (|tail| == 0 || tail[0] != ',')
    ensures Explode(QuotedLine(fields, tail), Sep) ==
      ["\"" + fields[0]] + fields[1..|fields| - 1] + [fields[|fields| - 1] + "\"" + tail]
  {
    var n := |fields|;
    var last := fields[n - 1] + "\"" + tail;
    var mid := fields[1..n - 1];
    LastPieceAlone(fields[n - 1], tail);
    ExplodeMiddle(mid, last);
    QuotedLineShape(fields, tail);
    SplitsOffOpening(fields[0], Implode(Sep, mid + [last]));
    assert ["\"" + fields[0]] + (mid + [last]) == ["\"" + fields[0]] + mid + [last];
  }

  lemma StripQuotesAround(f: string, tail: string)
    requires QuoteFree(f) && QuoteFree(tail)
    ensures StripQuotes("\"" + f) == f
    ensures StripQuotes(f + "\"" + tail) == f + tail
  {
    assert ("\"" + f)[1..] == f;
    StripQuotesSkip(f, tail);
  }

  lemma {:induction false} StripQuotesSkip(f: string, tail: string)
    requires QuoteFree(f) && QuoteFree(tail)
    ensures StripQuotes(f + "\"" + tail) == f + tail
    decreases |f|
  {
    if |f| == 0 {
      assert ("\"" + tail)[1..] == tail;
    } else {
      assert (f + "\"" + tail)[1..] == f[1..] + "\"" + tail;
      StripQuotesSkip(f[1..], tail);
      assert [f[0]] + (f[1..] + tail) == f + tail;
    }
  }

  /**
   * A well-formed twelve-field line is stored field for field, the disease and
   * the comments url-encoded; the disabled flag keeps whatever follows the
   * closing quote, the line break included.
   */
  lemma ParseQuotedLine(fields: seq<string>, tail: string, date: string)
    requires |fields| == 12
    requires forall i :: 0 <= i < 12 ==> QuoteFree(fields[i])
    requires |fields[0]| == 0 || fields[0][0] != ','
    requires QuoteFree(tail) && (|tail| == 0 || tail[0] != ',')
    ensures ParseExpertLine(QuotedLine(fields, tail), date) == ExpertCuration(
      fields[0], fields[1], fields[2], fields[3], fields[4], fields[5], fields[6],
      UrlEncode(fields[7]), fields[8], UrlEncode(fields[9]), fields[10], fields[11] + tail, date)
  {
    var d := Explode(QuotedLine(fields, tail), Sep);
    ExplodeQuotedLine(fields, tail);
    assert |d| == 12;
    assert forall k :: 1 <= k < 11 ==> Field(d, k) == fields[k];
    assert Field(d, 0) == "\"" + fields[0] && Field(d, 11) == fields[11] + "\"" + tail;
    StripQuotesAround(fields[0], "");
    StripQuotesAround(fields[11], tail);
  }

  /** A disease name in the file comes back from the stored record by urldecode. */
  lemma DiseaseRoundTrip(fields: seq<string>, tail: string, date: string)
    requires |fields| == 12
    requires forall i :: 0 <= i < 12 ==> QuoteFree(fields[i])
    requires |fields[0]| == 0 || fields[0][0] != ','
    requires QuoteFree(tail) && (|tail| == 0 || tail[0] != ',')
    requires IsByteString(fields[7]) && IsByteString(fields[9])
    ensures UrlDecode(ParseExpertLine(QuotedLine(fields, tail), date).disease) == fields[7]
    ensures UrlDecode(ParseExpertLine(QuotedLine(fields, tail), date).comments) == fields[9]
  {
    ParseQuotedLine(fields, tail, date);
    UrlDecodeEncode(fields[7]);
    UrlDecodeEncode(fields[9]);
  }

  /**
   * A line ending in `"TRUE"` and a line break stores the disabled flag as
   * "TRUE" followed by the line break, which is not "TRUE".
   */
  lemma DisabledKeepsLineBreak(fields: seq<string>, date: string)
    requires |fields| == 12 && fields[11] == True
    requires forall i :: 0 <= i < 12 ==> QuoteFree(fields[i])
    requires |fields[0]| == 0 || fields[0][0] != ','
    ensures ParseExpertLine(QuotedLine(fields, "\n"), date).disabledCuration == "TRUE\n"
    ensures ParseExpertLine(QuotedLine(fields, "\n"), date).disabledCuration != True
  {
    ParseQuotedLine(fields, "\n", date);
  }

  /** trim() removes the line break after a value whose last character is kept. */
  lemma TrimLineBreak(t: string)
    requires |t| > 0 && !IsTrimChar(t[0]) && !IsTrimChar(t[|t| - 1])
    ensures Trim(t + "\n") == t
  {
    var s := t + ['\n'];
    assert s[0] == t[0] && s[|s| - 1] == '\n';
    assert TrimLeft(s) == s;
    assert s[..|s| - 1] == t;
    assert TrimRight(s) == TrimRight(t);
    assert TrimRight(t) == t;
  }

  /**
   * With the flag trimmed, the same disabled line is recognised as disabled and
   * does not schedule a deletion.
   */
  lemma TrimmedFlagDisables(fields: seq<string>, date: string)
    requires |fields| == 12 && fields[11] == True
    requires forall i :: 0 <= i < 12 ==> QuoteFree(fields[i])
    requires |fields[0]| == 0 || fields[0][0] != ','
    ensures Trim(ParseExpertLine(QuotedLine(fields, "\n"), date).disabledCuration) == True
    ensures !SchedulesDeletionTrimmed(ParseExpertLine(QuotedLine(fields, "\n"), date))
  {
    DisabledKeepsLineBreak(fields, date);
    assert True + "\n" == "TRUE\n";
    TrimLineBreak(True);
  }

  // ---------------------------------------------------------------------------
  // apply_expert_curations

  /** The override for a queue row, joined on an equal variation (a NULL variation joins nothing). */
  predicate HasOverride(r: Row, experts: map<string, ExpertCuration>) {
    Get(r, "variation").Some? && Get(r, "variation").value in experts
  }

  function OverrideOf(r: Row, experts: map<string, ExpertCuration>): ExpertCuration
    requires HasOverride(r, experts)
  {
    experts[Get(r, "variation").value]
  }

  /** The override asks for deletion and is not disabled. */
  predicate SchedulesDeletion(e: ExpertCuration) {
    e.deleteOnRelease == True && e.disabledCuration != True
  }

  /** The deletion filter with the disabled flag trimmed of its line break. */
  predicate SchedulesDeletionTrimmed(e: ExpertCuration) {
    e.deleteOnRelease == True && Trim(e.disabledCuration) != True
  }

  /** The queue variants whose override schedules them for deletion. */
  function ToSchedule(queue: map<int, Row>, experts: map<string, ExpertCuration>): set<int> {
    set id | id in queue && HasOverride(queue[id], experts) && SchedulesDeletion(OverrideOf(queue[id], experts))
  }

  /** The review rows after `scheduled_for_deletion = 1` for the selected variants. */
  function Scheduled(reviews: map<int, Review>, ids: set<int>): (r: map<int, Review>)
    ensures r.Keys == reviews.Keys
  {
    map v | v in reviews :: if v in ids then reviews[v].(scheduled := true) else reviews[v]
  }

  /** The curated columns of a queue row overwritten from its override. */
  function Overridden(r: Row, e: ExpertCuration): Row {
    r["pathogenicity" := Some(e.pathogenicity)]["disease" := Some(e.disease)]
      ["pubmed_id" := Some(e.pubmedId)]["comments" := Some(e.comments)]
  }

  /** The joined UPDATE: every queue row with an override takes its four curated values. */
  function ApplyOverrides(queue: map<int, Row>, experts: map<string, ExpertCuration>): (q: map<int, Row>)
    ensures q.Keys == queue.Keys
  {
    map id | id in queue :: if HasOverride(queue[id], experts) then Overridden(queue[id], OverrideOf(queue[id], experts)) else queue[id]
  }

  /**
   * The join has no disabled filter: a disabled override still writes its
   * values into the queue, while only enabled ones schedule deletions.
   */
  lemma DisabledStillApplied(queue: map<int, Row>, experts: map<string, ExpertCuration>, id: int)
    requires id in queue && HasOverride(queue[id], experts)
    requires OverrideOf(queue[id], experts).disabledCuration == True
    ensures Get(ApplyOverrides(queue, experts)[id], "pathogenicity") == Some(OverrideOf(queue[id], experts).pathogenicity)
    ensures Get(ApplyOverrides(queue, experts)[id], "comments") == Some(OverrideOf(queue[id], experts).comments)
    ensures id !in ToSchedule(queue, experts)
  {
  }

  /** Only the four curated columns change, and nothing changes in a row without an override. */
  lemma OverridesTouchOnlyCurated(queue: map<int, Row>, experts: map<string, ExpertCuration>, id: int, c: string)
    requires id in queue
    requires c != "pathogenicity" && c != "disease" && c != "pubmed_id" && c != "comments"
    ensures Get(ApplyOverrides(queue, experts)[id], c) == Get(queue[id], c)
    ensures !HasOverride(queue[id], experts) ==> ApplyOverrides(queue, experts)[id] == queue[id]
  {
  }

  /** The override is idempotent: the variation it joins on is not among the columns it writes. */
  lemma ApplyOverridesIdempotent(queue: map<int, Row>, experts: map<string, ExpertCuration>)
    ensures ApplyOverrides(ApplyOverrides(queue, experts), experts) == ApplyOverrides(queue, experts)
  {
    var once := ApplyOverrides(queue, experts);
    forall id | id in queue
      ensures ApplyOverrides(once, experts)[id] == once[id]
    {
      assert Get(once[id], "variation") == Get(queue[id], "variation");
      if HasOverride(queue[id], experts) {
        var e := OverrideOf(queue[id], experts);
        assert Overridden(Overridden(queue[id], e), e) == Overridden(queue[id], e);
      }
    }
  }

  /** A review is newly scheduled exactly when its variant's enabled override asks for deletion. */
  lemma ScheduledIff(reviews: map<int, Review>, queue: map<int, Row>, experts: map<string, ExpertCuration>, v: int)
    requires v in reviews && !reviews[v].scheduled
    ensures Scheduled(reviews, ToSchedule(queue, experts))[v].scheduled <==>
      v in queue && HasOverride(queue[v], experts) && SchedulesDeletion(OverrideOf(queue[v], experts))
    ensures Scheduled(reviews, ToSchedule(queue, experts))[v].comments == reviews[v].comments
  {
  }

  // ---------------------------------------------------------------------------
  // update_disease_names

  /** One rename: new name, old name and, in file mode, the gene it is limited to. */
  datatype Rename = Rename(newName: string, disease: string, gene: Option<string>)

  /** The rows the rename's WHERE clause selects. */
  predicate Selects(n: Rename, r: Row) {
    Get(r, "disease") == Some(n.disease) && (n.gene.None? || Get(r, "gene") == n.gene)
  }

  /** `UPDATE queue SET disease = newName WHERE disease = old [AND gene = g]` */
  function RenameRows(queue: map<int, Row>, n: Rename): (q: map<int, Row>)
    ensures q.Keys == queue.Keys
  {
    map id | id in queue :: if Selects(n, queue[id]) then queue[id]["disease" := Some(n.newName)] else queue[id]
  }

  /** The renames run one after the other. */
  function RenameAll(queue: map<int, Row>, renames: seq<Rename>): (q: map<int, Row>)
    ensures q.Keys == queue.Keys
    decreases |renames|
  {
    if |renames| == 0 then queue else RenameAll(RenameRows(queue, renames[0]), renames[1..])
  }

  /** The form's field for a disease: its name with spaces turned into underscores. */
  function FormKey(disease: string): string {
    ReplaceChar(disease, ' ', '_')
  }

  /** Form mode: a rename for every listed disease whose form field is truthy; the new name is url-encoded. */
  function FormRenames(post: map<string, string>, diseases: seq<string>): (rs: seq<Rename>)
    ensures |rs| <= |diseases|
    ensures forall i :: 0 <= i < |rs| ==> rs[i].gene.None?
    decreases |diseases|
  {
    if |diseases| == 0 then []
    else
      var d := diseases[0];
      var k := FormKey(d);
      var rest := FormRenames(post, diseases[1..]);
      if k in post && Truthy(post[k]) then [Rename(UrlEncode(post[k]), d, None)] + rest else rest
  }

  /** File mode: one line per rename, `"gene","old","new"`, the header skipped. */
  function FileRename(line: string): Rename {
    var d := Explode(line, Sep);
    Rename(UrlEncode(StripQuotes(Field(d, 2))), UrlEncode(Field(d, 1)), Some(StripQuotes(Field(d, 0))))
  }

  function FileRenames(lines: seq<string>): (rs: seq<Rename>)
    ensures |rs| == |DataLines(lines)|
    ensures forall i :: 0 <= i < |rs| ==> rs[i] == FileRename(DataLines(lines)[i]) && rs[i].gene.Some?
  {
    var data := DataLines(lines);
    seq(|data|, i requires 0 <= i < |data| => FileRename(data[i]))
  }

  /** The renames a call performs in the mode it is given. */
  function DiseaseRenames(post: map<string, string>, diseases: seq<string>, lines: seq<string>, fileMode: bool): seq<Rename> {
    if fileMode then FileRenames(lines) else FormRenames(post, diseases)
  }

  /**
   * After a rename no selected row keeps the old name, rows it does not select
   * are unchanged, and every other column of a selected row is kept.
   */
  lemma RenameRowsSpec(queue: map<int, Row>, n: Rename, id: int)
    requires id in queue
    ensures n.disease != n.newName ==> !Selects(n, RenameRows(queue, n)[id])
    ensures !Selects(n, queue[id]) ==> RenameRows(queue, n)[id] == queue[id]
    ensures Selects(n, queue[id]) ==> Get(RenameRows(queue, n)[id], "disease") == Some(n.newName)
    ensures forall c :: c != "disease" ==> Get(RenameRows(queue, n)[id], c) == Get(queue[id], c)
  {
  }

  /** A row that no rename selects at any step comes through a sequence of renames unchanged. */
  lemma {:induction false} RenameAllKeepsUnselected(queue: map<int, Row>, renames: seq<Rename>, id: int)
    requires id in queue
    requires forall i :: 0 <= i < |renames| ==> !Selects(renames[i], queue[id])
    ensures RenameAll(queue, renames)[id] == queue[id]
    decreases |renames|
  {
    if |renames| > 0 {
      var q1 := RenameRows(queue, renames[0]);
      assert q1[id] == queue[id];
      RenameAllKeepsUnselected(q1, renames[1..], id);
    }
  }

  /** Renames only ever rewrite the disease column. */
  lemma {:induction false} RenameAllOnlyDisease(queue: map<int, Row>, renames: seq<Rename>, id: int, c: string)
    requires id in queue && c != "disease"
    ensures Get(RenameAll(queue, renames)[id], c) == Get(queue[id], c)
    decreases |renames|
  {
    if |renames| > 0 {
      RenameRowsSpec(queue, renames[0], id);
      RenameAllOnlyDisease(RenameRows(queue, renames[0]), renames[1..], id, c);
    }
  }

  /** A form rename is listed exactly for the diseases whose field holds a truthy value. */
  lemma {:induction false} FormRenamesListed(post: map<string, string>, diseases: seq<string>, n: Rename)
    ensures n in FormRenames(post, diseases) <==>
      n.gene.None? && (exists i :: 0 <= i < |diseases| && diseases[i] == n.disease) &&
        FormKey(n.disease) in post && Truthy(post[FormKey(n.disease)]) && n.newName == UrlEncode(post[FormKey(n.disease)])
    decreases |diseases|
  {
    if |diseases| > 0 {
      FormRenamesListed(post, diseases[1..], n);
      if n.gene.None? && n.disease == diseases[0] && FormKey(n.disease) in post && Truthy(post[FormKey(n.disease)])
        && n.newName == UrlEncode(post[FormKey(n.disease)]) {
        assert n == Rename(UrlEncode(post[FormKey(diseases[0])]), diseases[0], None);
      }
      if exists i :: 0 <= i < |diseases| && diseases[i] == n.disease {
        var i :| 0 <= i < |diseases| && diseases[i] == n.disease;
        if i > 0 {
          assert diseases[1..][i - 1] == n.disease;
        }
      }
      if n in FormRenames(post, diseases) && n !in FormRenames(post, diseases[1..]) {
        assert diseases[0] == n.disease;
      }
    }
  }
}
