/**
 * The result handling of get_annotation_data: the annotation tool itself (a Ruby
 * program run through the shell, reading and writing temporary files) is a
 * parameter that maps the normalised position to the tool's error log and output.
 */
module Annotation {
  import opened Wrappers
  import opened PhpStrings
  import opened Schema
  import Position

  datatype AnnotationError =
    | ToolNotConfigured        // -503: no annotation path or no run script
    | UnsupportedMutationType  // -400
    | NoMatchingRefseq         // -501
    | NoDataFound              // -404: empty output

  /** The negative number the PHP function returns for each error. */
  function ErrorCode(e: AnnotationError): (code: int)
    ensures code < 0
    ensures code == -503 <==> e == ToolNotConfigured
    ensures code == -404 <==> e == NoDataFound
  {
    match e
    case ToolNotConfigured => -503
    case UnsupportedMutationType => -400
    case NoMatchingRefseq => -501
    case NoDataFound => -404
  }

  /** What one run of the tool leaves behind: the error log (if written) and the output file. */
  datatype ToolRun = ToolRun(errorLog: Option<string>, output: string)

  const UnsupportedMarker: string := "ERROR_NOT_SUPPORTED_MUTATION_TYPE"
  const NoRefseqMarker: string := "ERROR_NO_MATCHING_REFSEQ"

  /** `if (strpos($contents, $marker))`: the first occurrence counts only when its offset is not 0. */
  predicate Flagged(contents: string, marker: string) {
    var i := IndexOf(contents, marker);
    i.Some? && i.value > 0
  }

  /** A marker is detected exactly when it occurs after the start and does not occur at the start. */
  lemma FlaggedIff(contents: string, marker: string)
    ensures Flagged(contents, marker) <==>
      (!OccursAt(contents, marker, 0) && exists i :: 0 < i && OccursAt(contents, marker, i))
  {
    var r := IndexOf(contents, marker);
    if r.Some? && r.value > 0 {
      assert OccursAt(contents, marker, r.value);
    }
    if !OccursAt(contents, marker, 0) && exists i :: 0 < i && OccursAt(contents, marker, i) {
      var i :| 0 < i && OccursAt(contents, marker, i);
      assert r.Some?;
    }
  }

  // ---------------------------------------------------------------------------
  // Header/value zip

  /** The key/value pairs of array_combine when the counts agree; later duplicates overwrite. */
  function Zip(keys: seq<string>, values: seq<string>): (m: map<string, string>)
    requires |keys| == |values|
    ensures m.Keys == set k | k in keys
    decreases |keys|
  {
    if |keys| == 0 then map[]
    else
      var n := |keys| - 1;
      var prefix := Zip(keys[..n], values[..n]);
      assert forall k :: k in keys <==> k in keys[..n] || k == keys[n];
      prefix[keys[n] := values[n]]
  }

  /** array_combine: FALSE (here None) when the two lists have different lengths. */
  function Combine(keys: seq<string>, values: seq<string>): (r: Option<map<string, string>>)
    ensures r.Some? <==> |keys| == |values|
  {
    if |keys| == |values| then Some(Zip(keys, values)) else None
  }

  /** The value stored under a key is the one at its last position. */
  lemma {:induction false} ZipLastWins(keys: seq<string>, values: seq<string>, i: int)
    requires |keys| == |values| && 0 <= i < |keys|
    requires forall j :: i < j < |keys| ==> keys[j] != keys[i]
    ensures keys[i] in Zip(keys, values) && Zip(keys, values)[keys[i]] == values[i]
    decreases |keys|
  {
    var n := |keys| - 1;
    assert Zip(keys, values) == Zip(keys[..n], values[..n])[keys[n] := values[n]];
    if i < n {
      ZipLastWins(keys[..n], values[..n], i);
      assert keys[..n][i] == keys[i] && values[..n][i] == values[i] && keys[n] != keys[i];
    }
  }

  /** '.' and '' from the tool become NULL. */
  function NullIfBlank(v: string): (r: Option<string>)
    ensures r.None? <==> v == "." || v == ""
    ensures r.Some? ==> r.value == v
  {
    if v == "." || v == "" then None else Some(v)
  }

  /**
   * The tool output as the PHP code reads it: line 0 holds the tab-separated
   * header, line 1 the tab-separated values; every annotation column takes the
   * value under its header, NULL when absent or when the counts disagree.
   */
  function ParseOutput(contents: string): (r: Row)
    ensures r.Keys == set k | k in AnnotationKeys
  {
    var lines := Explode(contents, "\n");
    var keys := Explode(lines[0], "\t");
    var values := Explode(if |lines| >= 2 then lines[1] else "", "\t");
    var combined := Combine(keys, values);
    map k | k in AnnotationKeys ::
      if combined.Some? && k in combined.value then NullIfBlank(combined.value[k]) else None
  }

  predicate NoChar(s: string, c: char) {
    forall j :: 0 <= j < |s| ==> s[j] != c
  }

  lemma {:induction false} ImplodeNoChar(d: string, parts: seq<string>, c: char)
    requires NoChar(d, c)
    requires forall i :: 0 <= i < |parts| ==> NoChar(parts[i], c)
    ensures NoChar(Implode(d, parts), c)
    decreases |parts|
  {
    if |parts| > 1 {
      ImplodeNoChar(d, parts[1..], c);
    }
  }

  /** Header and value lines split back into the lists they were joined from. */
  lemma TwoLines(keys: seq<string>, values: seq<string>)
    requires |keys| >= 1 && |values| >= 1
    requires forall i :: 0 <= i < |keys| ==> NoChar(keys[i], '\t') && NoChar(keys[i], '\n')
    requires forall i :: 0 <= i < |values| ==> NoChar(values[i], '\t') && NoChar(values[i], '\n')
    ensures var lines := Explode(Implode("\t", keys) + "\n" + Implode("\t", values), "\n");
      |lines| >= 2 && Explode(lines[0], "\t") == keys && Explode(lines[1], "\t") == values
  {
    var k := Implode("\t", keys);
    var v := Implode("\t", values);
    ImplodeNoChar("\t", keys, '\n');
    ImplodeNoChar("\t", values, '\n');
    assert Implode("\n", [k, v]) == k + "\n" + v;
    ExplodeImplode([k, v], "\n");
    ExplodeImplode(keys, "\t");
    ExplodeImplode(values, "\t");
  }

  /**
   * Zip round trip: a header line and a value line of equal length give every
   * annotation column the value under its (last) header, with '.' and '' as NULL.
   */
  lemma ParseOutputZip(keys: seq<string>, values: seq<string>, i: int)
    requires |keys| == |values| >= 1 && 0 <= i < |keys|
    requires forall j :: 0 <= j < |keys| ==> NoChar(keys[j], '\t') && NoChar(keys[j], '\n')
    requires forall j :: 0 <= j < |values| ==> NoChar(values[j], '\t') && NoChar(values[j], '\n')
    requires keys[i] in AnnotationKeys
    requires forall j :: i < j < |keys| ==> keys[j] != keys[i]
    ensures ParseOutput(Implode("\t", keys) + "\n" + Implode("\t", values))[keys[i]] == NullIfBlank(values[i])
  {
    TwoLines(keys, values);
    ZipLastWins(keys, values, i);
  }

  /** With more headers than values (or fewer), every column is NULL. */
  lemma ParseOutputMismatch(keys: seq<string>, values: seq<string>)
    requires |keys| >= 1 && |values| >= 1 && |keys| != |values|
    requires forall j :: 0 <= j < |keys| ==> NoChar(keys[j], '\t') && NoChar(keys[j], '\n')
    requires forall j :: 0 <= j < |values| ==> NoChar(values[j], '\t') && NoChar(values[j], '\n')
    ensures forall k :: k in AnnotationKeys ==>
      ParseOutput(Implode("\t", keys) + "\n" + Implode("\t", values))[k] == None
  {
    TwoLines(keys, values);
  }

  // ---------------------------------------------------------------------------
  // Credits

  /** The annotation record in the order the PHP array lists its keys. */
  function Pairs(parsed: Row): (data: seq<(string, Option<string>)>)
    requires forall k :: k in AnnotationKeys ==> k in parsed
    ensures |data| == |AnnotationKeys|
    ensures forall i :: 0 <= i < |data| ==> data[i] == (AnnotationKeys[i], parsed[AnnotationKeys[i]])
  {
    seq(|AnnotationKeys|, i requires 0 <= i < |AnnotationKeys| => (AnnotationKeys[i], parsed[AnnotationKeys[i]]))
  }

  /**
   * give_credit_to: scans the record in order and answers TRUE at the first key
   * containing `prefix_` whose value is neither NULL nor ''.
   */
  function GiveCreditTo(prefix: string, data: seq<(string, Option<string>)>): (r: bool)
    ensures r <==> exists i :: 0 <= i < |data| && Contains(data[i].0, prefix + "_") && !Blank(data[i].1)
    decreases |data|
  {
    if |data| == 0 then false
    else if Contains(data[0].0, prefix + "_") && !Blank(data[0].1) then true
    else
      var rest := GiveCreditTo(prefix, data[1..]);
      assert rest ==> exists i :: 0 <= i < |data| && Contains(data[i].0, prefix + "_") && !Blank(data[i].1) by {
        if rest {
          var i :| 0 <= i < |data[1..]| && Contains(data[1..][i].0, prefix + "_") && !Blank(data[1..][i].1);
          assert data[i + 1] == data[1..][i];
        }
      }
      assert (exists i :: 0 <= i < |data| && Contains(data[i].0, prefix + "_") && !Blank(data[i].1)) ==> rest by {
        if exists i :: 0 <= i < |data| && Contains(data[i].0, prefix + "_") && !Blank(data[i].1) {
          var i :| 0 <= i < |data| && Contains(data[i].0, prefix + "_") && !Blank(data[i].1);
          assert i > 0;
          assert data[1..][i - 1] == data[i];
        }
      }
      rest
  }

  /** The data sources credited, in order; dbNSFP 2 is always credited. */
  function Credits(freqs: seq<string>, data: seq<(string, Option<string>)>): seq<string> {
    (if "evs" in freqs && GiveCreditTo("evs", data) then ["ESP6500"] else [])
    + (if "1000genomes" in freqs && GiveCreditTo("tg", data) then ["1000 Genomes"] else [])
    + (if "otoscope" in freqs && GiveCreditTo("otoscope", data) then ["OtoSCOPE"] else [])
    + ["dbNSFP 2"]
  }

  const CurationNote: string := "Manual curation in progress."

  /** The comments column: the curation note, then the credits sentence when there are credits. */
  function CommentsFor(credits: seq<string>): string {
    Implode(" ", [CurationNote] + (if |credits| > 0 then ["Record generated from: " + Implode(", ", credits) + "."] else []))
  }

  /**
   * The credits in their fixed order: ESP6500 when evs is displayed and some
   * evs_ column has data, then 1000 Genomes likewise for 1000genomes and tg_,
   * then OtoSCOPE likewise for otoscope and otoscope_, and dbNSFP 2 always, last.
   */
  lemma CreditsShape(freqs: seq<string>, data: seq<(string, Option<string>)>)
    ensures Credits(freqs, data) ==
      (if "evs" in freqs && exists i :: 0 <= i < |data| && Contains(data[i].0, "evs_") && !Blank(data[i].1)
       then ["ESP6500"] else [])
      + (if "1000genomes" in freqs && exists i :: 0 <= i < |data| && Contains(data[i].0, "tg_") && !Blank(data[i].1)
         then ["1000 Genomes"] else [])
      + (if "otoscope" in freqs && exists i :: 0 <= i < |data| && Contains(data[i].0, "otoscope_") && !Blank(data[i].1)
         then ["OtoSCOPE"] else [])
      + ["dbNSFP 2"]
    ensures var credits := Credits(freqs, data);
      1 <= |credits| <= 4 && credits[|credits| - 1] == "dbNSFP 2"
      && ("ESP6500" in credits <==>
            "evs" in freqs && exists i :: 0 <= i < |data| && Contains(data[i].0, "evs_") && !Blank(data[i].1))
  {
    CreditsOrder(freqs, data);
    var esp := if "evs" in freqs && GiveCreditTo("evs", data) then ["ESP6500"] else [];
    var tg := if "1000genomes" in freqs && GiveCreditTo("tg", data) then ["1000 Genomes"] else [];
    var oto := if "otoscope" in freqs && GiveCreditTo("otoscope", data) then ["OtoSCOPE"] else [];
    var credits := Credits(freqs, data);
    assert credits == esp + tg + oto + ["dbNSFP 2"];
    assert "evs" + "_" == "evs_";
    EspOnlyFirst(esp, tg, oto);
  }

  lemma CreditsOrder(freqs: seq<string>, data: seq<(string, Option<string>)>)
    ensures Credits(freqs, data) ==
      (if "evs" in freqs && exists i :: 0 <= i < |data| && Contains(data[i].0, "evs_") && !Blank(data[i].1)
       then ["ESP6500"] else [])
      + (if "1000genomes" in freqs && exists i :: 0 <= i < |data| && Contains(data[i].0, "tg_") && !Blank(data[i].1)
         then ["1000 Genomes"] else [])
      + (if "otoscope" in freqs && exists i :: 0 <= i < |data| && Contains(data[i].0, "otoscope_") && !Blank(data[i].1)
         then ["OtoSCOPE"] else [])
      + ["dbNSFP 2"]
  {
    assert "evs" + "_" == "evs_" && "tg" + "_" == "tg_" && "otoscope" + "_" == "otoscope_";
  }

  /** Only the first credit can name ESP6500. */
  lemma EspOnlyFirst(esp: seq<string>, tg: seq<string>, oto: seq<string>)
    requires tg == [] || tg == ["1000 Genomes"]
    requires oto == [] || oto == ["OtoSCOPE"]
    ensures "ESP6500" in esp + tg + oto + ["dbNSFP 2"] <==> "ESP6500" in esp
  {
    assert "ESP6500" != "1000 Genomes" && "ESP6500" != "OtoSCOPE" && "ESP6500" != "dbNSFP 2";
    assert "ESP6500" !in tg + oto + ["dbNSFP 2"];
  }

  /** With at least one credit the comment is the note followed by the credits sentence. */
  lemma CommentsWithCredits(credits: seq<string>)
    requires |credits| > 0
    ensures CommentsFor(credits) == CurationNote + " Record generated from: " + Implode(", ", credits) + "."
    ensures |CommentsFor(credits)| > |CurationNote|
  {
    var sentence := "Record generated from: " + Implode(", ", credits) + ".";
    var parts := [CurationNote] + [sentence];
    assert parts[1..] == [sentence];
    assert CommentsFor(credits) == Implode(" ", parts) == CurationNote + " " + sentence;
    assert " " + sentence == " Record generated from: " + Implode(", ", credits) + ".";
  }

  // ---------------------------------------------------------------------------
  // get_annotation_data

  /**
   * get_annotation_data with the tool as a parameter. The tool runs on the
   * normalised position; its error log is checked for the two markers before
   * the output is read.
   */
  function GetAnnotationData(variation: string, configured: bool, freqs: seq<string>, tool: string -> ToolRun)
    : (r: Result<Row, AnnotationError>)
    ensures r.Success? ==> forall k :: k in AnnotationKeys ==> k in r.value
    ensures r.Success? ==> "comments" in r.value && r.value["comments"].Some?
  {
    if !configured then Failure(ToolNotConfigured)
    else
      var run := tool(Position.FormatHg19Position(variation, false));
      if run.errorLog.Some? && Flagged(run.errorLog.value, UnsupportedMarker) then Failure(UnsupportedMutationType)
      else if run.errorLog.Some? && Flagged(run.errorLog.value, NoRefseqMarker) then Failure(NoMatchingRefseq)
      else if !Truthy(run.output) then Failure(NoDataFound)
      else
        var parsed := ParseOutput(run.output);
        Success(parsed["comments" := Some(CommentsFor(Credits(freqs, Pairs(parsed))))])
  }

  /**
   * The errors in order of precedence: configuration, then the two markers of the
   * error log, then empty output ("" or "0"); anything else succeeds.
   */
  lemma ErrorPrecedence(variation: string, configured: bool, freqs: seq<string>, tool: string -> ToolRun)
    ensures var r := GetAnnotationData(variation, configured, freqs, tool);
      var run := tool(Position.FormatHg19Position(variation, false));
      var log := if run.errorLog.Some? then run.errorLog.value else "";
      && (!configured <==> r == Failure(ToolNotConfigured))
      && (r == Failure(UnsupportedMutationType) <==> configured && Flagged(log, UnsupportedMarker))
      && (r == Failure(NoMatchingRefseq) <==>
            configured && !Flagged(log, UnsupportedMarker) && Flagged(log, NoRefseqMarker))
      && (r == Failure(NoDataFound) <==>
            configured && !Flagged(log, UnsupportedMarker) && !Flagged(log, NoRefseqMarker) && !Truthy(run.output))
  {
    var run := tool(Position.FormatHg19Position(variation, false));
    if run.errorLog.None? {
      var log := "";
      assert IndexOf(log, UnsupportedMarker).None?;
      assert IndexOf(log, NoRefseqMarker).None?;
    }
  }

  /** A marker at the very start of the error log is not detected (strpos returns 0). */
  lemma MarkerAtStartMissed(variation: string, freqs: seq<string>, tool: string -> ToolRun, rest: string)
    requires tool(Position.FormatHg19Position(variation, false)).errorLog == Some(UnsupportedMarker + rest)
    ensures GetAnnotationData(variation, true, freqs, tool) != Failure(UnsupportedMutationType)
  {
    var log := UnsupportedMarker + rest;
    assert log[..|UnsupportedMarker|] == UnsupportedMarker;
    assert IndexOf(log, UnsupportedMarker) == Some(0);
  }

  /**
   * Proof step for `AnnotationValuesNotBlank`: unfolds the success branch of
   * `GetAnnotationData` (the parsed output with the comments set).
   */
  lemma SuccessValue(variation: string, configured: bool, freqs: seq<string>, tool: string -> ToolRun)
    requires GetAnnotationData(variation, configured, freqs, tool).Success?
    ensures var parsed := ParseOutput(tool(Position.FormatHg19Position(variation, false)).output);
      GetAnnotationData(variation, configured, freqs, tool).value
        == parsed["comments" := Some(CommentsFor(Credits(freqs, Pairs(parsed))))]
  {
  }

  /** A value read from the tool's output is NULL or has data. */
  lemma ParsedNotBlank(contents: string)
    ensures forall k :: k in ParseOutput(contents) && ParseOutput(contents)[k].Some? ==>
      ParseOutput(contents)[k].value != "" && ParseOutput(contents)[k].value != "."
  {
  }

  /** A successful result never holds '' or '.' in any column. */
  lemma AnnotationValuesNotBlank(variation: string, configured: bool, freqs: seq<string>, tool: string -> ToolRun)
    ensures var r := GetAnnotationData(variation, configured, freqs, tool);
      r.Success? ==> forall k :: k in r.value && r.value[k].Some? ==>
        r.value[k].value != "" && r.value[k].value != "."
  {
    var r := GetAnnotationData(variation, configured, freqs, tool);
    if r.Success? {
      var run := tool(Position.FormatHg19Position(variation, false));
      var parsed := ParseOutput(run.output);
      var credits := Credits(freqs, Pairs(parsed));
      CreditsShape(freqs, Pairs(parsed));
      CommentsWithCredits(credits);
      var c := CommentsFor(credits);
      SuccessValue(variation, configured, freqs, tool);
      ParsedNotBlank(run.output);
      forall k | k in r.value && r.value[k].Some?
        ensures r.value[k].value != "" && r.value[k].value != "."
      {
        if k != "comments" {
          assert r.value[k] == parsed[k];
        }
      }
    }
  }
}
