/**
 * Position normalizer: format_hg19_position rewrites a genomic position
 * "chrom:pos:ref>alt" into the canonical "chr1:41283868:G>A" form, or, for the
 * dbNSFP search program, into "1<TAB>41283868<TAB>G<TAB>A".
 *
 * `FormatHg19Position` is the function as written, and the one the annotation
 * run uses. It is not idempotent (see `AsWrittenNotIdempotent`);
 * `NormalizePosition` is the evidently intended form, and `NormalizeIdempotent`
 * proves it idempotent.
 */
module Position {
  import opened PhpStrings

  /** str_replace("x", "X") then str_replace("y", "Y") */
  function UpperXY(s: string): (r: string)
    ensures |r| == |s|
  {
    ReplaceChar(ReplaceChar(s, 'x', 'X'), 'y', 'Y')
  }

  /** Character by character: x becomes X, y becomes Y, and every other character is kept. */
  lemma UpperXYChars(s: string)
    ensures forall j :: 0 <= j < |s| ==>
      UpperXY(s)[j] == (if s[j] == 'x' then 'X' else if s[j] == 'y' then 'Y' else s[j])
  {
  }

  /** Part 0 as written: lower-cased only when it already mentions "chr" in any case. */
  function FormatChromosome(p0: string): string {
    UpperXY(if ContainsCI(p0, "chr") then Lower(p0) else "chr" + p0)
  }

  /**
   * The parts after formatting. With fewer than three parts, the assignment to
   * `$parts[2]` appends one empty part.
   */
  function FormattedParts(parts: seq<string>): (out: seq<string>)
    requires |parts| >= 1
  {
    [FormatChromosome(parts[0])]
      + (if |parts| >= 3 then [parts[1], Upper(parts[2])] + parts[3..] else parts[1..] + [""])
  }

  /** The dbNSFP form: "chr" removed, upper-cased, ':' and '>' turned into tabs. */
  function ForDbnsfp(v: string): string {
    ReplaceChars(Upper(StrReplace(v, "chr", "")), ':', '>', '\t')
  }

  /** format_hg19_position as written. There is no error path. */
  function FormatHg19Position(v: string, forDbnsfp: bool): string {
    var joined := Implode(":", FormattedParts(Explode(v, ":")));
    if forDbnsfp then ForDbnsfp(joined) else joined
  }

  // ---------------------------------------------------------------------------
  // Facts about characters

  /** A string without ':' */
  predicate NoColon(s: string) {
    forall j :: 0 <= j < |s| ==> s[j] != ':'
  }

  predicate NoLowerXY(s: string) {
    forall j :: 0 <= j < |s| ==> s[j] != 'x' && s[j] != 'y'
  }

  lemma LowerChr()
    ensures Lower("chr") == "chr"
  {
  }

  /** An occurrence of "chr" survives lower-casing and the X/Y replacement. */
  lemma ChrSurvives(s: string, i: int)
    requires OccursAt(s, "chr", i)
    ensures OccursAt(Lower(s), "chr", i)
    ensures OccursAt(UpperXY(s), "chr", i)
  {
    assert s[i] == 'c' && s[i + 1] == 'h' && s[i + 2] == 'r' by {
      assert s[i..i + 3] == "chr";
    }
    assert Lower(s)[i..i + 3] == "chr";
    assert UpperXY(s)[i..i + 3] == "chr";
  }

  lemma ContainsChrAfterFormat(q: string)
    requires Contains(q, "chr")
    ensures Contains(UpperXY(q), "chr") && ContainsCI(UpperXY(q), "chr")
  {
    var i := IndexOf(q, "chr").value;
    ChrSurvives(q, i);
    ChrSurvives(UpperXY(q), i);
    LowerChr();
  }

  lemma ContainsChrAfterLower(q: string)
    requires ContainsCI(q, "chr")
    ensures Contains(Lower(q), "chr")
  {
    LowerChr();
  }

  lemma ChrPrefixContainsChr(p: string)
    ensures Contains("chr" + p, "chr")
  {
    assert OccursAt("chr" + p, "chr", 0);
  }

  /** Lower-casing after the X/Y replacement of a lower-cased string gives it back. */
  lemma LowerUpperXYLower(q: string)
    ensures Lower(UpperXY(Lower(q))) == Lower(q)
    ensures UpperXY(Lower(UpperXY(Lower(q)))) == UpperXY(Lower(q))
  {
  }

  lemma LowerIdempotent(s: string)
    ensures Lower(Lower(s)) == Lower(s)
  {
  }

  lemma UpperIdempotent(s: string)
    ensures Upper(Upper(s)) == Upper(s)
  {
  }

  lemma NoColonPreserved(s: string)
    requires NoColon(s)
    ensures NoColon(Lower(s)) && NoColon(Upper(s)) && NoColon(UpperXY(s)) && NoColon("chr" + s)
  {
    assert forall j :: 0 <= j < |s| ==> ("chr" + s)[j + 3] == s[j];
  }

  lemma FormatChromosomeNoColon(p0: string)
    requires NoColon(p0)
    ensures NoColon(FormatChromosome(p0))
  {
    NoColonPreserved(p0);
    NoColonPreserved(Lower(p0));
    NoColonPreserved("chr" + p0);
  }

  lemma ExplodeColonParts(v: string)
    ensures forall i :: 0 <= i < |Explode(v, ":")| ==> NoColon(Explode(v, ":")[i])
  {
    ExplodeNoDelimiter(v, ":");
  }

  lemma FormattedPartsNoColon(parts: seq<string>)
    requires |parts| >= 1
    requires forall i :: 0 <= i < |parts| ==> NoColon(parts[i])
    ensures forall i :: 0 <= i < |FormattedParts(parts)| ==> NoColon(FormattedParts(parts)[i])
  {
    FormatChromosomeNoColon(parts[0]);
    if |parts| >= 3 { NoColonPreserved(parts[2]); }
  }

  /** Exploding an implode of colon-free parts on ':' gives the parts back. */
  lemma ResplitParts(parts: seq<string>)
    requires |parts| >= 1
    requires forall i :: 0 <= i < |parts| ==> NoColon(parts[i])
    ensures Explode(Implode(":", parts), ":") == parts
  {
    ExplodeImplode(parts, ":");
  }

  // ---------------------------------------------------------------------------
  // What format_hg19_position produces

  /** Part 0 after formatting: holds "chr", no lower-case x/y, and equals the input up to case. */
  lemma FormatChromosomeShape(p0: string)
    ensures Contains(FormatChromosome(p0), "chr") && NoLowerXY(FormatChromosome(p0))
    ensures ContainsCI(p0, "chr") ==> Lower(FormatChromosome(p0)) == Lower(p0)
    ensures !ContainsCI(p0, "chr") ==> Lower(FormatChromosome(p0)) == "chr" + Lower(p0)
  {
    if ContainsCI(p0, "chr") {
      ChromosomeNamingChr(p0);
    } else {
      ChromosomeWithoutChr(p0);
    }
  }

  lemma ChromosomeNamingChr(p0: string)
    requires ContainsCI(p0, "chr")
    ensures FormatChromosome(p0) == UpperXY(Lower(p0))
    ensures Contains(UpperXY(Lower(p0)), "chr") && NoLowerXY(UpperXY(Lower(p0)))
    ensures Lower(UpperXY(Lower(p0))) == Lower(p0)
  {
    ContainsChrAfterLower(p0);
    ContainsChrAfterFormat(Lower(p0));
    LowerUpperXYLower(p0);
  }

  lemma ChromosomeWithoutChr(p0: string)
    requires !ContainsCI(p0, "chr")
    ensures FormatChromosome(p0) == UpperXY("chr" + p0)
    ensures Contains(UpperXY("chr" + p0), "chr") && NoLowerXY(UpperXY("chr" + p0))
    ensures Lower(UpperXY("chr" + p0)) == "chr" + Lower(p0)
  {
    var q := "chr" + p0;
    ChrPrefixContainsChr(p0);
    ContainsChrAfterFormat(q);
    LowerAfterChr(p0);
  }

  lemma LowerAfterChr(p0: string)
    ensures Lower(UpperXY("chr" + p0)) == "chr" + Lower(p0)
  {
    LowerUndoesUpperXY("chr" + p0);
    LowerChrPrefix(p0);
  }

  /** Lower-casing undoes the X/Y replacement. */
  lemma LowerUndoesUpperXY(s: string)
    ensures Lower(UpperXY(s)) == Lower(s)
  {
    UpperXYChars(s);
    assert forall j :: 0 <= j < |s| ==> Lower(UpperXY(s))[j] == Lower(s)[j];
  }

  lemma LowerChrPrefix(p0: string)
    ensures Lower("chr" + p0) == "chr" + Lower(p0)
  {
    var q := "chr" + p0;
    assert forall j :: 0 <= j < |p0| ==> q[j + 3] == p0[j];
    assert forall j :: 0 <= j < |q| ==> Lower(q)[j] == ("chr" + Lower(p0))[j];
  }

  /**
   * Re-splitting the output on ':' gives: part 0 holding "chr", with no lower-case
   * x or y, lower-cased when it named "chr" in any case and otherwise prefixed
   * with "chr" with its case kept, then x and y upper-cased; part 1 and parts beyond 2 unchanged; part 2 upper-cased;
   * and an empty part 2 appended when the input had fewer than three parts.
   */
  lemma FormatHg19PositionParts(v: string)
    ensures var inp := Explode(v, ":");
            var out := Explode(FormatHg19Position(v, false), ":");
            && |out| == (if |inp| >= 3 then |inp| else |inp| + 1)
            && Contains(out[0], "chr") && NoLowerXY(out[0])
            && (ContainsCI(inp[0], "chr") ==> out[0] == UpperXY(Lower(inp[0])))
            && (!ContainsCI(inp[0], "chr") ==> out[0] == UpperXY("chr" + inp[0]))
            && (ContainsCI(inp[0], "chr") ==> Lower(out[0]) == Lower(inp[0]))
            && (!ContainsCI(inp[0], "chr") ==> Lower(out[0]) == "chr" + Lower(inp[0]))
            && (|inp| >= 3 ==> out[1] == inp[1] && out[2] == Upper(inp[2]) && out[3..] == inp[3..])
            && (|inp| < 3 ==> out[1..|inp|] == inp[1..] && out[|inp|] == "")
  {
    var inp := Explode(v, ":");
    ExplodeColonParts(v);
    FormattedPartsNoColon(inp);
    ResplitParts(FormattedParts(inp));
    assert Explode(FormatHg19Position(v, false), ":") == FormattedParts(inp);
    FormattedPartsShape(inp);
  }

  /** The formatted parts before joining, part by part. */
  lemma FormattedPartsShape(inp: seq<string>)
    requires |inp| >= 1
    ensures var out := FormattedParts(inp);
            && |out| == (if |inp| >= 3 then |inp| else |inp| + 1)
            && Contains(out[0], "chr") && NoLowerXY(out[0])
            && (ContainsCI(inp[0], "chr") ==> out[0] == UpperXY(Lower(inp[0])))
            && (!ContainsCI(inp[0], "chr") ==> out[0] == UpperXY("chr" + inp[0]))
            && (ContainsCI(inp[0], "chr") ==> Lower(out[0]) == Lower(inp[0]))
            && (!ContainsCI(inp[0], "chr") ==> Lower(out[0]) == "chr" + Lower(inp[0]))
            && (|inp| >= 3 ==> out[1] == inp[1] && out[2] == Upper(inp[2]) && out[3..] == inp[3..])
            && (|inp| < 3 ==> out[1..|inp|] == inp[1..] && out[|inp|] == "")
  {
    FormatChromosomeShape(inp[0]);
  }

  /** On input that already names "chr" and has a position part, formatting twice equals formatting once. */
  lemma {:induction false} FormatIdempotentOnChrInput(v: string)
    requires |Explode(v, ":")| >= 2 && ContainsCI(Explode(v, ":")[0], "chr")
    ensures FormatHg19Position(FormatHg19Position(v, false), false) == FormatHg19Position(v, false)
  {
    var inp := Explode(v, ":");
    ExplodeColonParts(v);
    FormattedPartsNoColon(inp);
    var out := FormattedParts(inp);
    ResplitParts(out);
    ContainsChrAfterLower(inp[0]);
    ContainsChrAfterFormat(Lower(inp[0]));
    LowerUpperXYLower(inp[0]);
    assert FormatChromosome(out[0]) == out[0];
    if |inp| >= 3 {
      UpperIdempotent(inp[2]);
      assert FormattedParts(out) == out;
    } else {
      assert |out| == 3 && out[2] == "";
      assert FormattedParts(out) == out;
    }
  }

  lemma SplitMito()
    ensures Explode("M:1:A>G", ":") == ["M", "1", "A>G"]
  {
    ExplodeImplode(["M", "1", "A>G"], ":");
    assert Implode(":", ["M", "1", "A>G"]) == "M:1:A>G";
  }

  lemma SplitChrMito()
    ensures Explode("chrM:1:A>G", ":") == ["chrM", "1", "A>G"]
  {
    ExplodeImplode(["chrM", "1", "A>G"], ":");
    assert Implode(":", ["chrM", "1", "A>G"]) == "chrM:1:A>G";
  }

  lemma JoinMito()
    ensures Implode(":", ["chrm", "1", "A>G"]) == "chrm:1:A>G"
  {
  }

  lemma ChromosomeM()
    ensures !ContainsCI("M", "chr") && ContainsCI("chrM", "chr")
    ensures Lower("chrM") == "chrm"
  {
    LowerChr();
    assert OccursAt(Lower("chrM"), "chr", 0);
  }

  lemma FormatMito()
    ensures FormatChromosome("M") == "chrM" && FormatChromosome("chrM") == "chrm"
    ensures Upper("A>G") == "A>G"
  {
    ChromosomeM();
  }

  lemma FormatOnceMito()
    ensures FormatHg19Position("M:1:A>G", false) == "chrM:1:A>G"
  {
    SplitMito();
    PartsMito();
    JoinChrMito();
  }

  lemma PartsMito()
    ensures FormattedParts(["M", "1", "A>G"]) == ["chrM", "1", "A>G"]
  {
    FormatMito();
  }

  lemma JoinChrMito()
    ensures Implode(":", ["chrM", "1", "A>G"]) == "chrM:1:A>G"
  {
  }

  lemma ChromosomeChrM()
    ensures FormatChromosome("chrM") == "chrm"
  {
    ChromosomeM();
  }

  /** Unfolds the as-written `FormattedParts` on the parts of "chrM:1:A>G". */
  lemma PartsChrMito()
    ensures FormattedParts(["chrM", "1", "A>G"]) == ["chrm", "1", "A>G"]
  {
    ChromosomeChrM();
    assert Upper("A>G") == "A>G";
  }

  lemma FormatChrMito()
    ensures FormatHg19Position("chrM:1:A>G", false) == "chrm:1:A>G"
  {
    SplitChrMito();
    PartsChrMito();
    JoinMito();
  }

  /**
   * The as-written function is not idempotent: a chromosome named without "chr"
   * keeps its case ("M" becomes "chrM"), and a second pass lower-cases it ("chrm").
   */
  lemma AsWrittenNotIdempotent()
    ensures var once := FormatHg19Position("M:1:A>G", false);
            once == "chrM:1:A>G" && FormatHg19Position(once, false) == "chrm:1:A>G"
  {
    FormatOnceMito();
    FormatChrMito();
  }

  lemma SplitChr1()
    ensures Explode("chr1", ":") == ["chr1"]
  {
    ExplodeSingle("chr1", ":");
  }

  lemma SplitChr1Colon()
    ensures Explode("chr1:", ":") == ["chr1", ""]
  {
    ExplodeImplode(["chr1", ""], ":");
    assert Implode(":", ["chr1", ""]) == "chr1:";
  }

  lemma ChromosomeChr1Lower()
    ensures FormatChromosome("chr1") == "chr1"
  {
    LowerChr();
    assert OccursAt(Lower("chr1"), "chr", 0);
    assert Lower("chr1") == "chr1";
  }

  lemma PartsChr1()
    ensures FormattedParts(["chr1"]) == ["chr1", ""]
  {
    ChromosomeChr1Lower();
  }

  lemma PartsChr1Colon()
    ensures FormattedParts(["chr1", ""]) == ["chr1", "", ""]
  {
    ChromosomeChr1Lower();
  }

  lemma JoinChr1()
    ensures Implode(":", ["chr1", ""]) == "chr1:"
  {
  }

  lemma JoinChr1Colon()
    ensures Implode(":", ["chr1", "", ""]) == "chr1::"
  {
  }

  lemma FormatOnceChr1()
    ensures FormatHg19Position("chr1", false) == "chr1:"
  {
    SplitChr1();
    PartsChr1();
    JoinChr1();
  }

  lemma FormatTwiceChr1()
    ensures FormatHg19Position("chr1:", false) == "chr1::"
  {
    SplitChr1Colon();
    PartsChr1Colon();
    JoinChr1Colon();
  }

  /**
   * The as-written function is not idempotent on a position with fewer than
   * three parts: each pass appends one empty part ("chr1", "chr1:", "chr1::").
   */
  lemma OnePartNotIdempotent()
    ensures FormatHg19Position("chr1", false) == "chr1:"
    ensures FormatHg19Position("chr1:", false) == "chr1::"
  {
    FormatOnceChr1();
    FormatTwiceChr1();
  }

  lemma SplitDbnsfpExample()
    ensures Explode("CHR1:41283868:g>a", ":") == ["CHR1", "41283868", "g>a"]
  {
    ExplodeImplode(["CHR1", "41283868", "g>a"], ":");
    assert Implode(":", ["CHR1", "41283868", "g>a"]) == "CHR1:41283868:g>a";
  }

  lemma ChromosomeChr1()
    ensures FormatChromosome("CHR1") == "chr1" && Upper("g>a") == "G>A"
  {
    LowerChr();
    assert OccursAt(Lower("CHR1"), "chr", 0);
  }

  lemma StripChrExample()
    ensures StrReplace("chr1:41283868:G>A", "chr", "") == "1:41283868:G>A"
  {
    var s := "chr1:41283868:G>A";
    assert s[..3] == "chr";
    var t := s[3..];
    assert t == "1:41283868:G>A";
    StrReplaceNoMatch(t, "chr", "");
  }

  /** str_replace leaves a string without 'c' unchanged. */
  lemma {:induction false} StrReplaceNoMatch(s: string, from: string, to: string)
    requires |from| > 0 && forall j :: 0 <= j < |s| ==> s[j] != from[0]
    ensures StrReplace(s, from, to) == s
    decreases |s|
  {
    if |s| > 0 {
      StrReplaceNoMatch(s[1..], from, to);
      assert s == [s[0]] + s[1..];
    }
  }

  lemma PartsDbnsfpExample()
    ensures FormattedParts(["CHR1", "41283868", "g>a"]) == ["chr1", "41283868", "G>A"]
  {
    ChromosomeChr1();
  }

  lemma JoinDbnsfpExample()
    ensures Implode(":", ["chr1", "41283868", "G>A"]) == "chr1:41283868:G>A"
  {
  }

  lemma JoinedDbnsfpExample()
    ensures Implode(":", FormattedParts(Explode("CHR1:41283868:g>a", ":"))) == "chr1:41283868:G>A"
  {
    SplitDbnsfpExample();
    PartsDbnsfpExample();
    JoinDbnsfpExample();
  }

  lemma DbnsfpTabs()
    ensures ReplaceChars(Upper("1:41283868:G>A"), ':', '>', '\t') == "1\t41283868\tG\tA"
  {
    assert Upper("1:41283868:G>A") == "1:41283868:G>A";
  }

  /** The dbNSFP form of a mixed-case input. */
  lemma DbnsfpExample()
    ensures FormatHg19Position("CHR1:41283868:g>a", true) == "1\t41283868\tG\tA"
  {
    JoinedDbnsfpExample();
    StripChrExample();
    DbnsfpTabs();
  }

  /**
   * The dbNSFP form of any input: the standard form with every "chr" removed and
   * upper-cased, in which each ':' and '>' (and any tab already there) becomes a
   * tab and every other character is kept. It holds no ':', no '>' and no
   * lower-case letter.
   */
  lemma DbnsfpForm(v: string)
    ensures var s := Upper(StrReplace(FormatHg19Position(v, false), "chr", ""));
            var r := FormatHg19Position(v, true);
            && |r| == |s|
            && (forall j :: 0 <= j < |r| ==> (r[j] == '\t' <==> s[j] == ':' || s[j] == '>' || s[j] == '\t'))
            && (forall j :: 0 <= j < |r| ==> r[j] != '\t' ==> r[j] == s[j])
            && (forall j :: 0 <= j < |r| ==> r[j] != ':' && r[j] != '>' && !('a' <= r[j] <= 'z'))
  {
    var s := Upper(StrReplace(FormatHg19Position(v, false), "chr", ""));
    assert FormatHg19Position(v, true) == ReplaceChars(s, ':', '>', '\t');
  }

  // ---------------------------------------------------------------------------
  // Corrected normalizer

  /** Part 0, lower-cased in both branches, then X and Y upper-cased. */
  function NormalizeChromosome(p0: string): string {
    UpperXY(Lower(if ContainsCI(p0, "chr") then p0 else "chr" + p0))
  }

  /** Pads the parts to the three that the position format has. */
  function PadToThree(parts: seq<string>): (r: seq<string>)
    ensures |r| >= 3
    ensures |parts| >= 3 ==> r == parts
    decreases 3 - |parts|
  {
    if |parts| >= 3 then parts else PadToThree(parts + [""])
  }

  function NormalizedParts(parts: seq<string>): seq<string>
    requires |parts| >= 1
  {
    var p := PadToThree(parts);
    [NormalizeChromosome(p[0]), p[1], Upper(p[2])] + p[3..]
  }

  /** The normalizer as its documentation describes it. */
  function NormalizePosition(v: string, forDbnsfp: bool): string {
    var joined := Implode(":", NormalizedParts(Explode(v, ":")));
    if forDbnsfp then ForDbnsfp(joined) else joined
  }

  lemma PadToThreeParts(parts: seq<string>)
    requires forall i :: 0 <= i < |parts| ==> NoColon(parts[i])
    ensures forall i :: 0 <= i < |PadToThree(parts)| ==> NoColon(PadToThree(parts)[i])
    ensures |parts| >= 1 ==> PadToThree(parts)[0] == parts[0]
    decreases 3 - |parts|
  {
    if |parts| < 3 { PadToThreeParts(parts + [""]); }
  }

  lemma NormalizeChromosomeIdempotent(p0: string)
    ensures NormalizeChromosome(NormalizeChromosome(p0)) == NormalizeChromosome(p0)
  {
    var q := if ContainsCI(p0, "chr") then p0 else "chr" + p0;
    if ContainsCI(p0, "chr") {
      ContainsChrAfterLower(p0);
    } else {
      ChrPrefixContainsChr(p0);
      ChrSurvives("chr" + p0, IndexOf("chr" + p0, "chr").value);
    }
    assert Contains(Lower(q), "chr");
    ContainsChrAfterFormat(Lower(q));
    LowerUpperXYLower(q);
  }

  /** The corrected normalizer is idempotent on every input. */
  lemma {:induction false} NormalizeIdempotent(v: string)
    ensures NormalizePosition(NormalizePosition(v, false), false) == NormalizePosition(v, false)
  {
    var inp := Explode(v, ":");
    ExplodeColonParts(v);
    PadToThreeParts(inp);
    var p := PadToThree(inp);
    var out := NormalizedParts(inp);
    var c := NormalizeChromosome(p[0]);
    assert NoColon(c) by {
      NoColonPreserved(p[0]);
      NoColonPreserved("chr" + p[0]);
      NoColonPreserved(if ContainsCI(p[0], "chr") then p[0] else "chr" + p[0]);
      NoColonPreserved(Lower(if ContainsCI(p[0], "chr") then p[0] else "chr" + p[0]));
    }
    assert NoColon(Upper(p[2])) by { NoColonPreserved(p[2]); }
    assert forall i :: 0 <= i < |out| ==> NoColon(out[i]);
    ResplitParts(out);
    NormalizeChromosomeIdempotent(p[0]);
    UpperIdempotent(p[2]);
    assert PadToThree(out) == out;
    assert NormalizedParts(out) == out;
  }

  lemma NormalizeChromosomeAgrees(p0: string)
    requires ContainsCI(p0, "chr")
    ensures NormalizeChromosome(p0) == FormatChromosome(p0)
  {
    LowerIdempotent(p0);
  }

  /** On well-formed input that names "chr", the correction changes nothing. */
  lemma NormalizeAgreesOnChrInput(v: string, forDbnsfp: bool)
    requires |Explode(v, ":")| >= 3 && ContainsCI(Explode(v, ":")[0], "chr")
    ensures NormalizePosition(v, forDbnsfp) == FormatHg19Position(v, forDbnsfp)
  {
    var inp := Explode(v, ":");
    NormalizeChromosomeAgrees(inp[0]);
    assert PadToThree(inp) == inp;
    assert NormalizedParts(inp) == FormattedParts(inp);
  }

  /**
   * The corrected normalizer pads a one-part position to all three parts in a
   * single pass, so a second pass (`NormalizeIdempotent`) changes nothing.
   */
  lemma NormalizeOnePart()
    ensures NormalizePosition("chr1", false) == "chr1::"
  {
    SplitChr1();
    NormalizedPartsChr1();
    JoinChr1Colon();
  }

  lemma PadChr1()
    ensures PadToThree(["chr1"]) == ["chr1", "", ""]
  {
    assert PadToThree(["chr1", ""]) == ["chr1", "", ""];
  }

  /** Unfolds the corrected `NormalizedParts` on the single part "chr1". */
  lemma NormalizedPartsChr1()
    ensures NormalizedParts(["chr1"]) == ["chr1", "", ""]
  {
    PadChr1();
    ChromosomeChr1Lower();
    NormalizeChromosomeAgrees("chr1");
    assert Upper("") == "";
  }

  lemma NormalizeChromosomeMito()
    ensures NormalizeChromosome("M") == "chrm" && NormalizeChromosome("chrM") == "chrm"
  {
    ChromosomeM();
    assert Lower("chrM") == "chrm";
  }

  lemma NormalizeOnceMito()
    ensures NormalizePosition("M:1:A>G", false) == "chrm:1:A>G"
  {
    SplitMito();
    NormalizedPartsMito();
    JoinMito();
  }

  lemma NormalizedPartsMito()
    ensures NormalizedParts(["M", "1", "A>G"]) == ["chrm", "1", "A>G"]
  {
    NormalizeChromosomeMito();
    assert Upper("A>G") == "A>G";
  }

  /** Unfolds the corrected `NormalizedParts` on the parts of "chrM:1:A>G". */
  lemma NormalizedPartsChrMito()
    ensures NormalizedParts(["chrM", "1", "A>G"]) == ["chrm", "1", "A>G"]
  {
    NormalizeChromosomeMito();
    assert Upper("A>G") == "A>G";
  }

  lemma NormalizeChrMito()
    ensures NormalizePosition("chrM:1:A>G", false) == "chrm:1:A>G"
  {
    SplitChrMito();
    NormalizedPartsChrMito();
    JoinMito();
  }

  /** The corrected normalizer gives "M:1:A>G" and "chrM:1:A>G" the same canonical form. */
  lemma NormalizeMitochondrial()
    ensures NormalizePosition("M:1:A>G", false) == NormalizePosition("chrM:1:A>G", false) == "chrm:1:A>G"
  {
    NormalizeOnceMito();
    NormalizeChrMito();
  }
}
