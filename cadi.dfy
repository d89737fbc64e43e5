/**
 * The record UploadCADIData builds from one tab-separated line of a
 * variant-CADI export before handing it to create_new_variant.
 */
module Cadi {
  import opened Wrappers
  import opened PhpStrings
  import opened Schema

  const Tab: string := "\t"

  /** Missing trailing fields are filled with a single space up to this many fields. */
  const Width: nat := 71

  /** The fields of a short line padded with " " up to Width. */
  function Pad(parts: seq<string>): (r: seq<string>)
    ensures |r| == if |parts| < Width then Width else |parts|
    ensures forall i :: 0 <= i < |parts| ==> r[i] == parts[i]
    ensures forall i :: |parts| <= i < |r| ==> r[i] == " "
  {
    if |parts| < Width then parts + seq(Width - |parts|, _ => " ") else parts
  }

  /** The columns copied from a field as they are, with the field's position. */
  const FieldPositions: seq<(string, nat)> := IdentityPositions + ValuePositions

  /** The annotation values copied from the line. */
  const ValuePositions: seq<(string, nat)> := PredictionPositions + EvsPositions + OtoscopePositions + GenomesPositions

  const IdentityPositions: seq<(string, nat)> := [
    ("variation", 1), ("gene", 2), ("hgvs_nucleotide_change", 3), ("hgvs_protein_change", 4),
    ("variantlocale", 5), ("pathogenicity", 6), ("pubmed_id", 8), ("dbsnp", 9), ("comments", 10)]

  const PredictionPositions: seq<(string, nat)> := [
    ("sift_score", 11), ("sift_pred", 12), ("polyphen2_score", 13), ("polyphen2_pred", 14),
    ("mutationtaster_score", 15), ("mutationtaster_pred", 16), ("gerp_rs", 17), ("gerp_pred", 18),
    ("phylop_score", 19), ("phylop_pred", 20), ("lrt_score", 21), ("lrt_pred", 22)]

  const EvsPositions: seq<(string, nat)> := [
    ("evs_ea_ac", 26), ("evs_ea_af", 28), ("evs_aa_ac", 29), ("evs_aa_af", 31),
    ("evs_all_ac", 23), ("evs_all_af", 25)]

  const OtoscopePositions: seq<(string, nat)> := [
    ("otoscope_aj_ac", 53), ("otoscope_aj_af", 55), ("otoscope_co_ac", 56), ("otoscope_co_af", 58),
    ("otoscope_us_ac", 59), ("otoscope_us_af", 61), ("otoscope_jp_ac", 62), ("otoscope_jp_af", 64),
    ("otoscope_es_ac", 65), ("otoscope_es_af", 67), ("otoscope_tr_ac", 68), ("otoscope_tr_af", 70),
    ("otoscope_all_ac", 50), ("otoscope_all_af", 52)]

  const GenomesPositions: seq<(string, nat)> := [
    ("tg_afr_ac", 35), ("tg_afr_af", 37), ("tg_eur_ac", 44), ("tg_eur_af", 46),
    ("tg_amr_ac", 38), ("tg_amr_af", 40), ("tg_all_ac", 32), ("tg_all_af", 34)]

  /**
   * The columns filled with a literal "." (summary_insilico, summary_frequency,
   * summary_published, lrt_omega, gerp_nr, tg_asn_ac, tg_asn_af): every column
   * that is neither copied nor the disease.
   */
  const Dot: string := "."

  /** The disease is stored url-decoded from field 7. */
  const DiseaseIndex: nat := 7

  /** The position a column is copied from, if it is copied. */
  function PositionOf(c: string, positions: seq<(string, nat)>): (r: Option<nat>)
    ensures r.Some? ==> exists i :: 0 <= i < |positions| && positions[i] == (c, r.value)
    ensures r.None? ==> forall i :: 0 <= i < |positions| ==> positions[i].0 != c
    decreases |positions|
  {
    if |positions| == 0 then None
    else if positions[0].0 == c then Some(positions[0].1)
    else PositionOf(c, positions[1..])
  }

  /** `$lineArray[k]` of the padded line. */
  function At(p: seq<string>, k: nat): string {
    if k < |p| then p[k] else " "
  }

  /** The value the record gives a column. */
  function CadiValue(p: seq<string>, c: string): string {
    if c == "disease" then UrlDecode(At(p, DiseaseIndex))
    else match PositionOf(c, FieldPositions)
      case Some(k) => At(p, k)
      case None => Dot
  }

  /** The record of a padded line: a value for every column. */
  function Mapped(p: seq<string>): (r: Row)
    ensures WellFormed(r)
    ensures forall c :: c in r ==> r[c] == Some(CadiValue(p, c))
  {
    map c | c in Columns :: Some(CadiValue(p, c))
  }

  /** A line with a variation field yields its record; a line without one (isset fails) none. */
  function CadiRecord(line: string): (r: Option<Row>)
    ensures r.Some? <==> |Explode(line, Tab)| >= 2
  {
    var parts := Explode(line, Tab);
    if |parts| >= 2 then Some(Mapped(Pad(parts))) else None
  }

  /** The variation create_new_variant is called with: field 1 of the line. */
  function CadiVariation(line: string): string
    requires |Explode(line, Tab)| >= 2
  {
    Explode(line, Tab)[1]
  }

  // ---------------------------------------------------------------------------
  // Properties

  /**
   * Every stored value comes from the line: a copied column holds its field,
   * or " " when the line was too short to reach it; the disease holds its
   * field url-decoded; the variation is the one create_new_variant is given.
   */
  lemma CadiRecordValues(line: string, c: string, k: nat)
    requires CadiRecord(line).Some? && c in Columns && c != "disease"
    requires PositionOf(c, FieldPositions) == Some(k)
    ensures var parts := Explode(line, Tab);
      CadiRecord(line).value[c] == Some(if k < |parts| then parts[k] else " ")
  {
  }

  /** The search runs through the first list before the second. */
  lemma {:induction false} PositionOfAppend(c: string, a: seq<(string, nat)>, b: seq<(string, nat)>)
    ensures PositionOf(c, a + b) == if PositionOf(c, a).Some? then PositionOf(c, a) else PositionOf(c, b)
    decreases |a|
  {
    if |a| > 0 {
      assert (a + b)[1..] == a[1..] + b;
      PositionOfAppend(c, a[1..], b);
    } else {
      assert a + b == b;
    }
  }

  lemma VariationColumn()
    ensures "variation" in Columns && "gene" in Columns
    ensures PositionOf("variation", FieldPositions) == Some(1)
    ensures PositionOf("gene", FieldPositions) == Some(2)
  {
    NamedColumns();
    PositionOfAppend("variation", IdentityPositions, ValuePositions);
    PositionOfAppend("gene", IdentityPositions, ValuePositions);
    assert PositionOf("variation", IdentityPositions) == Some(1);
    assert IdentityPositions[1..][0] == ("gene", 2);
    assert PositionOf("gene", IdentityPositions[1..]) == Some(2);
  }

  lemma CadiVariationStored(line: string)
    requires CadiRecord(line).Some?
    ensures "variation" in CadiRecord(line).value && CadiRecord(line).value["variation"] == Some(CadiVariation(line))
  {
    VariationColumn();
    CadiRecordValues(line, "variation", 1);
  }

  /** A disease written url-encoded in the export is stored as it was before encoding. */
  lemma CadiDiseaseRoundTrip(line: string, disease: string)
    requires CadiRecord(line).Some?
    requires |Explode(line, Tab)| > DiseaseIndex && Explode(line, Tab)[DiseaseIndex] == UrlEncode(disease)
    requires IsByteString(disease)
    ensures "disease" in CadiRecord(line).value && CadiRecord(line).value["disease"] == Some(disease)
  {
    NamedColumns();
    UrlDecodeEncode(disease);
  }

  /** A line holding only an id and a variation stores " " as its gene. */
  lemma ShortLinePadded(line: string)
    requires |Explode(line, Tab)| == 2
    ensures CadiRecord(line).Some? && "gene" in CadiRecord(line).value && CadiRecord(line).value["gene"] == Some(" ")
  {
    VariationColumn();
    CadiRecordValues(line, "gene", 2);
  }
}
