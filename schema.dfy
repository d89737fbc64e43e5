/**
 * The tables of the variation database: a live table and a queue table with the
 * same columns, keyed by the variant id, plus the review ledger, the release
 * history and the expert-curation table.
 */
module Schema {
  import opened Wrappers

  /**
   * A record as the PHP code handles it: column name to nullable string value.
   * The `id` column is the key of the table and is kept outside the record.
   */
  type Row = map<string, Option<string>>

  /** The annotation columns, in the order get_annotation_data builds them. */
  const AnnotationKeys: seq<string> := VariantKeys + PredictionKeys + EvsKeys + OtoscopeKeys + GenomesKeys

  /** The variant's identity and its clinical call. */
  const VariantKeys: seq<string> := [
    "variation", "gene", "hgvs_nucleotide_change", "hgvs_protein_change", "variantlocale",
    "pathogenicity", "dbsnp"]

  /** In-silico prediction scores and calls. */
  const PredictionKeys: seq<string> := [
    "phylop_score", "phylop_pred", "sift_score", "sift_pred",
    "polyphen2_score", "polyphen2_pred", "lrt_score", "lrt_pred", "mutationtaster_score",
    "mutationtaster_pred", "gerp_nr", "gerp_rs", "gerp_pred", "lrt_omega"]

  /** Exome Variant Server allele counts and frequencies. */
  const EvsKeys: seq<string> := ["evs_ea_ac", "evs_ea_af", "evs_aa_ac", "evs_aa_af"]

  /** OtoSCOPE allele counts and frequencies. */
  const OtoscopeKeys: seq<string> := [
    "otoscope_aj_ac", "otoscope_aj_af", "otoscope_co_ac", "otoscope_co_af",
    "otoscope_us_ac", "otoscope_us_af", "otoscope_jp_ac", "otoscope_jp_af",
    "otoscope_es_ac", "otoscope_es_af", "otoscope_tr_ac", "otoscope_tr_af",
    "otoscope_all_ac", "otoscope_all_af"]

  /** 1000 Genomes allele counts and frequencies. */
  const GenomesKeys: seq<string> := [
    "tg_afr_ac", "tg_afr_af", "tg_eur_ac", "tg_eur_af", "tg_amr_ac", "tg_amr_af",
    "tg_asn_ac", "tg_asn_af", "tg_all_ac", "tg_all_af"]

  /** Columns written by curation, expert overrides and the variant-CADI import. */
  const CurationColumns: set<string> := {
    "comments", "disease", "pubmed_id",
    "summary_insilico", "summary_frequency", "summary_published",
    "evs_all_ac", "evs_all_af"
  }

  /** The columns shared by the live and the queue table (besides `id`). */
  const Columns: set<string> := (set k | k in AnnotationKeys) + CurationColumns

  /** The columns the model's operations read or write by name. */
  lemma NamedColumns()
    ensures "variation" in Columns && "gene" in Columns && "hgvs_nucleotide_change" in Columns
    ensures "hgvs_protein_change" in Columns && "pathogenicity" in Columns
    ensures "disease" in Columns && "pubmed_id" in Columns && "comments" in Columns
  {
    assert VariantKeys[0] == "variation" && VariantKeys[1] == "gene";
    assert VariantKeys[2] == "hgvs_nucleotide_change" && VariantKeys[3] == "hgvs_protein_change";
    assert VariantKeys[5] == "pathogenicity";
  }

  /** A stored record carries exactly the table's columns. */
  predicate WellFormed(r: Row) {
    r.Keys == Columns
  }

  /** The record inserted to reserve an id: every column NULL. */
  function NullRow(): (r: Row)
    ensures WellFormed(r)
    ensures forall c :: c in r ==> r[c] == None
  {
    map c | c in Columns :: None
  }

  /** A column value read from a record; a missing column reads as NULL. */
  function Get(r: Row, c: string): Option<string> {
    if c in r then r[c] else None
  }

  lemma NonEmptyHasId(s: set<int>)
    requires s != {}
    ensures exists id :: id in s
  {
    if forall id :: id !in s {
      assert false;
    }
  }

  /** Some id of a non-empty id set (the next row a table scan visits). */
  method PickId(s: set<int>) returns (id: int)
    requires s != {}
    ensures id in s
  {
    NonEmptyHasId(s);
    id :| id in s;
  }

  /** One row of the review ledger; `rid` is the ledger's own auto-increment id. */
  datatype Review = Review(
    rid: int,
    confirmed: bool,
    scheduled: bool,
    comments: Option<string>,
    created: string,
    updated: string)

  /** One row of the versions table written by a release. */
  datatype VersionRecord = VersionRecord(
    version: int,
    created: string,
    updated: string,
    variants: nat,
    genes: nat)

  /** One row of the expert-curation table, keyed by `variation`. */
  datatype ExpertCuration = ExpertCuration(
    gene: string,
    chr: string,
    pos: string,
    ref: string,
    alt: string,
    variation: string,
    pathogenicity: string,
    disease: string,
    pubmedId: string,
    comments: string,
    deleteOnRelease: string,
    disabledCuration: string,
    dateInserted: string)
}
