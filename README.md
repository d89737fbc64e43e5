# Variation database model

A Dafny model of the variations model of the Cordova variation database
(`application/models/variations_model.php`). The database is a curation
store for genomic variants. A **live** table holds the published records and
a **queue** table holds the staged edits; both are keyed by the same variant
id. Beside them sit:

- a **review** ledger, one row per staged variant;
- a release (`push_data_live`) that merges the queue into the live table and
  logs deleted variants;
- an **expert-curation** table whose overrides are applied to the queue.

The model has these modules, one per concern of the PHP class:

| module | file | what it holds |
|---|---|---|
| `Wrappers` | `wrappers.dfy` | `Option` and `Result` |
| `PhpStrings` | `php_strings.dfy` | the PHP string functions the code uses (`explode`/`implode`, `trim`, `strtolower`, `strpos`, `str_replace`, `urlencode`/`urldecode`) over byte strings |
| `Schema` | `schema.dfy` | rows as maps from column name to nullable value, the column set, the review, version and expert-curation records |
| `Position` | `position.dfy` | `format_hg19_position` as written, and the corrected normalizer |
| `Annotation` | `annotation.dfy` | the result handling of `get_annotation_data` and `give_credit_to`, with the annotation tool as a parameter |
| `DbSnp` | `dbsnp.dfy` | the `SNP_ID=` token scan of `get_dbsnp_id` |
| `Diff` | `diff.dfy` | `get_unreleased_changes` as functions and as the two loops that build the result |
| `Release` | `release.dfy` | the table transformations of `push_data_live` and the per-gene counts |
| `Expert` | `expert.dfy` | the expert-override upload, its application, and the disease renames |
| `LineMerge` | `line_merge.dfy` | `update_variant` and `equals_ignore_case` |
| `Validators` | `validators.dfy` | the request validators and the prediction-label chains |
| `Cadi` | `cadi.dfy` | the record `UploadCADIData` builds from one line |
| `Variants` | `variants.dfy` | the store's operations as functions of the tables (`Tables`), with the invariant `Valid` |
| `Store` | `store.dfy` | the class `VariantStore`: the tables as fields, each PHP method as a method proved to leave the fields as the `Variants`, `Release` and `Expert` functions say |

The database's auto-increment counters are the fields `nextId` and
`nextReviewId`. The clock (`date()`), the configuration, the annotation tool
(a Ruby program run through the shell), the dbSNP HTTP response and the
uploaded files are parameters. An uploaded file is the sequence of lines
`fgets` returns.

## Model

All source paths are `application/models/variations_model.php`.

| member | source | states |
|---|---|---|
| Position.FormatHg19PositionParts | application/models/variations_model.php:56-85 | Re-splitting the output on ':' gives the following. Part 0 is the input's part 0 lower-cased when it names "chr" in any case, and otherwise the input's part 0 with "chr" prepended and its case kept; in both branches x and y are then upper-cased (`UpperXYChars` gives the mapping per character), so part 0 holds "chr" and no lower-case x or y. Part 1 and the parts after part 2 are unchanged. Part 2 is upper-cased. An empty part 2 is appended when the input had fewer than three parts. |
| Position.FormatIdempotentOnChrInput | application/models/variations_model.php:56-95 | When part 0 already names "chr" and there is a position part, formatting twice equals formatting once. |
| Position.DbnsfpForm | application/models/variations_model.php:87-92 | For every input, the dbNSFP form is the standard form with "chr" removed and upper-cased, with a tab at exactly the places of ':', '>' (or a tab) and every other character kept. It holds no ':', no '>' and no lower-case letter. |
| Position.AsWrittenNotIdempotent | application/models/variations_model.php:68-79 | As written, formatting is not idempotent. `M:1:A>G` becomes `chrM:1:A>G`, which becomes `chrm:1:A>G`. |
| Position.NormalizeIdempotent | application/models/variations_model.php:56-95 | The corrected normalizer (part 0 lower-cased in both branches, padded to three parts) is idempotent on every input. |
| Position.NormalizeAgreesOnChrInput | application/models/variations_model.php:56-95 | On input with three parts whose part 0 names "chr", the corrected normalizer returns what the original returns, in both modes. |
| Position.OnePartNotIdempotent | application/models/variations_model.php:80-84 | As written, a one-part position gains an empty part on every pass: `chr1` becomes `chr1:`, which becomes `chr1::`. |
| Position.NormalizeOnePart | application/models/variations_model.php:80-84 | The corrected normalizer pads `chr1` to all three parts, `chr1::`, in one pass. |
| Position.NormalizeMitochondrial | application/models/variations_model.php:68-79 | The corrected normalizer gives `M:1:A>G` and `chrM:1:A>G` the same form, `chrm:1:A>G`. |
| Annotation.ErrorCode | application/models/variations_model.php:195-243 | Every error code is negative. -503 means exactly "tool not configured", and -404 means exactly "no data". |
| Annotation.FlaggedIff | application/models/variations_model.php:221-231 | A marker in the error log is detected exactly when it occurs after offset 0 and not at offset 0 (truthy `strpos`). |
| Annotation.Combine | application/models/variations_model.php:246-249 | `array_combine` yields a map exactly when the header and value lists have the same length. |
| Annotation.ZipLastWins | application/models/variations_model.php:246-249 | Each header maps to the value at its last position. |
| Annotation.NullIfBlank | application/models/variations_model.php:251-256 | '.' and '' become NULL. Every other value is kept. |
| Annotation.ParseOutput | application/models/variations_model.php:246-311 | The parsed record has exactly the annotation columns. |
| Annotation.ParseOutputZip | application/models/variations_model.php:246-311 | For a header line and a value line of equal length, every annotation column holds the value under its last header, with '.' and '' as NULL. |
| Annotation.ParseOutputMismatch | application/models/variations_model.php:246-311 | When the two lines have different lengths, every annotation column is NULL. |
| Annotation.GiveCreditTo | application/models/variations_model.php:367-378 | TRUE exactly when some key containing `prefix_` has a value that is neither NULL nor ''. |
| Annotation.CreditsShape | application/models/variations_model.php:313-337 | The credits in their fixed order: ESP6500 when 'evs' is displayed and some `evs_` column has data, then 1000 Genomes for '1000genomes' and `tg_`, then OtoSCOPE for 'otoscope' and `otoscope_`, and dbNSFP 2 always, last. |
| Annotation.CommentsWithCredits | application/models/variations_model.php:339-344 | With credits, the comment is the curation note followed by "Record generated from: …". |
| Annotation.GetAnnotationData | application/models/variations_model.php:183-347 | The tool runs on `format_hg19_position`'s output as written. A success holds every annotation column and a non-NULL comments column; `ErrorPrecedence` and `AnnotationValuesNotBlank` state the error cases and the values. |
| Annotation.ErrorPrecedence | application/models/variations_model.php:195-243 | The errors come in this order: not configured (-503), unsupported mutation type (-400), no matching refseq (-501), then empty output (-404). Anything else succeeds. |
| Annotation.MarkerAtStartMissed | application/models/variations_model.php:221-225 | A marker at the very start of the error log is not reported. |
| Annotation.AnnotationValuesNotBlank | application/models/variations_model.php:251-256 | A success never stores '' or '.' in a column. |
| DbSnp.Tokens | application/models/variations_model.php:130 | `preg_split('/\s+/')` gives at least one piece, and no piece holds whitespace. |
| DbSnp.TokensOfSpaced | application/models/variations_model.php:130 | Splitting words joined by single spaces gives the words back. |
| DbSnp.Candidate | application/models/variations_model.php:135-137 | A token yields a candidate exactly when it contains `SNP_ID=`. The candidate begins with "rs". |
| DbSnp.CollectedIsCandidateSet | application/models/variations_model.php:134-142 | The scan collects every mentioned id exactly once. |
| DbSnp.DbSnpIdUnique | application/models/variations_model.php:144-150 | An id is returned exactly when one distinct id is mentioned. It is that id, trimmed, and it begins with "rs". |
| DbSnp.GetDbsnpId | application/models/variations_model.php:130-150 | The loop returns the id the scan specifies, and a returned id begins with "rs". |
| Diff.FieldChangeSpec | application/models/variations_model.php:1351-1386 | A field is listed exactly when its values differ strictly and they are not both empty (on a new variant, the queue side must be non-empty). An empty side shows `<i>None</i>`. |
| Diff.CollectChanges | application/models/variations_model.php:1351-1387 | The field loop builds exactly the changes the specification lists. |
| Diff.ComparePass | application/models/variations_model.php:1326-1390 | The first loop lists every candidate that differs from its live row or has a review. |
| Diff.ReviewPass | application/models/variations_model.php:1406-1423 | The second loop adds flagged reviews of unlisted variants that have a live row. |
| Diff.BuildUnreleased | application/models/variations_model.php:1310-1430 | The method returns the result the specification gives, or NULL when nothing is listed. |
| Diff.ChangesAreReal | application/models/variations_model.php:1353-1384 | A listed field really differs and is not empty on both sides. A new variant shows None on the live side. |
| Diff.NoChangesForEqualRows | application/models/variations_model.php:1351-1387 | Identical rows have no changes. |
| Diff.UnchangedListedOnlyByReview | application/models/variations_model.php:1336-1419 | A queue row equal to its live row is listed only through a review, and then with no changes. |
| Diff.ReviewEntriesEmpty | application/models/variations_model.php:1411-1419 | Entries added for reviews alone have no changes and are not new. |
| Diff.UnreleasedNone | application/models/variations_model.php:1425-1427 | The result is NULL exactly when no candidate differs or has a review, and no review is flagged. |
| Release.DeleteWithinUpdate | application/models/variations_model.php:838-875 | Every variant selected for deletion is also selected for update. |
| Release.WithoutReviewRows | application/models/variations_model.php:883-884 | The review deletion compares the ledger's own row ids, not the variant ids. |
| Release.Merge | application/models/variations_model.php:918 | The merge keeps the live table's ids. |
| Release.GeneCountsKeys | application/models/variations_model.php:957 | A gene is counted exactly when some live row carries it, and its count is positive. |
| Release.GenesFigureIsFlag | application/models/variations_model.php:934-948 | The `genes` figure is 0 or 1. With two genes in the table it undercounts. |
| Release.CountsWithoutGene | application/models/variations_model.php:957 | Dropping the rows of one gene drops exactly that gene from the counts. |
| Release.GeneCountsTotal | application/models/variations_model.php:954-958 | The per-gene counts add up to the number of live rows. |
| Expert.StripQuotes | application/models/variations_model.php:2509 | `str_replace('"', "")` leaves no quote and changes nothing in a quote-free string. |
| Expert.DataLines | application/models/variations_model.php:2505-2507 | The lines after the header row, among those the `fgets` loop reads. |
| Expert.ParseExpertLine | application/models/variations_model.php:2508-2520 | A parsed record carries the upload date, and its gene and disabled flag are quote-free. |
| Expert.LoadTable | application/models/variations_model.php:2506-2537 | After the upload, the table holds the old and the uploaded variations. Each uploaded variation holds its last line, and every other variation is unchanged. |
| Expert.LoadLog | application/models/variations_model.php:2521-2523 | The log keeps what it held, gains at most one record per line, and receives the pre-upload record of every replaced variation. |
| Expert.ParseQuotedLine | application/models/variations_model.php:2508-2520 | A well-formed twelve-field line is stored field for field. Disease and comments are url-encoded, and the disabled flag keeps what follows the closing quote. |
| Expert.DiseaseRoundTrip | application/models/variations_model.php:2516-2518 | Disease and comments come back from the stored record by `urldecode`. |
| Expert.DisabledKeepsLineBreak | application/models/variations_model.php:2520 | A line ending in `"TRUE"` stores the flag with its line break, which is not "TRUE". |
| Expert.TrimmedFlagDisables | application/models/variations_model.php:2520 | With the flag trimmed, the same disabled line reads as "TRUE" and its override does not schedule a deletion even when it asks for one. |
| Expert.Scheduled | application/models/variations_model.php:2558 | The scheduling update keeps the ledger's ids. |
| Expert.ApplyOverrides | application/models/variations_model.php:2557 | The joined update keeps the queue's ids. |
| Expert.DisabledStillApplied | application/models/variations_model.php:2557-2558 | A disabled override still writes its values into the queue, but does not schedule a deletion. |
| Expert.OverridesTouchOnlyCurated | application/models/variations_model.php:2557 | Only pathogenicity, disease, pubmed_id and comments change. A row without an override is unchanged. |
| Expert.ApplyOverridesIdempotent | application/models/variations_model.php:2557 | Applying the overrides twice equals applying them once. |
| Expert.ScheduledIff | application/models/variations_model.php:2558 | A review is newly scheduled exactly when its variant's enabled override asks for deletion. |
| Expert.RenameRows | application/models/variations_model.php:2409-2434 | A rename keeps the queue's ids. |
| Expert.RenameRowsSpec | application/models/variations_model.php:2409-2434 | After a rename no selected row keeps the old name, unselected rows are unchanged, and only the disease column of a selected row changes. |
| Expert.RenameAllKeepsUnselected | application/models/variations_model.php:2407-2434 | A row that no rename selects comes through unchanged. |
| Expert.RenameAllOnlyDisease | application/models/variations_model.php:2407-2434 | A sequence of renames only rewrites the disease column. |
| Expert.FormRenames | application/models/variations_model.php:2409-2419 | Form renames are at most one per listed disease, and none is limited to a gene. |
| Expert.FormRenamesListed | application/models/variations_model.php:2410-2417 | A form rename is listed exactly for a disease whose form field is truthy, with the new name url-encoded. |
| LineMerge.EqualsIgnoreCase | application/models/variations_model.php:3023-3025 | True exactly when the lengths agree and the characters agree after lower-casing. |
| LineMerge.EqualsIgnoreCaseOfCased | application/models/variations_model.php:3023-3025 | A string equals its upper- and lower-cased forms, ignoring case. |
| LineMerge.Assign | application/models/variations_model.php:3001-3003 | `$a[k] = v` sets `k` and leaves every other key. An existing key keeps its place; a new key is appended. |
| LineMerge.MergeFile | application/models/variations_model.php:2981-3021 | There is one output line per old line the loop reads. |
| LineMerge.CopyPairs | application/models/variations_model.php:3000-3004 | The pair loop applies the pairs in order. |
| LineMerge.MergeOne | application/models/variations_model.php:2996-3015 | The update-line loop for one old line returns the merged line. |
| LineMerge.UpdateVariant | application/models/variations_model.php:2981-3021 | The file loop returns the merged file. |
| LineMerge.ValuesOfExploded | application/models/variations_model.php:3009-3013 | Imploding an exploded line gives the line back. |
| LineMerge.UnmatchedLineUnchanged | application/models/variations_model.php:3009-3013 | An old line that no update line matches is written back unchanged. |
| LineMerge.NoPairsIdentity | application/models/variations_model.php:2981-3021 | With no replacement pairs, the new file equals the old one. |
| LineMerge.ApplyPairsUnwritten | application/models/variations_model.php:3000-3004 | A column no pair writes keeps its value. |
| LineMerge.ApplyPairsLastWriter | application/models/variations_model.php:3000-3004 | A written column holds the value of the last pair writing it. |
| LineMerge.SingleMatchCopies | application/models/variations_model.php:2996-3015 | A line matched by one update line carries that line's value in every written column. |
| Validators.ValidateVariantId | application/models/variations_model.php:1439-1444 | Passes exactly when some character is a digit, and fails with status 9 otherwise. |
| Validators.ValidateGeneName | application/models/variations_model.php:1724-1730 | Passes unchanged exactly when some character is A-Z, and fails with status 8 otherwise. |
| Validators.ValidateGeneLetter | application/models/variations_model.php:1739-1748 | Passes exactly when the upper-cased first character of the trimmed input is A-Z, and returns that letter. Fails with status 8 otherwise. |
| Validators.GeneLetterIdempotent | application/models/variations_model.php:1739-1748 | A returned letter passes again, unchanged. |
| Validators.GeneLetterIsGeneName | application/models/variations_model.php:1724-1748 | A returned letter is a valid gene name. |
| Validators.GeneLetterFirstChar | application/models/variations_model.php:1739-1748 | After any leading whitespace, the first character alone decides: a letter of either case is returned upper-cased, anything else (a digit) fails with the gene error, whatever follows. |
| Validators.ContainsLetterCI | application/models/variations_model.php:1854-1890 | `stristr` with a one-letter needle finds the letter in either case. |
| Validators.ClassifyFirst | application/models/variations_model.php:1854-1896 | The chain picks the first letter the prediction holds. |
| Validators.ClassifyNone | application/models/variations_model.php:1863-1866 | Without any of the letters, the label is gray "Unknown". |
| Validators.PolyPhen2DamagingWins | application/models/variations_model.php:1854-1856 | Any D makes the PolyPhen2 label Probably Damaging. |
| Validators.MutationTasterAutomaticBeforePolymorphism | application/models/variations_model.php:1881-1889 | An A without any D is "Disease Causing (Automatic)", even when an N is present. |
| Validators.MissingPredictionUnknown | application/models/variations_model.php:1854-1896 | A NULL prediction is Unknown for every tool. |
| Cadi.Pad | application/models/variations_model.php:3046-3050 | Short lines are padded with " " up to 71 fields, and the original fields are kept. |
| Cadi.PositionOf | application/models/variations_model.php:3068-3124 | The field position a column is copied from. |
| Cadi.CadiRecord | application/models/variations_model.php:3042 | A line yields a record exactly when it has a field 1 (`isset`). |
| Cadi.CadiRecordValues | application/models/variations_model.php:3068-3124 | A copied column holds its field, or " " when the line is too short to reach it. |
| Cadi.CadiVariationStored | application/models/variations_model.php:3042-3068 | The record's variation is the one `create_new_variant` receives. |
| Cadi.CadiDiseaseRoundTrip | application/models/variations_model.php:3074 | A url-encoded disease is stored decoded. |
| Cadi.ShortLinePadded | application/models/variations_model.php:3046-3050 | A two-field line stores " " as its gene. |
| Variants.ById | application/models/variations_model.php:587-611 | By default, the queue row when there is one, else the live row, else NULL. On the live table, the live row or NULL. |
| Variants.LiveLookupIgnoresQueue | application/models/variations_model.php:600-602 | A lookup in the live table never reads the queue. |
| Variants.ExistsIn | application/models/variations_model.php:716-726 | True exactly when the named table alone has the id. The queue table answers without the live fallback. |
| Variants.ByPosition | application/models/variations_model.php:633-657 | A non-empty answer or NULL. On the live table, NULL exactly when nothing matches. |
| Variants.FuzzyIsPrefix | application/models/variations_model.php:639-641 | A fuzzy search is a plain prefix search that includes the exact one. |
| Variants.ByPositionQueueFirst | application/models/variations_model.php:643-656 | The queue's matches when there are any, otherwise the live table's exact matches, otherwise NULL. |
| Variants.FallbackNotFuzzy | application/models/variations_model.php:648 | The live fallback drops the fuzzy flag, so a fuzzy-only live match is missed through the queue but found on the live table. |
| Variants.CleanValue | application/models/variations_model.php:781-786 | A value is stored trimmed, with '' (and NULL) stored as NULL. |
| Variants.UpdateInQueue | application/models/variations_model.php:774-819 | It writes exactly when the variant is staged, or when some cleaned field differs from its live value. Otherwise nothing changes. Only the queue changes, and only at this id. |
| Variants.UpdateStoresCleanValues | application/models/variations_model.php:793-807 | After a write, the staged row holds every cleaned value, and its previous value (staged or live) elsewhere. |
| Variants.UpdateTwiceIsOnce | application/models/variations_model.php:774-819 | Repeating an edit leaves the tables as after the first. |
| Variants.BlankEditOfNullRowStagesNothing | application/models/variations_model.php:799-805 | An edit of blanks over NULL live columns stages nothing. |
| Variants.UpdateInQueueValid | application/models/variations_model.php:774-819 | Staging keeps the table invariant. |
| Variants.Upsert | application/models/variations_model.php:1231-1263 | Only this variant's review changes. The other tables and the variant counter are kept. |
| Variants.UpsertSpec | application/models/variations_model.php:1231-1263 | The review carries the update time and the given columns. An existing review keeps its id, creation time and every column not given. A new review gets a fresh id and the creation time. The invariant is kept. |
| Variants.UpsertIdempotent | application/models/variations_model.php:1231-1263 | The same upsert twice at the same time equals doing it once. |
| Variants.DropPlaceholder | application/models/variations_model.php:487 | The live row is deleted only when both variation and hgvs_nucleotide_change are NULL. |
| Variants.RemoveAll | application/models/variations_model.php:473-495 | The queue row and the review are gone. A published live row is kept, a placeholder is removed, and the invariant is kept. |
| Variants.RemoveIfUnchanged | application/models/variations_model.php:507-523 | When the unreleased changes are empty, the queue row (and a placeholder live row) is removed. The review always stays. Otherwise nothing changes. |
| Variants.RemoveIfUnchangedKeepsEdits | application/models/variations_model.php:507-523 | A staged row with a listed field change stays staged. |
| Variants.RemoveIfUnchangedDropsCopies | application/models/variations_model.php:507-523 | A staged row equal to its live row is dropped, whatever its review says. |
| Variants.AnnotationFor | application/models/variations_model.php:418-436 | The record the code evidently intends, which the source does not use: the CADI record when given, else the manual record in manual mode, else the tool's result. It is the corrected half of the manual-mode finding; the store uses `AnnotationAsWritten`. |
| Variants.ManualModeStillAnnotates | application/models/variations_model.php:418-436 | As written, a manual insert without a configured tool fails with -503. The corrected record succeeds. |
| Variants.Reserve | application/models/variations_model.php:439-443 | The next id gets an all-NULL live row, and the counter moves on. |
| Variants.CreateValid | application/models/variations_model.php:401-460 | Creating a variant keeps the invariant. |
| Variants.CreateRefused | application/models/variations_model.php:408-436 | -409 exactly for a known variation outside manual mode. A negative code exactly for that or an annotation error, and then every table is unchanged. |
| Variants.CreateSucceeds | application/models/variations_model.php:401-460 | An admitted variation gets the next id, a NULL live row and a new review, and both counters move on. A queue row exists exactly when the record has a non-blank value, and it holds the cleaned record over NULLs. |
| Variants.CreateStaging | application/models/variations_model.php:446-453 | The staging step writes a queue row exactly when the record has a value. |
| Variants.StagedDiffers | application/models/variations_model.php:802-805 | The staged record differs from the placeholder exactly when one of its values is not NULL. |
| Variants.ManualCreateStagesVariation | application/models/variations_model.php:418-425 | With the corrected record (`AnnotationFor`), a manual insert stages the given variation even when the tool is not configured. |
| Variants.RemoveAllUndoesCreate | application/models/variations_model.php:401-495 | Removing all changes of a variant just created restores every table, apart from the counters. |
| Variants.PushSpec | application/models/variations_model.php:821-958 | With no selected review, nothing changes. Otherwise the queue and the ledger are empty, the deleted ids are gone, and every other live row holds its queue row when it has one. The invariant is kept. |
| Variants.PushLoggedSpec | application/models/variations_model.php:880-881 | The log receives each deleted variant's live row once. |
| Variants.DeletionEmptiesLedger | application/models/variations_model.php:883-928 | Whenever a variant is deleted, the whole ledger is emptied, which masks the deletion by review id. |
| Variants.ApplyExpertValid | application/models/variations_model.php:2557-2558 | Applying the overrides keeps the invariant. |
| Variants.RenameValid | application/models/variations_model.php:2409-2434 | A rename keeps the invariant. |
| Store.CreateKeepsLive | application/models/variations_model.php:401-460 | Creating a variant never changes or drops an existing live row. |
| Store.CadiFoldKeepsLive | application/models/variations_model.php:3031-3191 | A CADI import keeps the invariant and every existing live row. |
| Store.CadiLineTwice | application/models/variations_model.php:3191 | Importing the same line twice creates one variant. The second call returns -409. |
| Store.VariantStore.constructor | application/models/variations_model.php:11-16 | The model's starting state, an empty database (the PHP constructor itself only loads the table names from configuration): every table and log empty, and both auto-increment counters at 1. |
| Store.VariantStore.CopyVariantIntoQueue | application/models/variations_model.php:755-759 | The live row is inserted into the queue under its id. Nothing else changes. |
| Store.VariantStore.CleanData | application/models/variations_model.php:778-788 | The key loop builds exactly the cleaned data. |
| Store.VariantStore.UpdateVariantInQueue | application/models/variations_model.php:774-819 | The recursive copy-then-update leaves the tables, and returns the flag, as `UpdateInQueue` specifies. |
| Store.VariantStore.StageFromLive | application/models/variations_model.php:806-807 | A variant not yet staged gets its live row, overlaid with the cleaned data, as its queue row. The other tables do not change. |
| Store.VariantStore.UpdateVariantReviewInfo | application/models/variations_model.php:1231-1263 | The ledger becomes the `Upsert` of the old one. |
| Store.VariantStore.CreateNewVariant | application/models/variations_model.php:401-460 | Returns the code, and leaves the tables, as `Create` specifies over the record as written: the CADI record when given, otherwise the annotation tool's result, in manual mode too. |
| Store.VariantStore.InsertVariant | application/models/variations_model.php:439-457 | Returns the next id. The live table gains an all-NULL row under it, the queue gains the all-NULL row overlaid with the annotation record, and the ledger gains a fresh review. The invariant holds afterwards. |
| Store.VariantStore.RemoveAllChanges | application/models/variations_model.php:473-495 | Leaves the tables as `RemoveAll` specifies. |
| Store.VariantStore.UnreleasedChanges | application/models/variations_model.php:1310-1430 | Returns `get_unreleased_changes` for one variant or for the whole queue. |
| Store.VariantStore.HasNoChanges | application/models/variations_model.php:513-514 | True exactly when the variant's unreleased changes are absent or list no field. |
| Store.VariantStore.RemoveFromQueueIfUnchanged | application/models/variations_model.php:507-523 | Leaves the tables as `RemoveIfUnchanged` specifies. |
| Store.VariantStore.DeleteSelected | application/models/variations_model.php:878-891 | Logs the selected live rows, then deletes them from the ledger (by review id), the queue and the live table. |
| Store.VariantStore.ReleaseTables | application/models/variations_model.php:834-930 | Leaves the tables, and the log, as `Push` and `PushLogged` specify. |
| Store.VariantStore.PushDataLive | application/models/variations_model.php:821-965 | Releases as `Push` specifies, appends the logged rows, appends a versions row (configured version, live size, genes flag) and sets the per-gene counts of the new live table. |
| Store.VariantStore.LoadExpertCurations | application/models/variations_model.php:2491-2548 | Leaves the expert table and its log as the `Load` fold specifies, and returns the table size. |
| Store.VariantStore.ApplyExpertCurations | application/models/variations_model.php:2550-2568 | Schedules the reviews first, then writes the overrides into the queue. |
| Store.VariantStore.UpdateDiseaseNames | application/models/variations_model.php:2407-2434 | Runs the mode's renames in order over the queue. |
| Store.VariantStore.UploadCadiData | application/models/variations_model.php:3027-3196 | Every line with a variation is created from its record, as `CadiFold` specifies. |

## Left out

- Shell, HTTP and file I/O are parameters and are not modelled: the annotation tool run, its temporary files, the dbSNP curl request, `remove_temp_files`, `remove_variantCADI_files` and `run_annotation_pipeline`.
- `activity_log`, the `ion_auth` user names, `ini_set` and `set_time_limit` are not modelled. They have no effect on the tables.
- `die` on a failed query is not modelled. Every query is taken to succeed, and there is no transaction.
- MySQL comparisons are exact equality. The collation's case-insensitive comparison and `LIKE`, and PHP's loose numeric-string `==`, are not modelled.
- SQL built by string concatenation is taken to run as intended. Quoting and injection are not modelled.
- The `id` column is the table key and is kept outside the row map. Writing it (`$queue_data['id']`, `UPDATE … SET A.id = B.id`) is a no-op.
- Every table has one fixed column set (`Schema.Columns`). `list_fields` and `information_schema` are not consulted.
- Review defaults on insert (`confirmed_for_release`, `scheduled_for_deletion` and `informatics_comments` as 0, 0 and NULL) are assumed from the table definition, which is not part of this model.
- Variants.UpdateInQueue: requires a live or queue row, or an edit that cleans to nothing. Without one, the source copies a NULL variant and recurses without end.
- Store.VariantStore.CopyVariantIntoQueue: requires a live row and no queue row. Otherwise the source's insert fails on the key.
- Store.VariantStore.ApplyExpertCurations: does not return the "Working on it" string.
- Store.VariantStore.UpdateDiseaseNames: does not return the last query result.
- Store.VariantStore.UploadCadiData: does not return anything. The `\N` scrub loop is left out because it changes nothing. The line array is padded with " " only up to field 70, as in the source.
- `get_variant_review_info`, `get_variants_by_gene`, `get_all_variants` and the other plain table reads are not separate members. The lookups above read the maps directly.
- Diff.ComparePass: a candidate without a live row is not listed. Under the store's invariant every staged variant has one, so this case does not arise.
- Variants.CreateSucceeds: requires that the new id has no review yet. Under the auto-increment counters this always holds, but the invariant does not state it.
- Variants.ManualCreateStagesVariation: requires a variation without leading or trailing whitespace, since `trim` would otherwise change the stored value.
- Store.CadiLineTwice: requires a variation without leading or trailing whitespace and a new id with no review yet, for the same reasons.
- `update_variant`'s returned array of replacement results is not modelled. The merged lines are.
- The version number is a constant of the store. `push_data_live` does not increment it.
- Expert.LoadTable: the expert-curation table is taken to be keyed by variation, so `REPLACE INTO` replaces the row of the same variation. The table definition is not part of this model.
- The reports, HTML builders, float-threshold display logic, Excel export and `OLD_*` functions are not part of this model.

## Findings

| source | as written | input that shows it | evidently intended | confidence | as-written member | corrected member |
|---|---|---|---|---|---|---|
| application/models/variations_model.php:68-79 | Part 0 is lower-cased only when it already contains "chr", so a chromosome given without "chr" keeps its case and a second pass lower-cases it. The normalizer is not idempotent. | `M:1:A>G` formats to `chrM:1:A>G`, which formats to `chrm:1:A>G` | Part 0 lower-cased in both branches (and, see the next row, the parts padded to three), so every position has one canonical form and normalizing is idempotent | medium, not executed | Position.AsWrittenNotIdempotent | Position.NormalizeIdempotent |
| application/models/variations_model.php:80-84 | A position with fewer than three parts gains one empty part from the write to `$parts[2]`, and a second pass adds another. The normalizer is not idempotent on such input. | `chr1` formats to `chr1:`, which formats to `chr1::` | The parts padded to the three that line 84 joins, in one pass, so a second pass changes nothing | medium, not executed | Position.OnePartNotIdempotent | Position.NormalizeIdempotent |
| application/models/variations_model.php:418-436 | The `else` at line 429 pairs with the CADI test, so annotation runs in manual mode and overwrites the manual record. A manual insert fails whenever the tool is not configured or has no data. | `create_new_variant(v, TRUE)` with the tool not configured returns -503 | Manual mode bypasses annotation, as its parameter documentation says, and stages the manual record | high, not executed | Variants.ManualModeStillAnnotates | Variants.ManualCreateStagesVariation |
| application/models/variations_model.php:2506-2520 | `fgets` keeps the line break and the flag is the last field, so a disabled override is stored as "TRUE" plus a line break. The filter `disabled_curation != 'TRUE'` at line 2558 then never excludes it, and a disabled override with `delete_on_release` "TRUE" still schedules its variant for deletion. | an override line ending `,"TRUE","TRUE"` and a line break | The flag compared without its line break, so a disabled override schedules nothing | medium, not executed | Expert.DisabledKeepsLineBreak | Expert.TrimmedFlagDisables |
