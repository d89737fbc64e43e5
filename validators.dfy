/**
 * The request validators (a failing check ends the request with an exit code)
 * and the prediction labels the variant page shows for PolyPhen2, LRT and
 * MutationTaster.
 */
module Validators {
  import opened Wrappers
  import opened PhpStrings

  predicate IsDigit(c: char) {
    '0' <= c <= '9'
  }

  predicate IsUpperLetter(c: char) {
    'A' <= c <= 'Z'
  }

  /** preg_match('/[0-9]+/', s): some character is a digit. */
  function HasDigit(s: string): (r: bool)
    ensures r <==> exists i :: 0 <= i < |s| && IsDigit(s[i])
    decreases |s|
  {
    if |s| == 0 then false
    else
      assert forall i :: 1 <= i < |s| ==> s[i] == s[1..][i - 1];
      IsDigit(s[0]) || HasDigit(s[1..])
  }

  /** preg_match('/[A-Z]{1}/', s): some character is an upper-case ASCII letter. */
  function HasUpperLetter(s: string): (r: bool)
    ensures r <==> exists i :: 0 <= i < |s| && IsUpperLetter(s[i])
    decreases |s|
  {
    if |s| == 0 then false
    else
      assert forall i :: 1 <= i < |s| ==> s[i] == s[1..][i - 1];
      IsUpperLetter(s[0]) || HasUpperLetter(s[1..])
  }

  /** The exit status a failed check ends the request with. */
  const BadVariantId: nat := 9
  const BadGene: nat := 8

  /** _validate_variant_id: the id passes when it holds a digit anywhere. */
  function ValidateVariantId(id: string): (r: Result<(), nat>)
    ensures r.Success? <==> exists i :: 0 <= i < |id| && IsDigit(id[i])
    ensures r.Failure? ==> r.error == BadVariantId
  {
    if HasDigit(id) then Success(()) else Failure(BadVariantId)
  }

  /** validate_gene_name: the name passes unchanged when it holds an upper-case letter anywhere. */
  function ValidateGeneName(name: string): (r: Result<string, nat>)
    ensures r.Success? <==> exists i :: 0 <= i < |name| && IsUpperLetter(name[i])
    ensures r.Success? ==> r.value == name
    ensures r.Failure? ==> r.error == BadGene
  {
    if HasUpperLetter(name) then Success(name) else Failure(BadGene)
  }

  /** validate_gene_letter: the first character of the trimmed input, upper-cased, must be A-Z. */
  function ValidateGeneLetter(letter: string): (r: Result<string, nat>)
    ensures r.Success? <==> |Trim(letter)| > 0 && IsUpperLetter(UpperChar(Trim(letter)[0]))
    ensures r.Success? ==> r.value == [UpperChar(Trim(letter)[0])]
    ensures r.Failure? ==> r.error == BadGene
  {
    var t := Trim(letter);
    var first := Upper(if |t| == 0 then "" else t[..1]);
    if HasUpperLetter(first) then Success(first) else Failure(BadGene)
  }

  /** A letter the validator returns passes the validator again, unchanged. */
  lemma GeneLetterIdempotent(letter: string)
    requires ValidateGeneLetter(letter).Success?
    ensures ValidateGeneLetter(ValidateGeneLetter(letter).value) == ValidateGeneLetter(letter)
  {
    var v := ValidateGeneLetter(letter).value;
    assert !IsTrimChar(v[0]);
    assert TrimLeft(v) == v;
    assert TrimRight(v) == v;
  }

  /** The letter a gene-letter request yields is itself a valid gene name. */
  lemma GeneLetterIsGeneName(letter: string)
    requires ValidateGeneLetter(letter).Success?
    ensures ValidateGeneName(ValidateGeneLetter(letter).value) == ValidateGeneLetter(letter)
  {
    assert IsUpperLetter(ValidateGeneLetter(letter).value[0]);
  }

  /**
   * Only the first character after the leading whitespace decides: a letter of
   * either case is accepted as its upper-case form, anything else (a digit, say)
   * is refused, whatever follows it.
   */
  lemma {:induction false} GeneLetterFirstChar(pad: string, c: char, rest: string)
    requires forall i :: 0 <= i < |pad| ==> IsTrimChar(pad[i])
    requires !IsTrimChar(c)
    ensures ValidateGeneLetter(pad + [c] + rest)
      == if IsUpperLetter(UpperChar(c)) then Success([UpperChar(c)]) else Failure(BadGene)
  {
    var t := [c] + rest;
    assert pad + [c] + rest == pad + t;
    TrimLeftPad(pad, t);
    TrimRightKeepsFirst(t);
  }

  lemma {:induction false} TrimLeftPad(pad: string, t: string)
    requires forall i :: 0 <= i < |pad| ==> IsTrimChar(pad[i])
    requires |t| > 0 && !IsTrimChar(t[0])
    ensures TrimLeft(pad + t) == t
    decreases |pad|
  {
    if |pad| > 0 {
      assert (pad + t)[1..] == pad[1..] + t;
      TrimLeftPad(pad[1..], t);
    } else {
      assert pad + t == t;
    }
  }

  lemma {:induction false} TrimRightKeepsFirst(t: string)
    requires |t| > 0 && !IsTrimChar(t[0])
    ensures |TrimRight(t)| > 0 && TrimRight(t)[0] == t[0]
    decreases |t|
  {
    if |t| > 1 && IsTrimChar(t[|t| - 1]) {
      TrimRightKeepsFirst(t[..|t| - 1]);
    }
  }

  // ---------------------------------------------------------------------------
  // Prediction labels

  /** The CSS class and the description shown for a prediction. */
  datatype Label = Label(cls: string, desc: string)

  const Unknown: Label := Label("gray", "Unknown")

  /**
   * An if/elseif chain over stristr: the label of the first letter of the chain
   * the prediction holds in either case; NULL reads as "".
   */
  function Classify(pred: Option<string>, chain: seq<(char, Label)>): Label
    decreases |chain|
  {
    if |chain| == 0 then Unknown
    else if ContainsCI(Str(pred), [chain[0].0]) then chain[0].1
    else Classify(pred, chain[1..])
  }

  const PolyPhen2Chain: seq<(char, Label)> := [
    ('D', Label("red", "Probably Damaging")),
    ('P', Label("orange", "Possibly Damaging")),
    ('B', Label("green", "Benign"))]

  const LrtChain: seq<(char, Label)> := [
    ('D', Label("red", "Deleterious")),
    ('N', Label("green", "Neutral"))]

  const MutationTasterChain: seq<(char, Label)> := [
    ('D', Label("red", "Disease Causing")),
    ('A', Label("red", "Disease Causing (Automatic)")),
    ('N', Label("green", "Polymorphism")),
    ('P', Label("green", "Polymorphism (Automatic)"))]

  function PolyPhen2Label(pred: Option<string>): Label {
    Classify(pred, PolyPhen2Chain)
  }

  function LrtLabel(pred: Option<string>): Label {
    Classify(pred, LrtChain)
  }

  function MutationTasterLabel(pred: Option<string>): Label {
    Classify(pred, MutationTasterChain)
  }

  /** The prediction holds letter `c` in either case. */
  predicate HoldsLetter(s: string, c: char) {
    exists i :: 0 <= i < |s| && LowerChar(s[i]) == LowerChar(c)
  }

  /** stristr with a one-letter needle finds the letter in either case. */
  lemma ContainsLetterCI(s: string, c: char)
    ensures ContainsCI(s, [c]) <==> HoldsLetter(s, c)
  {
    var ls := Lower(s);
    var lc := Lower([c]);
    assert lc == [LowerChar(c)];
    if HoldsLetter(s, c) {
      var i :| 0 <= i < |s| && LowerChar(s[i]) == LowerChar(c);
      assert ls[i..i + 1] == lc;
      assert OccursAt(ls, lc, i);
    }
    if ContainsCI(s, [c]) {
      var i := IndexOf(ls, lc).value;
      assert ls[i..i + 1] == lc;
      assert ls[i] == LowerChar(s[i]);
    }
  }

  /** The chain picks the first of its letters the prediction holds, and Unknown when it holds none. */
  lemma {:induction false} ClassifyFirst(pred: Option<string>, chain: seq<(char, Label)>, i: int)
    requires 0 <= i < |chain| && HoldsLetter(Str(pred), chain[i].0)
    requires forall j :: 0 <= j < i ==> !HoldsLetter(Str(pred), chain[j].0)
    ensures Classify(pred, chain) == chain[i].1
    decreases i
  {
    ContainsLetterCI(Str(pred), chain[0].0);
    if i > 0 {
      ClassifyFirst(pred, chain[1..], i - 1);
    }
  }

  lemma {:induction false} ClassifyNone(pred: Option<string>, chain: seq<(char, Label)>)
    requires forall j :: 0 <= j < |chain| ==> !HoldsLetter(Str(pred), chain[j].0)
    ensures Classify(pred, chain) == Unknown
    decreases |chain|
  {
    if |chain| > 0 {
      ContainsLetterCI(Str(pred), chain[0].0);
      ClassifyNone(pred, chain[1..]);
    }
  }

  /**
   * A PolyPhen2 prediction listing several transcripts is labelled by its most
   * severe letter wherever it occurs: any D is Probably Damaging.
   */
  lemma PolyPhen2DamagingWins(pred: string)
    requires HoldsLetter(pred, 'D')
    ensures PolyPhen2Label(Some(pred)) == Label("red", "Probably Damaging")
  {
    ClassifyFirst(Some(pred), PolyPhen2Chain, 0);
  }

  /** A MutationTaster prediction with both A and N and no D is labelled automatic disease causing. */
  lemma MutationTasterAutomaticBeforePolymorphism(pred: string)
    requires !HoldsLetter(pred, 'D') && HoldsLetter(pred, 'A')
    ensures MutationTasterLabel(Some(pred)) == Label("red", "Disease Causing (Automatic)")
  {
    ClassifyFirst(Some(pred), MutationTasterChain, 1);
  }

  /** A missing prediction is Unknown for every tool. */
  lemma MissingPredictionUnknown()
    ensures PolyPhen2Label(None) == Unknown && LrtLabel(None) == Unknown && MutationTasterLabel(None) == Unknown
  {
    ClassifyNone(None, PolyPhen2Chain);
    ClassifyNone(None, LrtChain);
    ClassifyNone(None, MutationTasterChain);
  }
}
