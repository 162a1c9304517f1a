/**
  The axis descriptor's form validation of the label string. The value is
  split on single spaces (not on the commas the resolver uses), each piece is
  trimmed and checked, and the first check that is not ok is the answer.
  Checking a non-blank piece asks the label registry, which is an input here.
 */
module ElasticAxisDescriptor {
  import opened JavaStrings

  /** `FormValidation`: ok, or a warning or error carrying its message. */
  datatype FormValidation = Ok | Warning(message: string) | Error(message: string)

  /** The registry-dependent part of `checkOneLabel`, for a non-blank label. */
  type LabelCheck = string -> FormValidation

  /** `checkOneLabel`: a blank (empty after trimming) piece is ok without
      asking the registry; any other piece is whatever the registry check says. */
  function CheckOneLabel(oneLabel: string, lookup: LabelCheck): FormValidation {
    if oneLabel == [] then Ok else lookup(oneLabel)
  }

  /** The result of checking the pieces left to right and stopping at the
      first one that is not ok. */
  function FirstFailure(labels: seq<string>, lookup: LabelCheck): FormValidation
    decreases |labels|
  {
    if labels == [] then Ok
    else
      var validation := CheckOneLabel(Trim(labels[0]), lookup);
      if !validation.Ok? then validation else FirstFailure(labels[1..], lookup)
  }

  /** The space-separated pieces of a value, untrimmed. */
  function ValuePieces(value: string): seq<string> {
    Split(value, ' ')
  }

  /** `doCheckLabelString`: a loop over the pieces that returns the first
      result that is not ok, and ok when there is none. */
  method DoCheckLabelString(value: string, lookup: LabelCheck) returns (v: FormValidation)
    ensures v == FirstFailure(ValuePieces(value), lookup)
  {
    var labels := Split(value, ' ');
    for i := 0 to |labels|
      invariant FirstFailure(labels[i..], lookup) == FirstFailure(labels, lookup)
    {
      assert labels[i..][1..] == labels[i + 1..];
      var validation := CheckOneLabel(Trim(labels[i]), lookup);
      if !validation.Ok? {
        return validation;
      }
    }
    return Ok;
  }

  /** Ok exactly when every trimmed piece checks ok. */
  lemma {:induction false} FirstFailureOkIff(labels: seq<string>, lookup: LabelCheck)
    ensures FirstFailure(labels, lookup).Ok? <==>
            forall i :: 0 <= i < |labels| ==> CheckOneLabel(Trim(labels[i]), lookup).Ok?
    decreases |labels|
  {
    if labels != [] {
      FirstFailureOkIff(labels[1..], lookup);
      assert forall i :: 1 <= i < |labels| ==> labels[i] == labels[1..][i - 1];
    }
  }

  /** When not ok, the result is the check of some piece, and every piece
      before it checks ok. */
  lemma {:induction false} FirstFailureIsFirst(labels: seq<string>, lookup: LabelCheck)
    requires !FirstFailure(labels, lookup).Ok?
    ensures exists i :: 0 <= i < |labels|
                        && FirstFailure(labels, lookup) == CheckOneLabel(Trim(labels[i]), lookup)
                        && forall j :: 0 <= j < i ==> CheckOneLabel(Trim(labels[j]), lookup).Ok?
    decreases |labels|
  {
    if CheckOneLabel(Trim(labels[0]), lookup).Ok? {
      FirstFailureIsFirst(labels[1..], lookup);
      var i :| 0 <= i < |labels[1..]|
               && FirstFailure(labels[1..], lookup) == CheckOneLabel(Trim(labels[1..][i]), lookup)
               && forall j :: 0 <= j < i ==> CheckOneLabel(Trim(labels[1..][j]), lookup).Ok?;
      assert labels[1..][i] == labels[i + 1];
      assert forall j :: 1 <= j < i + 1 ==> labels[j] == labels[1..][j - 1];
    } else {
      assert FirstFailure(labels, lookup) == CheckOneLabel(Trim(labels[0]), lookup);
    }
  }

  /** Pieces after the first failing one do not affect the result, and pieces
      that all check ok can be skipped. */
  lemma {:induction false} FirstFailureAppend(a: seq<string>, b: seq<string>, lookup: LabelCheck)
    ensures !FirstFailure(a, lookup).Ok? ==> FirstFailure(a + b, lookup) == FirstFailure(a, lookup)
    ensures FirstFailure(a, lookup).Ok? ==> FirstFailure(a + b, lookup) == FirstFailure(b, lookup)
    decreases |a|
  {
    if a == [] {
      assert a + b == b;
    } else {
      assert (a + b)[0] == a[0];
      assert (a + b)[1..] == a[1..] + b;
      FirstFailureAppend(a[1..], b, lookup);
    }
  }

  /** A value made only of whitespace is ok whatever the registry says: each
      of its pieces is blank once trimmed. */
  lemma BlankValueOk(value: string, lookup: LabelCheck)
    requires forall k :: 0 <= k < |value| ==> IsTrimmable(value[k])
    ensures FirstFailure(ValuePieces(value), lookup) == Ok
  {
    var labels := ValuePieces(value);
    forall i | 0 <= i < |labels|
      ensures CheckOneLabel(Trim(labels[i]), lookup).Ok?
    {
      SplitCharsFromInput(value, ' ', i);
      TrimBlank(labels[i]);
    }
    FirstFailureOkIff(labels, lookup);
  }

  /** The two splits differ: a comma separates terms for the resolver but
      never pieces for the validation, and a space does the opposite. */
  lemma SeparatorAsymmetry(s: string)
    ensures ' ' !in s ==> ValuePieces(s) == [s]
    ensures ',' !in s ==> Split(s, ',') == [s]
    ensures Split("a,b", ',') == ["a", "b"] && Split("a,b", ' ') == ["a,b"]
    ensures Split("a b", ' ') == ["a", "b"] && Split("a b", ',') == ["a b"]
  {
    assert "a,b"[1..] == ",b" && ",b"[1..] == "b";
    assert "a b"[1..] == " b" && " b"[1..] == "b";
    LonePiece("b", ',');
    LonePiece("b", ' ');
    assert JavaStrings.Pieces(",b", ',') == ["", "b"];
    assert JavaStrings.Pieces(" b", ' ') == ["", "b"];
    assert "a" + "" == "a";
    assert JavaStrings.Pieces("a,b", ',') == ["a", "b"];
    assert JavaStrings.Pieces("a b", ' ') == ["a", "b"];
    assert ',' !in "a b" && ' ' !in "a,b";
    assert "a,b"[1] == ',' && "a b"[1] == ' ';
  }
}
