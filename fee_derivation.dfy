/** Fee derivation: reading the base-fee hint of an outcome and deciding whether
    the failed checks are a fee-cap problem of the message being sent. */
module FeeDerivation {

  import opened Wrappers
  import opened Decimal
  import opened Checks

  /** Best-effort base fee from a hint map: zero when the `baseFee` key is missing,
      holds a non-string, or holds text that is not a base-10 integer. Never fails. */
  function BaseFeeFromHints(hint: map<string, HintValue>): (fee: int)
    ensures "baseFee" !in hint ==> fee == 0
    ensures "baseFee" in hint && !hint["baseFee"].HintString? ==> fee == 0
    ensures "baseFee" in hint && hint["baseFee"].HintString? ==>
      fee == match ParseInt(hint["baseFee"].text) case Some(v) => v case None => 0
    ensures fee != 0 ==> "baseFee" in hint && hint["baseFee"].HintString?
                         && IsIntegerLiteral(hint["baseFee"].text)
  {
    if "baseFee" !in hint then 0
    else match hint["baseFee"]
      case NonString => 0
      case HintString(text) =>
        match ParseInt(text)
        case None => 0
        case Some(v) => v
  }

  /** A hint holding the rendered value of an amount yields that amount. */
  lemma BaseFeeFromRenderedHint(hint: map<string, HintValue>, v: int)
    requires "baseFee" in hint && hint["baseFee"] == HintString(FormatInt(v))
    ensures BaseFeeFromHints(hint) == v
  {
    ParseFormatInt(v);
  }

  /** A failed outcome about the message itself whose kind the fee editor can fix. */
  predicate Solvable(c: CheckStatus, protoCid: Cid) {
    !c.ok && c.cid == protoCid && c.code in InteractiveSolves
  }

  predicate AnySolvable(checks: seq<CheckStatus>, protoCid: Cid) {
    exists c :: c in checks && Solvable(c, protoCid)
  }

  lemma AnySolvableSnoc(checks: seq<CheckStatus>, c: CheckStatus, protoCid: Cid)
    ensures AnySolvable(checks + [c], protoCid) <==> AnySolvable(checks, protoCid) || Solvable(c, protoCid)
  {
    assert c in checks + [c];
    assert forall x :: x in checks + [c] <==> x in checks || x == c;
  }

  function HintedFee(c: CheckStatus): int {
    BaseFeeFromHints(c.hint)
  }

  /** The base fee of the first solvable outcome, in order, whose hint yields a
      non-zero value; zero when there is none. */
  function CapturedBaseFee(checks: seq<CheckStatus>, protoCid: Cid): int {
    if |checks| == 0 then 0
    else if Solvable(checks[0], protoCid) && HintedFee(checks[0]) != 0 then HintedFee(checks[0])
    else CapturedBaseFee(checks[1..], protoCid)
  }

  /** Scanning one more outcome: a captured non-zero fee is kept, otherwise a
      solvable outcome's hint replaces the zero. */
  lemma {:induction false} CapturedBaseFeeSnoc(checks: seq<CheckStatus>, c: CheckStatus, protoCid: Cid)
    ensures CapturedBaseFee(checks + [c], protoCid) ==
      if CapturedBaseFee(checks, protoCid) != 0 then CapturedBaseFee(checks, protoCid)
      else if Solvable(c, protoCid) then HintedFee(c)
      else 0
  {
    if |checks| == 0 {
      assert [c][1..] == [];
    } else {
      assert (checks + [c])[1..] == checks[1..] + [c];
      CapturedBaseFeeSnoc(checks[1..], c, protoCid);
    }
  }

  /** The captured fee is exactly the first non-zero hint among solvable outcomes. */
  lemma {:induction false} CapturedBaseFeeIsFirstNonZero(checks: seq<CheckStatus>, protoCid: Cid)
    ensures CapturedBaseFee(checks, protoCid) == 0 <==>
      forall k :: 0 <= k < |checks| && Solvable(checks[k], protoCid) ==> HintedFee(checks[k]) == 0
    ensures CapturedBaseFee(checks, protoCid) != 0 ==>
      exists k :: 0 <= k < |checks| && Solvable(checks[k], protoCid)
        && HintedFee(checks[k]) == CapturedBaseFee(checks, protoCid)
        && forall j :: 0 <= j < k && Solvable(checks[j], protoCid) ==> HintedFee(checks[j]) == 0
  {
    if |checks| > 0 {
      var rest := checks[1..];
      CapturedBaseFeeIsFirstNonZero(rest, protoCid);
      assert forall k :: 1 <= k < |checks| ==> checks[k] == rest[k - 1];
      if !(Solvable(checks[0], protoCid) && HintedFee(checks[0]) != 0) && CapturedBaseFee(rest, protoCid) != 0 {
        var k :| 0 <= k < |rest| && Solvable(rest[k], protoCid)
          && HintedFee(rest[k]) == CapturedBaseFee(rest, protoCid)
          && forall j :: 0 <= j < k && Solvable(rest[j], protoCid) ==> HintedFee(rest[j]) == 0;
        assert checks[k + 1] == rest[k];
      }
    }
  }

  /** When no outcome is solvable there is no fee-cap problem and the fee is zero. */
  lemma {:induction false} NoSolvableNoBaseFee(checks: seq<CheckStatus>, protoCid: Cid)
    requires !AnySolvable(checks, protoCid)
    ensures CapturedBaseFee(checks, protoCid) == 0
  {
    if |checks| > 0 {
      assert checks[0] in checks;
      assert forall c :: c in checks[1..] ==> c in checks;
      NoSolvableNoBaseFee(checks[1..], protoCid);
    }
  }

  /** An outcome that is not solvable (passed, about another message, or of another
      kind) changes neither result, wherever it stands. */
  lemma {:induction false} UnsolvableIsIgnored(before: seq<CheckStatus>, c: CheckStatus,
                                               after: seq<CheckStatus>, protoCid: Cid)
    requires !Solvable(c, protoCid)
    ensures CapturedBaseFee(before + [c] + after, protoCid) == CapturedBaseFee(before + after, protoCid)
    ensures AnySolvable(before + [c] + after, protoCid) == AnySolvable(before + after, protoCid)
  {
    if |before| == 0 {
      assert before + [c] + after == [c] + after && before + after == after;
      assert ([c] + after)[1..] == after;
    } else {
      assert (before + [c] + after)[1..] == before[1..] + [c] + after;
      assert (before + after)[1..] == before[1..] + after;
      UnsolvableIsIgnored(before[1..], c, after, protoCid);
    }
    assert forall x :: x in before + [c] + after <==> x in before + after || x == c;
  }

  /** `isFeeCapProblem`: whether some failed outcome about the message is one the
      fee editor can fix, and the base fee hinted by the first such outcome whose
      hint is non-zero, scanning groups in order and checks within each group. */
  method IsFeeCapProblem(checkGroups: CheckGroups, protoCid: Cid) returns (yes: bool, baseFee: int)
    ensures yes <==> AnySolvable(Flatten(checkGroups), protoCid)
    ensures baseFee == CapturedBaseFee(Flatten(checkGroups), protoCid)
    ensures !yes ==> baseFee == 0
  {
    baseFee := 0;
    yes := false;
    var g := 0;
    while g < |checkGroups|
      invariant 0 <= g <= |checkGroups|
      invariant yes <==> AnySolvable(Flatten(checkGroups[..g]), protoCid)
      invariant baseFee == CapturedBaseFee(Flatten(checkGroups[..g]), protoCid)
    {
      var checks := checkGroups[g];
      ghost var done := Flatten(checkGroups[..g]);
      var i := 0;
      assert done + checks[..0] == done;
      while i < |checks|
        invariant 0 <= i <= |checks|
        invariant yes <==> AnySolvable(done + checks[..i], protoCid)
        invariant baseFee == CapturedBaseFee(done + checks[..i], protoCid)
      {
        var c := checks[i];
        assert done + checks[..i + 1] == (done + checks[..i]) + [c];
        CapturedBaseFeeSnoc(done + checks[..i], c, protoCid);
        AnySolvableSnoc(done + checks[..i], c, protoCid);
        if !c.ok {
          var aboutProto := c.cid == protoCid;
          if aboutProto && c.code in InteractiveSolves {
            yes := true;
            if baseFee == 0 {
              baseFee := BaseFeeFromHints(c.hint);
            }
          }
        }
        i := i + 1;
      }
      assert checks[..|checks|] == checks;
      FlattenSnoc(checkGroups, g);
      g := g + 1;
    }
    assert checkGroups[..|checkGroups|] == checkGroups;
    if !yes {
      NoSolvableNoBaseFee(Flatten(checkGroups), protoCid);
    }
  }
}
