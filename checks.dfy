/** The check model: one validation outcome per message check, grouped by the
    message it concerns, and the draft message the outcomes are about. */
module Checks {

  /** The content of a draft message (the fields of `types.Message`). */
  datatype MessageFields = MessageFields(
    version: nat, to: string, from: string, nonce: nat, value: int,
    gasLimit: int, gasFeeCap: int, gasPremium: int, methodNum: nat, params: seq<bv8>)

  /** Content identifier of a message. It is derived from the content and, in this
      model, as discriminating as the content itself (no hash collisions). */
  datatype Cid = ContentId(content: MessageFields)

  /** Check kinds. Only the three base-fee kinds matter here; every other kind is
      carried by its name. */
  datatype CheckCode =
    | MessageBaseFee
    | MessageBaseFeeLowerBound
    | MessageBaseFeeUpperBound
    | OtherCode(name: string)

  /** The fixed set of check kinds that the interactive fee editor can fix. */
  const InteractiveSolves: set<CheckCode> :=
    {MessageBaseFee, MessageBaseFeeLowerBound, MessageBaseFeeUpperBound}

  /** A dynamically typed hint value: a string, or a value of any other type. */
  datatype HintValue = HintString(text: string) | NonString

  /** One validation outcome. */
  datatype CheckStatus = CheckStatus(
    cid: Cid, code: CheckCode, ok: bool, err: string, hint: map<string, HintValue>)

  /** Outcomes grouped by the message they were run for. */
  type CheckGroups = seq<seq<CheckStatus>>

  /** All outcomes in group-then-check order. */
  function Flatten(groups: CheckGroups): (s: seq<CheckStatus>)
    ensures forall c :: c in s <==> exists g :: 0 <= g < |groups| && c in groups[g]
  {
    if |groups| == 0 then []
    else Flatten(groups[..|groups| - 1]) + groups[|groups| - 1]
  }

  lemma FlattenSnoc(groups: CheckGroups, g: nat)
    requires g < |groups|
    ensures Flatten(groups[..g + 1]) == Flatten(groups[..g]) + groups[g]
  {
    assert groups[..g + 1][..g] == groups[..g];
  }

  /** The draft message, which the fee editor updates in place. */
  class Message {
    var version: nat
    var to: string
    var from: string
    var nonce: nat
    var value: int
    var gasLimit: int
    var gasFeeCap: int
    var gasPremium: int
    var methodNum: nat
    var params: seq<bv8>

    constructor (f: MessageFields)
      ensures Fields() == f
    {
      version, to, from, nonce, value := f.version, f.to, f.from, f.nonce, f.value;
      gasLimit, gasFeeCap, gasPremium := f.gasLimit, f.gasFeeCap, f.gasPremium;
      methodNum, params := f.methodNum, f.params;
    }

    function Fields(): MessageFields
      reads this
    {
      MessageFields(version, to, from, nonce, value, gasLimit, gasFeeCap, gasPremium, methodNum, params)
    }

    function Cid(): Cid
      reads this
    {
      ContentId(Fields())
    }
  }

  /** How a failure line names the message it is about. */
  datatype Subject = Current | Dependency(cid: Cid)

  /** One printed failure line: the message it is about and the check's error text. */
  datatype Report = Report(subject: Subject, err: string)

  function ReportOf(c: CheckStatus, protoCid: Cid): (r: Report)
    ensures r.err == c.err
    ensures r.subject == Current <==> c.cid == protoCid
  {
    Report(if c.cid == protoCid then Current else Dependency(c.cid), c.err)
  }

  /** The failure lines written for a sequence of outcomes, in order. */
  function PrintChecks(checks: seq<CheckStatus>, protoCid: Cid): (r: seq<Report>)
    ensures |r| <= |checks|
  {
    if |checks| == 0 then []
    else (if checks[0].ok then [] else [ReportOf(checks[0], protoCid)])
         + PrintChecks(checks[1..], protoCid)
  }

  /** Passed outcomes are never printed, and every failed one is, in order. */
  lemma {:induction false} PrintChecksFailuresOnly(checks: seq<CheckStatus>, protoCid: Cid)
    ensures PrintChecks(checks, protoCid) == PrintChecks(Failures(checks), protoCid)
    ensures |PrintChecks(checks, protoCid)| == |Failures(checks)|
    ensures (forall c :: c in checks ==> c.ok) ==> PrintChecks(checks, protoCid) == []
    ensures forall i :: 0 <= i < |Failures(checks)| ==>
      PrintChecks(checks, protoCid)[i] == ReportOf(Failures(checks)[i], protoCid)
  {
    if |checks| > 0 {
      PrintChecksFailuresOnly(checks[1..], protoCid);
      var f := Failures(checks);
      if !checks[0].ok {
        assert f[0] == checks[0] && f[1..] == Failures(checks[1..]);
      } else {
        assert f == Failures(checks[1..]);
      }
    }
  }

  /** Filtering the failures of two listings one after the other is filtering the whole. */
  lemma {:induction false} FailuresAppend(a: seq<CheckStatus>, b: seq<CheckStatus>)
    ensures Failures(a + b) == Failures(a) + Failures(b)
  {
    if |a| == 0 {
      assert a + b == b;
    } else {
      assert (a + b)[1..] == a[1..] + b;
      FailuresAppend(a[1..], b);
    }
  }

  /** The failed outcomes, in their order in the listing. */
  function Failures(checks: seq<CheckStatus>): (r: seq<CheckStatus>)
    ensures forall c :: c in r <==> c in checks && !c.ok
  {
    if |checks| == 0 then []
    else (if checks[0].ok then [] else [checks[0]]) + Failures(checks[1..])
  }
}
