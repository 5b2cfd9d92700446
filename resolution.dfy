/** Check resolution: applying a fee-editor session to the message, the
    operator's yes/no answers, and the protocol that ends in an error or the
    message to send. */
module Resolution {

  import opened Wrappers
  import opened Checks
  import opened FeeDerivation
  import opened FeeEditor
  import Arith

  datatype Error =
    | CheckFailed                 // checks failed and the session is not interactive
    | AbortedByUser               // the operator declined to send
    | EditorAborted               // the fee editor ended without a commit (its own "aborted by user" error)
    | UiFailure(reason: string)   // the terminal could not be set up or its loop failed
    | ServiceFailure(reason: string)

  datatype Result<T> = Ok(value: T) | Err(error: Error)

  /** One fee-editor session as the terminal delivers it: whether setting up the
      terminal fails, the events of the loop, and how the loop itself returns. */
  datatype UiSession = UiSession(startError: Option<string>, events: seq<Event>, runError: Option<string>)

  /** The editor state at the end of a session seeded from the message. */
  function FinalState(gasFeeCap: int, gasLimit: int, baseFee: int, events: seq<Event>): EditorState {
    Deliver(Initial(gasFeeCap * gasLimit), events, SafeFee(Required(baseFee, gasLimit)))
  }

  /** What a session does to the fee cap: the new fee cap, or the error returned. */
  function Adjustment(gasFeeCap: int, gasLimit: int, baseFee: int, ui: UiSession): Result<int>
    requires gasLimit > 0
  {
    if ui.startError.Some? then Err(UiFailure(ui.startError.value))
    else
      var final := FinalState(gasFeeCap, gasLimit, baseFee, ui.events);
      if ui.runError.Some? then Err(UiFailure(ui.runError.value))
      else if !final.send then Err(EditorAborted)
      else Ok(FeeCapPreview(final.maxFee, gasLimit))
  }

  /** `runFeeCapAdjustmentUI`: seeds the editor with fee cap times gas limit, runs
      the session, and on a commit writes back only the fee cap, as the committed
      maximum fee divided by the gas limit. On every error the message is untouched. */
  method RunFeeCapAdjustment(proto: Message, baseFee: int, ui: UiSession) returns (r: Result<Message>)
    requires proto.gasLimit > 0
    modifies proto`gasFeeCap
    ensures match Adjustment(old(proto.gasFeeCap), proto.gasLimit, baseFee, ui)
            case Ok(c) => r == Ok(proto) && proto.gasFeeCap == c
            case Err(e) => r == Err(e) && proto.gasFeeCap == old(proto.gasFeeCap)
  {
    if ui.startError.Some? {
      return Err(UiFailure(ui.startError.value));
    }
    var maxFee := proto.gasFeeCap * proto.gasLimit;
    var editor := new Editor(baseFee, proto.gasLimit, maxFee);
    editor.Run(ui.events);
    if ui.runError.Some? {
      return Err(UiFailure(ui.runError.value));
    }
    if !editor.send {
      return Err(EditorAborted);
    }
    proto.gasFeeCap := editor.maxFee / proto.gasLimit;
    return Ok(proto);
  }

  /** A session changes the fee cap only when the terminal works and the confirm
      key is among its events; then it always does. */
  lemma AdjustmentCommitsIffEnter(gasFeeCap: int, gasLimit: int, baseFee: int, ui: UiSession)
    requires gasLimit > 0
    ensures Adjustment(gasFeeCap, gasLimit, baseFee, ui).Ok?
            <==> ui.startError.None? && ui.runError.None? && Enter in ui.events
  {
    CommitsIffEnter(Initial(gasFeeCap * gasLimit), ui.events, SafeFee(Required(baseFee, gasLimit)));
  }

  lemma {:induction false} IdlesKeepState(s: EditorState, events: seq<Event>, k: nat, safe: int)
    requires Consistent(s) && !s.exited
    requires k <= |events| && forall j :: 0 <= j < k ==> events[j] == Idle
    ensures Deliver(s, events[..k], safe) == s
    decreases k
  {
    if k > 0 {
      assert events[..k][1..] == events[1..][..k - 1];
      IdlesKeepState(s, events[1..], k - 1, safe);
    }
  }

  /** Committing after nothing but redraws writes back the fee cap the message had. */
  lemma ConfirmWithoutEditKeepsFeeCap(gasFeeCap: int, gasLimit: int, baseFee: int, ui: UiSession, k: nat)
    requires gasLimit > 0
    requires ui.startError.None? && ui.runError.None?
    requires k < |ui.events| && ui.events[k] == Enter
    requires forall j :: 0 <= j < k ==> ui.events[j] == Idle
    ensures Adjustment(gasFeeCap, gasLimit, baseFee, ui) == Ok(gasFeeCap)
  {
    var safe := SafeFee(Required(baseFee, gasLimit));
    var s := Initial(gasFeeCap * gasLimit);
    CommitAtFirstEnter(s, ui.events, k, safe);
    IdlesKeepState(s, ui.events, k, safe);
    Arith.MulDivCancel(gasFeeCap, gasLimit);
  }

  /** The written fee cap matches what the last frame showed: for a non-negative
      base fee, at least the base fee when the committed price was low or SAFE (ten
      times it when SAFE), below it when too low, and zero when the price did not
      parse. */
  lemma CommittedFeeCapMatchesClassification(gasFeeCap: int, gasLimit: int, baseFee: int, ui: UiSession)
    requires gasLimit > 0 && baseFee >= 0
    requires Adjustment(gasFeeCap, gasLimit, baseFee, ui).Ok?
    ensures var final := FinalState(gasFeeCap, gasLimit, baseFee, ui.events);
            var c := Adjustment(gasFeeCap, gasLimit, baseFee, ui).value;
            var status := Classify(final.price, Required(baseFee, gasLimit));
            && (final.price == Unparsable ==> c == 0)
            && (status == TooLow ==> c < baseFee)
            && (status == Safe || status.Low? ==> c >= baseFee)
            && (status == Safe ==> c >= 10 * baseFee)
  {
    var final := FinalState(gasFeeCap, gasLimit, baseFee, ui.events);
    DeliverStaysConsistent(Initial(gasFeeCap * gasLimit), ui.events, SafeFee(Required(baseFee, gasLimit)));
    ClassifyAgainstFeeCap(final.maxFee, baseFee, gasLimit);
  }

  // ---------------------------------------------------------------------------
  // The operator's answers.

  function LowerChar(c: char): char {
    if 'A' <= c <= 'Z' then (c as int - 'A' as int + 'a' as int) as char else c
  }

  /** ASCII lowercasing: no upper-case letter is left, every other character is
      kept, and a character becomes `y` exactly when it was `y` or `Y`. */
  function ToLower(s: string): (r: string)
    ensures |r| == |s|
    ensures forall i :: 0 <= i < |r| ==> !('A' <= r[i] <= 'Z')
    ensures forall i :: 0 <= i < |s| && !('A' <= s[i] <= 'Z') ==> r[i] == s[i]
    ensures forall i :: 0 <= i < |s| ==> (r[i] == 'y' <==> s[i] == 'y' || s[i] == 'Y')
  {
    seq(|s|, i requires 0 <= i < |s| => LowerChar(s[i]))
  }

  /** `askUser`'s answer rule: an empty reply gives the default, any other reply is
      yes exactly when it starts with `y` or `Y`. */
  function AskUser(reply: string, def: bool): (yes: bool)
    ensures |reply| == 0 ==> yes == def
    ensures |reply| > 0 ==> (yes <==> reply[0] == 'y' || reply[0] == 'Y')
  {
    var resp := ToLower(reply);
    if |resp| == 0 then def else resp[0] == 'y'
  }

  // ---------------------------------------------------------------------------
  // The protocol.

  datatype Question = AdjustFee | SendMessage

  /** What the protocol writes, in order: failure listings, the notice that the fee
      can be adjusted, and the questions it asks. */
  datatype Output =
    | FailedChecks(reports: seq<Report>)
    | FeeAdjustable
    | Asked(question: Question)
    | StillFailed(reports: seq<Report>)

  /** What the operator types at each question, if it is asked. */
  datatype Replies = Replies(adjust: string, send: string)

  /** `resolveChecks`. `recheck` is what the check service returns when asked again
      for the (possibly adjusted) message. */
  method ResolveChecks(proto: Message, checkGroups: CheckGroups, interactive: bool,
                       replies: Replies, ui: UiSession, recheck: Result<CheckGroups>)
    returns (r: Result<Message>, out: seq<Output>)
    requires (interactive && AnySolvable(Flatten(checkGroups), proto.Cid())
              && AskUser(replies.adjust, true)) ==> proto.gasLimit > 0
    modifies proto`gasFeeCap
    ensures |out| > 0 && out[0] == FailedChecks(PrintChecks(Flatten(checkGroups), old(proto.Cid())))
    ensures !interactive ==>
      r == Err(CheckFailed) && |out| == 1 && proto.gasFeeCap == old(proto.gasFeeCap)
    ensures interactive && !AnySolvable(Flatten(checkGroups), old(proto.Cid())) ==>
      && proto.gasFeeCap == old(proto.gasFeeCap)
      && out[1..] == [Asked(SendMessage)]
      && r == (if AskUser(replies.send, false) then Ok(proto) else Err(AbortedByUser))
    ensures interactive && AnySolvable(Flatten(checkGroups), old(proto.Cid())) ==>
      var adjust := AskUser(replies.adjust, true);
      var baseFee := CapturedBaseFee(Flatten(checkGroups), old(proto.Cid()));
      if adjust && Adjustment(old(proto.gasFeeCap), proto.gasLimit, baseFee, ui).Err? then
        && r == Err(Adjustment(old(proto.gasFeeCap), proto.gasLimit, baseFee, ui).error)
        && proto.gasFeeCap == old(proto.gasFeeCap)
        && out[1..] == [FeeAdjustable, Asked(AdjustFee)]
      else
        && proto.gasFeeCap == (if adjust then Adjustment(old(proto.gasFeeCap), proto.gasLimit, baseFee, ui).value
                               else old(proto.gasFeeCap))
        && match recheck
           case Err(e) =>
             r == Err(e) && out[1..] == [FeeAdjustable, Asked(AdjustFee)]
           case Ok(checks) =>
             && out[1..] == [FeeAdjustable, Asked(AdjustFee),
                             StillFailed(PrintChecks(Flatten(checks), proto.Cid())), Asked(SendMessage)]
             && r == (if AskUser(replies.send, false) then Ok(proto) else Err(AbortedByUser))
  {
    var msg := proto;
    var protoCid := msg.Cid();
    out := [FailedChecks(PrintChecks(Flatten(checkGroups), protoCid))];
    if !interactive {
      return Err(CheckFailed), out;
    }
    var feeCapBad, baseFee := IsFeeCapProblem(checkGroups, protoCid);
    if feeCapBad {
      out := out + [FeeAdjustable, Asked(AdjustFee)];
      if AskUser(replies.adjust, true) {
        var res := RunFeeCapAdjustment(msg, baseFee, ui);
        if res.Err? {
          return Err(res.error), out;
        }
        msg := res.value;
      }
      if recheck.Err? {
        return Err(recheck.error), out;
      }
      out := out + [StillFailed(PrintChecks(Flatten(recheck.value), msg.Cid()))];
    }
    out := out + [Asked(SendMessage)];
    if !AskUser(replies.send, false) {
      return Err(AbortedByUser), out;
    }
    return Ok(msg), out;
  }
}
