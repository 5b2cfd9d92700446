/** The fee editor: the event-driven session in which the operator edits the
    message's total maximum fee. Every delivered event runs the key handling and,
    unless it commits, redraws a frame that re-parses the price and classifies it. */
module FeeEditor {

  import opened Wrappers
  import Arith

  /** The editable price text, seen through its parse: the amount it denotes, or
      a parse failure. Rendering an amount and parsing it back gives the amount. */
  datatype Price = Parsed(amount: int) | Unparsable

  /** What the frame stores after parsing: the amount, or zero on a parse failure. */
  function Amount(p: Price): int {
    if p.Parsed? then p.amount else 0
  }

  /** One event delivered by the terminal loop. */
  datatype Event =
    | Idle                    // a redraw tick without a key
    | Rune(c: char)           // a printable key seen by the key handling
    | Enter                   // the confirm key
    | FieldEdit(text: Price)  // a key the decimal text field consumes; the text becomes `text`

  /** The classification shown next to the price. `over` is the fee as a multiple
      of the required fee, in hundredths. */
  datatype Status = InvalidPrice | Safe | Low(over: int) | TooLow

  /** What one frame shows: the classification and the resulting per-unit fee cap. */
  datatype Frame = Frame(status: Status, feeCap: int)

  /** The editor's state: price text, the parsed maximum fee, the commit flag and
      whether the loop has been told to exit. */
  datatype EditorState = EditorState(price: Price, maxFee: int, send: bool, exited: bool)

  function Required(baseFee: int, gasLimit: int): int {
    baseFee * gasLimit
  }

  function SafeFee(required: int): int {
    required * 10
  }

  /** The `+` key: the amount times 11, then divided by 10. */
  function Raise(v: int): int {
    (v * 11) / 10
  }

  /** The `-` key: the amount times 10, then divided by 11. */
  function Lower(v: int): int {
    (v * 10) / 11
  }

  /** The price after the key handling and the text field have seen an event. */
  function AfterKey(price: Price, e: Event, safe: int): Price {
    match e
    case Rune(c) =>
      if c == 's' || c == 'S' then Parsed(safe)
      else if c == '+' then (if price.Parsed? then Parsed(Raise(price.amount)) else price)
      else if c == '-' then (if price.Parsed? then Parsed(Lower(price.amount)) else price)
      else price
    case FieldEdit(text) => text
    case _ => price
  }

  /** One delivered event: the confirm key sets the commit flag and exits without
      re-parsing; every other event updates the price and re-parses it. */
  function Next(s: EditorState, e: Event, safe: int): EditorState {
    if e.Enter? then s.(send := true, exited := true)
    else
      var p := AfterKey(s.price, e, safe);
      s.(price := p, maxFee := Amount(p))
  }

  /** The events the loop delivers in order, until the editor exits. */
  function Deliver(s: EditorState, events: seq<Event>, safe: int): EditorState
    decreases |events|
  {
    if s.exited || |events| == 0 then s
    else Deliver(Next(s, events[0], safe), events[1..], safe)
  }

  /** The state a session starts in: the price text renders the seeded maximum fee. */
  function Initial(maxFee: int): EditorState {
    EditorState(Parsed(maxFee), maxFee, false, false)
  }

  /** The stored maximum fee is the parse of the price text, and the commit flag
      is set exactly when the loop was told to exit. */
  predicate Consistent(s: EditorState) {
    s.maxFee == Amount(s.price) && s.send == s.exited
  }

  function Over(maxFee: int, required: int): int
    requires required > 0
  {
    (maxFee * 100) / required
  }

  /** Classification of the parsed price, first match wins: invalid, SAFE at or
      above ten times the required fee, low at or above the required fee, else too
      low. The multiple is computed only when the required fee is positive, and it
      lies in [1.00, 10.00). */
  function Classify(price: Price, required: int): (s: Status)
    ensures s.Low? ==> required > 0 && 100 <= s.over < 1000
    ensures s == InvalidPrice <==> price == Unparsable
  {
    match price
    case Unparsable => InvalidPrice
    case Parsed(m) =>
      if m >= SafeFee(required) then Safe
      else if m >= required then
        Arith.DivAtLeast(m * 100, required, 100);
        Arith.DivAtLeast(m * 100, required, 1000);
        Low(Over(m, required))
      else TooLow
  }

  /** The resulting per-unit fee cap shown on each frame. */
  function FeeCapPreview(maxFee: int, gasLimit: int): int
    requires gasLimit > 0
  {
    maxFee / gasLimit
  }

  function Rank(s: Status): nat {
    match s
    case InvalidPrice => 0
    case TooLow => 1
    case Low(_) => 2
    case Safe => 3
  }

  // ---------------------------------------------------------------------------
  // The editor object: the redraw closure and the state it captures.

  class Editor {
    const baseFee: int
    const gasLimit: int
    const originalMaxFee: int
    const required: int
    const safe: int
    var price: Price
    var maxFee: int
    var send: bool
    var exited: bool

    ghost predicate Valid()
      reads this
    {
      gasLimit > 0 && required == Required(baseFee, gasLimit) && safe == SafeFee(required)
      && Consistent(State())
    }

    function State(): EditorState
      reads this
    {
      EditorState(price, maxFee, send, exited)
    }

    /** A new session seeded with the message's current maximum fee. */
    constructor (baseFee: int, gasLimit: int, maxFee: int)
      requires gasLimit > 0
      ensures Valid() && State() == Initial(maxFee)
      ensures this.baseFee == baseFee && this.gasLimit == gasLimit && originalMaxFee == maxFee
    {
      this.baseFee, this.gasLimit, originalMaxFee := baseFee, gasLimit, maxFee;
      required := baseFee * gasLimit;
      safe := baseFee * gasLimit * 10;
      price := Parsed(maxFee);
      this.maxFee := maxFee;
      send, exited := false, false;
    }

    /** One run of the redraw closure on a delivered event. Returns the frame it
        draws, or None when the event commits and the closure exits at once. */
    method Step(e: Event) returns (frame: Option<Frame>)
      requires Valid() && !exited
      modifies this
      ensures Valid()
      ensures State() == Next(old(State()), e, safe)
      ensures frame == if e.Enter? then None
                       else Some(Frame(Classify(price, required), FeeCapPreview(maxFee, gasLimit)))
    {
      if e.Rune? {
        var parsed := price;
        if e.c == 's' || e.c == 'S' {
          price := Parsed(safe);
        } else if e.c == '+' {
          if parsed.Parsed? {
            price := Parsed(Raise(parsed.amount));
          }
        } else if e.c == '-' {
          if parsed.Parsed? {
            price := Parsed(Lower(parsed.amount));
          }
        }
      }
      if e.Enter? {
        send := true;
        exited := true;
        return None;
      }
      if e.FieldEdit? {
        price := e.text;
      }
      maxFee := if price.Parsed? then price.amount else 0;
      frame := Some(Frame(Classify(price, required), maxFee / gasLimit));
    }

    /** The terminal loop: delivers events in order until the editor exits or the
        events run out (the host ends the session). */
    method Run(events: seq<Event>)
      requires Valid()
      modifies this
      ensures Valid()
      ensures State() == Deliver(old(State()), events, safe)
    {
      var i := 0;
      while i < |events| && !exited
        invariant 0 <= i <= |events|
        invariant Valid()
        invariant Deliver(old(State()), events, safe) == Deliver(State(), events[i..], safe)
      {
        assert events[i..][1..] == events[i + 1..];
        var _ := Step(events[i]);
        i := i + 1;
      }
    }
  }

  // ---------------------------------------------------------------------------
  // Key arithmetic.

  /** `+` adds a tenth of a non-negative amount, rounded down: it never decreases
      the amount and leaves it unchanged exactly below ten. */
  lemma RaiseAddsATenth(v: int)
    requires v >= 0
    ensures Raise(v) == v + v / 10
    ensures Raise(v) >= v
    ensures Raise(v) == v <==> v < 10
  {
    var q, r := v / 10, v % 10;
    assert v * 11 == 10 * (11 * q + r) + r;
    Arith.DivUnique(v * 11, 10, 11 * q + r, r);
  }

  /** `-` never increases a non-negative amount, strictly decreases a positive one,
      and keeps it non-negative. */
  lemma LowerNeverIncreases(v: int)
    requires v >= 0
    ensures 0 <= Lower(v) <= v
    ensures v > 0 ==> Lower(v) < v
  {
    Arith.DivAtLeast(v * 10, 11, 0);
    Arith.DivAtLeast(v * 10, 11, v);
  }

  /** `+` followed by `-` returns a non-negative amount when it is a multiple of
      ten, and one unit less otherwise. */
  lemma RaiseThenLower(v: int)
    requires v >= 0
    ensures Lower(Raise(v)) == if v % 10 == 0 then v else v - 1
  {
    RaiseAddsATenth(v);
    var q, r := v / 10, v % 10;
    assert Raise(v) == 11 * q + r;
    if r == 0 {
      Arith.DivUnique((11 * q + r) * 10, 11, 10 * q, 0);
    } else {
      assert (11 * q + r) * 10 == 11 * (10 * q + r - 1) + (11 - r);
      Arith.DivUnique((11 * q + r) * 10, 11, 10 * q + r - 1, 11 - r);
    }
  }

  /** The editing keys on the price: `s`/`S` always set the safe fee; `+` and `-`
      leave an unparsable price alone and move a non-negative one in their
      direction without making it negative. */
  lemma KeyEffects(price: Price, safe: int)
    ensures AfterKey(price, Rune('s'), safe) == Parsed(safe)
    ensures AfterKey(price, Rune('S'), safe) == Parsed(safe)
    ensures price == Unparsable ==>
      AfterKey(price, Rune('+'), safe) == Unparsable && AfterKey(price, Rune('-'), safe) == Unparsable
    ensures price.Parsed? && price.amount >= 0 ==>
      price.amount <= AfterKey(price, Rune('+'), safe).amount
      && 0 <= AfterKey(price, Rune('-'), safe).amount <= price.amount
  {
    if price.Parsed? && price.amount >= 0 {
      RaiseAddsATenth(price.amount);
      LowerNeverIncreases(price.amount);
    }
  }

  // ---------------------------------------------------------------------------
  // Classification.

  /** The boundaries: exactly the safe fee is SAFE, exactly the required fee is low
      at 1.00 times when it is below the safe fee, and one unit less is too low. */
  lemma ClassifyBoundaries(required: int)
    requires required > 0
    ensures Classify(Parsed(SafeFee(required)), required) == Safe
    ensures Classify(Parsed(required), required) == Low(100)
    ensures Classify(Parsed(required - 1), required) == TooLow
  {
    Arith.MulDivCancel(100, required);
    assert required * 100 == 100 * required;
  }

  /** With no required fee every non-negative amount is SAFE, so the multiple
      (a division by the required fee) is never computed. */
  lemma ZeroRequiredIsSafe(m: int)
    requires m >= 0
    ensures Classify(Parsed(m), 0) == Safe
  {
  }

  /** A larger amount never classifies lower. */
  lemma ClassifyMonotone(m1: int, m2: int, required: int)
    requires m1 <= m2
    ensures Rank(Classify(Parsed(m1), required)) <= Rank(Classify(Parsed(m2), required))
    ensures Classify(Parsed(m1), required).Low? && Classify(Parsed(m2), required).Low? ==>
      Classify(Parsed(m1), required).over <= Classify(Parsed(m2), required).over
  {
    if Classify(Parsed(m1), required).Low? && Classify(Parsed(m2), required).Low? {
      Arith.MulMonotone(100, m1, m2);
      assert m1 * 100 == 100 * m1 && m2 * 100 == 100 * m2;
      var o1 := Over(m1, required);
      Arith.DivAtLeast(m1 * 100, required, o1);
      Arith.DivAtLeast(m2 * 100, required, o1);
    }
  }

  /** The classification of the total fee agrees with the resulting per-unit fee
      cap: SAFE exactly when the fee cap is at least ten times the base fee and,
      for a non-negative base fee, too low exactly when it is below the base fee. */
  lemma ClassifyAgainstFeeCap(m: int, baseFee: int, gasLimit: int)
    requires gasLimit > 0
    ensures baseFee >= 0 ==>
            (Classify(Parsed(m), Required(baseFee, gasLimit)) == TooLow
             <==> FeeCapPreview(m, gasLimit) < baseFee)
    ensures Classify(Parsed(m), Required(baseFee, gasLimit)) == Safe
            <==> FeeCapPreview(m, gasLimit) >= 10 * baseFee
  {
    Arith.DivAtLeast(m, gasLimit, baseFee);
    Arith.DivAtLeast(m, gasLimit, 10 * baseFee);
    assert (10 * baseFee) * gasLimit == SafeFee(Required(baseFee, gasLimit));
    if baseFee >= 0 {
      Arith.MulMonotone(gasLimit, 0, baseFee);
      assert gasLimit * baseFee == Required(baseFee, gasLimit);
    }
  }

  /** A gas limit of one million at a base fee of 100: the required fee is 10^8,
      the safe fee 10^9; 5*10^7 is too low, 10^8 is low at 1.00 times, 10^9 is SAFE. */
  lemma ScenarioMillionGas()
    ensures Required(100, 1000000) == 100000000
    ensures SafeFee(Required(100, 1000000)) == 1000000000
    ensures Classify(Parsed(50000000), Required(100, 1000000)) == TooLow
    ensures Classify(Parsed(100000000), Required(100, 1000000)) == Low(100)
    ensures Classify(Parsed(1000000000), Required(100, 1000000)) == Safe
  {
  }

  // ---------------------------------------------------------------------------
  // Sessions.

  /** Every delivered event keeps the stored fee equal to the parse of the price. */
  lemma {:induction false} DeliverStaysConsistent(s: EditorState, events: seq<Event>, safe: int)
    requires Consistent(s)
    ensures Consistent(Deliver(s, events, safe))
    decreases |events|
  {
    if !s.exited && |events| > 0 {
      DeliverStaysConsistent(Next(s, events[0], safe), events[1..], safe);
    }
  }

  /** A session that has not exited commits exactly when the confirm key is among
      the delivered events. */
  lemma {:induction false} CommitsIffEnter(s: EditorState, events: seq<Event>, safe: int)
    requires Consistent(s) && !s.exited
    ensures Deliver(s, events, safe).send <==> Enter in events
    ensures Deliver(s, events, safe).send == Deliver(s, events, safe).exited
    decreases |events|
  {
    DeliverStaysConsistent(s, events, safe);
    if |events| > 0 {
      var t := Next(s, events[0], safe);
      if events[0] != Enter {
        CommitsIffEnter(t, events[1..], safe);
        assert forall e :: e in events <==> e == events[0] || e in events[1..];
      }
    }
  }

  /** The first confirm key ends the session: the committed state is the one left
      by the events before it, with the flag set and without another parse. */
  lemma {:induction false} CommitAtFirstEnter(s: EditorState, events: seq<Event>, k: nat, safe: int)
    requires !s.exited
    requires k < |events| && events[k] == Enter
    requires forall j :: 0 <= j < k ==> events[j] != Enter
    ensures Deliver(s, events, safe) == Deliver(s, events[..k], safe).(send := true, exited := true)
    ensures !Deliver(s, events[..k], safe).exited
    decreases k
  {
    if k > 0 {
      var t := Next(s, events[0], safe);
      assert events[..k][1..] == events[1..][..k - 1];
      CommitAtFirstEnter(t, events[1..], k - 1, safe);
    }
  }

  /** Committing an unparsable price commits a zero maximum fee. */
  lemma CommitOfInvalidIsZero(s: EditorState, events: seq<Event>, safe: int)
    requires Consistent(s)
    requires Deliver(s, events, safe).send && Deliver(s, events, safe).price == Unparsable
    ensures Deliver(s, events, safe).maxFee == 0
  {
    DeliverStaysConsistent(s, events, safe);
  }
}
