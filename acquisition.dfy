/** The sample-acquisition rule of the calibration widget as a function on values: how
    one sample event reported by the motor controller changes the raw table and the
    sample counter, and what a stream of such events adds up to. */
module Acquisition {

  /** Angular positions per revolution: index i stands for i / 10 degrees. */
  const Positions := 3600

  /** focAnticoggingCalibrationDataReceived(finish, success, forward, pos_index, iq). */
  datatype SampleEvent = SampleEvent(finish: bool, success: bool, forward: bool, posIndex: int, iq: real)

  /** What the handler does with an event: warn ("Bad Anticogging Data Received"),
      drop the end-of-sweep position 3600, or store the current. */
  datatype SampleOutcome = BadData | Discarded | Stored

  /** The state the handler updates: both rows of the raw table and the counter. */
  datatype Session = Session(forward: seq<real>, reverse: seq<real>, counter: int)

  ghost predicate ValidSession(s: Session) {
    |s.forward| == Positions && |s.reverse| == Positions
  }

  function Classify(e: SampleEvent): (o: SampleOutcome)
    ensures o == BadData <==> !e.success || e.posIndex < 0 || e.posIndex > Positions
    ensures o == Discarded <==> e.success && e.posIndex == Positions
    ensures o == Stored <==> e.success && 0 <= e.posIndex < Positions
  {
    if e.posIndex < 0 || e.posIndex > 3600 || !e.success then BadData
    else if e.posIndex != 3600 then Stored
    else Discarded
  }

  /** The new state after one event. */
  function Receive(s: Session, e: SampleEvent): (r: Session)
    requires ValidSession(s)
    ensures ValidSession(r)
  {
    if Classify(e) != Stored then s
    else if e.forward then Session(s.forward[e.posIndex := e.iq], s.reverse, s.counter + 1)
    else Session(s.forward, s.reverse[e.posIndex := e.iq], s.counter + 1)
  }

  /** on_startButton_clicked: both rows zeroed, counter reset. */
  function Started(): (s: Session)
    ensures ValidSession(s) && s.counter == 0
    ensures forall i :: 0 <= i < Positions ==> s.forward[i] == 0.0 && s.reverse[i] == 0.0
  {
    Session(seq(Positions, _ => 0.0), seq(Positions, _ => 0.0), 0)
  }

  /** The state after a stream of events, handled one at a time in arrival order. */
  function ReceiveAll(s: Session, es: seq<SampleEvent>): (r: Session)
    requires ValidSession(s)
    ensures ValidSession(r)
    decreases |es|
  {
    if es == [] then s else ReceiveAll(Receive(s, es[0]), es[1..])
  }

  /** The number of events of `es` that store a current. */
  function StoredCount(es: seq<SampleEvent>): nat {
    if es == [] then 0 else (if Classify(es[0]) == Stored then 1 else 0) + StoredCount(es[1..])
  }

  /** Whether `e` stores a current into row `forward` at index `i`. */
  predicate Writes(e: SampleEvent, forward: bool, i: int) {
    Classify(e) == Stored && e.forward == forward && e.posIndex == i
  }

  /** The current the last event of `es` writing row `forward` at `i` carries, or
      `init` when no event writes there. */
  function Latest(es: seq<SampleEvent>, forward: bool, i: int, init: real): real
    decreases |es|
  {
    if es == [] then init
    else Latest(es[1..], forward, i, if Writes(es[0], forward, i) then es[0].iq else init)
  }

  /** A rejected or sentinel event leaves the whole state as it was. */
  lemma NotStoredChangesNothing(s: Session, e: SampleEvent)
    requires ValidSession(s) && Classify(e) != Stored
    ensures Receive(s, e) == s
  {
  }

  /** An event writes at most one cell, of the row its direction selects, and counts
      one sample exactly when it is stored. */
  lemma ReceiveAt(s: Session, e: SampleEvent, i: int)
    requires ValidSession(s) && 0 <= i < Positions
    ensures Receive(s, e).counter == s.counter + (if Classify(e) == Stored then 1 else 0)
    ensures Receive(s, e).forward[i] == (if Writes(e, true, i) then e.iq else s.forward[i])
    ensures Receive(s, e).reverse[i] == (if Writes(e, false, i) then e.iq else s.reverse[i])
  {
  }

  /** The counter grows by exactly the number of stored events. */
  lemma {:induction false} CounterCountsStored(s: Session, es: seq<SampleEvent>)
    requires ValidSession(s)
    ensures ReceiveAll(s, es).counter == s.counter + StoredCount(es)
    decreases |es|
  {
    if es != [] {
      CounterCountsStored(Receive(s, es[0]), es[1..]);
    }
  }

  /** Every cell ends up holding the current of the last event that wrote it, and keeps
      its earlier value when no event did. */
  lemma {:induction false} CellHoldsLatest(s: Session, es: seq<SampleEvent>, i: int)
    requires ValidSession(s) && 0 <= i < Positions
    ensures ReceiveAll(s, es).forward[i] == Latest(es, true, i, s.forward[i])
    ensures ReceiveAll(s, es).reverse[i] == Latest(es, false, i, s.reverse[i])
    decreases |es|
  {
    if es != [] {
      var s' := Receive(s, es[0]);
      ReceiveAt(s, es[0], i);
      CellHoldsLatest(s', es[1..], i);
    }
  }

  /** A stream in which no event is stored leaves the state as it was. */
  lemma {:induction false} RejectedStreamChangesNothing(s: Session, es: seq<SampleEvent>)
    requires ValidSession(s)
    requires forall j :: 0 <= j < |es| ==> Classify(es[j]) != Stored
    ensures ReceiveAll(s, es) == s
    decreases |es|
  {
    if es != [] {
      RejectedStreamChangesNothing(Receive(s, es[0]), es[1..]);
    }
  }

  /** After a start, a cell no event wrote reads zero. */
  lemma {:induction false} UntouchedCellIsZero(es: seq<SampleEvent>, i: int, forward: bool)
    requires 0 <= i < Positions
    requires forall j :: 0 <= j < |es| ==> !Writes(es[j], forward, i)
    ensures (if forward then ReceiveAll(Started(), es).forward[i] else ReceiveAll(Started(), es).reverse[i]) == 0.0
  {
    CellHoldsLatest(Started(), es, i);
    LatestWithoutWrites(es, forward, i, 0.0);
  }

  lemma {:induction false} LatestWithoutWrites(es: seq<SampleEvent>, forward: bool, i: int, init: real)
    requires forall j :: 0 <= j < |es| ==> !Writes(es[j], forward, i)
    ensures Latest(es, forward, i, init) == init
    decreases |es|
  {
    if es != [] {
      LatestWithoutWrites(es[1..], forward, i, init);
    }
  }
}
