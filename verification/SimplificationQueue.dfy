/** The thread that reads ways and the thread that simplifies them, in every interleaving of their steps. */
module SimplificationQueue {
  import opened Counters
  import opened Options

  /** What the reading thread does next. */
  datatype Producer =
    | Ready      // push the next way, or tell that there are no more
    | Pushed     // increment the size counter
    | Counted    // compare the counter with the maximum so far
    | Exceeded   // read the counter again, as the new maximum
    | Recorded   // read it once more, to decide on a short sleep
    | Waiting    // wait for the other thread to end
    | Joined

  /** What the simplifying thread does next. */
  datatype Consumer =
    | Outer          // has the end been told?
    | Inner          // pop a way, or sleep
    | Popped         // decrement the size counter
    | Uncounted      // simplify the way
    | Draining       // the same three steps, until nothing is left
    | LastPopped
    | LastUncounted
    | Finished

  datatype State<W> = State(
    todo: seq<W>,        // ways still to be pushed
    queue: seq<W>,
    inHand: Option<W>,   // popped, but not yet simplified
    handled: seq<W>,     // simplified, in order
    counter: nat,
    done: bool,
    maximum: nat,
    producer: Producer,
    consumer: Consumer)

  datatype Thread = Reading | Simplifying

  function Initial<W>(ways: seq<W>): State<W> {
    State(ways, [], None, [], 0, false, 0, Ready, Outer)
  }

  function Wrapped(n: int): nat {
    n % WORD
  }

  function ProducerStep<W>(s: State<W>): State<W> {
    match s.producer
    case Ready =>
      if s.todo == [] then s.(done := true, producer := Waiting)
      else s.(todo := s.todo[1..], queue := s.queue + [s.todo[0]], producer := Pushed)
    case Pushed => s.(counter := Wrapped(s.counter + 1), producer := Counted)
    case Counted => s.(producer := if s.counter > s.maximum then Exceeded else Recorded)
    case Exceeded => s.(maximum := s.counter, producer := Recorded)
    case Recorded => s.(producer := Ready)
    case Waiting => if s.consumer == Finished then s.(producer := Joined) else s
    case Joined => s
  }

  function Pop<W>(s: State<W>, next: Consumer): State<W>
    requires |s.queue| > 0
  {
    s.(inHand := Some(s.queue[0]), queue := s.queue[1..], consumer := next)
  }

  function Simplify<W>(s: State<W>, next: Consumer): State<W> {
    s.(handled := s.handled + Held(s), inHand := None, consumer := next)
  }

  function ConsumerStep<W>(s: State<W>): State<W> {
    match s.consumer
    case Outer => s.(consumer := if s.done then Draining else Inner)
    case Inner => if s.queue == [] then s.(consumer := Outer) else Pop(s, Popped)
    case Popped => s.(counter := Wrapped(s.counter - 1), consumer := Uncounted)
    case Uncounted => Simplify(s, Inner)
    case Draining => if s.queue == [] then s.(consumer := Finished) else Pop(s, LastPopped)
    case LastPopped => s.(counter := Wrapped(s.counter - 1), consumer := LastUncounted)
    case LastUncounted => Simplify(s, Draining)
    case Finished => s
  }

  function Turn<W>(s: State<W>, thread: Thread): State<W> {
    match thread
    case Reading => ProducerStep(s)
    case Simplifying => ConsumerStep(s)
  }

  /** The state after the threads took turns in some order; a thread that waits or has ended lets its turn pass. */
  function After<W>(s: State<W>, schedule: seq<Thread>): State<W> {
    if schedule == [] then s else Turn(After(s, schedule[..|schedule| - 1]), schedule[|schedule| - 1])
  }

  // ----- what every step keeps

  function Held<W>(s: State<W>): seq<W> {
    if s.inHand.Some? then [s.inHand.value] else []
  }

  predicate Holds(c: Consumer) {
    c.Popped? || c.Uncounted? || c.LastPopped? || c.LastUncounted?
  }

  predicate Drains(c: Consumer) {
    c.Draining? || c.LastPopped? || c.LastUncounted? || c.Finished?
  }

  /** What the counter would be were it unbounded: pops not yet counted still count, a push not yet counted does not. */
  function Tally<W>(s: State<W>): int {
    |s.queue| + (if s.consumer.Popped? || s.consumer.LastPopped? then 1 else 0) - (if s.producer.Pushed? then 1 else 0)
  }

  predicate Invariant<W(==)>(ways: seq<W>, s: State<W>) {
    && s.handled + Held(s) + s.queue + s.todo == ways
    && (s.inHand.Some? <==> Holds(s.consumer))
    && (s.done <==> s.producer.Waiting? || s.producer.Joined?)
    && (s.done ==> s.todo == [])
    && (Drains(s.consumer) ==> s.done)
    && (s.consumer.Finished? ==> s.queue == [])
    && (s.producer.Joined? ==> s.consumer.Finished?)
    && (s.producer.Pushed? ==> |s.handled| + |Held(s)| + |s.queue| > 0)
    && s.counter == Wrapped(Tally(s))
    && s.maximum <= |ways|
  }

  lemma TallyBounds<W>(ways: seq<W>, s: State<W>)
    requires Invariant(ways, s)
    ensures -1 <= Tally(s) <= |ways|
    ensures !s.producer.Pushed? ==> |s.queue| <= Tally(s)
  {
    assert |ways| == |s.handled| + |Held(s)| + |s.queue| + |s.todo|;
  }

  lemma WrappedStep(n: int)
    ensures Wrapped(Wrapped(n) + 1) == Wrapped(n + 1)
    ensures Wrapped(Wrapped(n) - 1) == Wrapped(n - 1)
  {
    var q, r := n / WORD, n % WORD;
    assert n == q * WORD + r;
    if r + 1 == WORD {
      assert n + 1 == (q + 1) * WORD;
    } else {
      assert n + 1 == q * WORD + (r + 1);
    }
    if r == 0 {
      assert n - 1 == (q - 1) * WORD + (WORD - 1);
    } else {
      assert n - 1 == q * WORD + (r - 1);
    }
  }

  lemma WrappedSmall(n: int)
    requires -1 <= n < WORD - 1
    ensures Wrapped(n) == if n == -1 then WORD - 1 else n
  {
  }

  lemma ProducerKeeps<W>(ways: seq<W>, s: State<W>)
    requires Invariant(ways, s) && |ways| < WORD - 1
    ensures Invariant(ways, ProducerStep(s))
  {
    TallyBounds(ways, s);
    if s.producer.Ready? && s.todo != [] {
      PushKeepsOrder(s);
    } else if s.producer.Pushed? {
      WrappedStep(Tally(s));
    } else {
      WrappedSmall(Tally(s));
    }
  }

  lemma PushKeepsOrder<W>(s: State<W>)
    requires s.producer.Ready? && s.todo != []
    ensures var t := ProducerStep(s); t.handled + Held(t) + t.queue + t.todo == s.handled + Held(s) + s.queue + s.todo
  {
    var t := ProducerStep(s);
    assert s.queue + s.todo == t.queue + t.todo;
    assert t.handled + Held(t) + t.queue + t.todo == s.handled + Held(s) + (t.queue + t.todo);
    assert s.handled + Held(s) + s.queue + s.todo == s.handled + Held(s) + (s.queue + s.todo);
  }

  lemma ConsumerKeeps<W>(ways: seq<W>, s: State<W>)
    requires Invariant(ways, s)
    ensures Invariant(ways, ConsumerStep(s))
  {
    WrappedStep(Tally(s));
    PopKeepsOrder(s);
  }

  lemma PopKeepsOrder<W>(s: State<W>)
    requires s.inHand.Some? <==> Holds(s.consumer)
    ensures var t := ConsumerStep(s); t.handled + Held(t) + t.queue + t.todo == s.handled + Held(s) + s.queue + s.todo
  {
    var t := ConsumerStep(s);
    assert t.handled + Held(t) + t.queue == s.handled + Held(s) + s.queue;
  }

  lemma {:induction false} AlwaysInvariant<W>(ways: seq<W>, schedule: seq<Thread>)
    requires |ways| < WORD - 1
    ensures Invariant(ways, After(Initial(ways), schedule))
  {
    if schedule != [] {
      AlwaysInvariant(ways, schedule[..|schedule| - 1]);
      ProducerKeeps(ways, After(Initial(ways), schedule[..|schedule| - 1]));
      ConsumerKeeps(ways, After(Initial(ways), schedule[..|schedule| - 1]));
    }
  }

  // ----- what holds in every interleaving

  /** Nothing is simplified out of order, twice, or without having been pushed. */
  lemma FirstInFirstOut<W>(ways: seq<W>, schedule: seq<Thread>)
    requires |ways| < WORD - 1
    ensures After(Initial(ways), schedule).handled <= ways
  {
    AlwaysInvariant(ways, schedule);
    FrontOfFour(After(Initial(ways), schedule), ways);
  }

  lemma FrontOfFour<W>(s: State<W>, ways: seq<W>)
    requires s.handled + Held(s) + s.queue + s.todo == ways
    ensures s.handled <= ways
  {
    var held, queue, todo := Held(s), s.queue, s.todo;
    assert s.handled <= s.handled + held <= s.handled + held + queue <= s.handled + held + queue + todo;
  }

  /**
   * When the join completes, each way has been simplified exactly once, in the order of pushing, and nothing is left.
   */
  lemma JoinCompletes<W>(ways: seq<W>, schedule: seq<Thread>)
    requires |ways| < WORD - 1 && After(Initial(ways), schedule).producer.Joined?
    ensures var s := After(Initial(ways), schedule);
            s.handled == ways && s.queue == [] && s.inHand == None && s.counter == 0
  {
    AlwaysInvariant(ways, schedule);
  }

  predicate ReadsCounter(p: Producer) {
    p.Counted? || p.Exceeded? || p.Recorded?
  }

  /**
   * Whenever the reading thread looks at the counter it has not wrapped around; it is the length of the queue, or one
   * more while the other thread has popped a way without counting that.
   */
  lemma CounterWhenRead<W>(ways: seq<W>, schedule: seq<Thread>)
    requires |ways| < WORD - 1 && ReadsCounter(After(Initial(ways), schedule).producer)
    ensures var s := After(Initial(ways), schedule);
            |s.queue| <= s.counter <= |ways| && (s.counter == |s.queue| || s.counter == |s.queue| + 1)
  {
    AlwaysInvariant(ways, schedule);
    var s := After(Initial(ways), schedule);
    TallyBounds(ways, s);
    WrappedSmall(Tally(s));
  }

  /** The counter has wrapped exactly while a way is pushed, popped and its pop counted, but its push is not. */
  lemma CounterWraps<W>(ways: seq<W>, schedule: seq<Thread>)
    requires |ways| < WORD - 1
    ensures var s := After(Initial(ways), schedule);
            s.counter > |ways| <==>
            s.producer.Pushed? && s.queue == [] && !s.consumer.Popped? && !s.consumer.LastPopped?
  {
    AlwaysInvariant(ways, schedule);
    var s := After(Initial(ways), schedule);
    TallyBounds(ways, s);
    WrappedSmall(Tally(s));
  }

  /** And that does happen: the consumer may be quicker than the increment. */
  lemma CounterCanWrap<W>(way: W)
    ensures var schedule := [Reading, Simplifying, Simplifying, Simplifying];
            After(Initial([way]), schedule).counter == 0xffff_ffff_ffff_ffff
  {
    var s := Initial([way]);
    AfterTurn(s, [], Reading);
    AfterTurn(s, [Reading], Simplifying);
    AfterTurn(s, [Reading, Simplifying], Simplifying);
    AfterTurn(s, [Reading, Simplifying, Simplifying], Simplifying);
    assert [] + [Reading] == [Reading] && [Reading] + [Simplifying] == [Reading, Simplifying];
    assert [Reading, Simplifying] + [Simplifying] == [Reading, Simplifying, Simplifying];
    assert [Reading, Simplifying, Simplifying] + [Simplifying] == [Reading, Simplifying, Simplifying, Simplifying];
  }

  lemma AfterTurn<W>(s: State<W>, schedule: seq<Thread>, thread: Thread)
    ensures After(s, schedule + [thread]) == Turn(After(s, schedule), thread)
  {
    assert (schedule + [thread])[..|schedule|] == schedule;
  }

  // ----- the join completes

  /** How many more turns the reading thread needs until it waits. */
  function ProducerTurnsLeft<W>(s: State<W>): nat {
    5 * |s.todo| +
    match s.producer
    case Ready => 1
    case Pushed => 5
    case Counted => 4
    case Exceeded => 3
    case Recorded => 2
    case Waiting => 0
    case Joined => 0
  }

  /** How many more turns the simplifying thread needs at most, once there are no more ways to come. */
  function ConsumerTurnsLeft<W>(s: State<W>): nat {
    3 * |s.queue| +
    match s.consumer
    case Outer => 2
    case Inner => 3
    case Popped => 5
    case Uncounted => 4
    case Draining => 1
    case LastPopped => 3
    case LastUncounted => 2
    case Finished => 0
  }

  function TurnsOf(schedule: seq<Thread>, thread: Thread): nat {
    if schedule == [] then 0
    else TurnsOf(schedule[..|schedule| - 1], thread) + if schedule[|schedule| - 1] == thread then 1 else 0
  }

  lemma ProducerStepGetsOn<W>(s: State<W>)
    requires s.producer.Waiting? || s.producer.Joined? ==> s.todo == []
    ensures ProducerTurnsLeft(ProducerStep(s)) < ProducerTurnsLeft(s) || ProducerTurnsLeft(ProducerStep(s)) == 0
  {
  }

  lemma ConsumerStepGetsOn<W>(s: State<W>)
    requires s.done
    ensures ConsumerStep(s).done && ConsumerStep(s).producer == s.producer
    ensures ConsumerTurnsLeft(ConsumerStep(s)) < ConsumerTurnsLeft(s) || ConsumerStep(s).consumer.Finished?
  {
  }

  lemma WaitingStep<W>(s: State<W>)
    requires s.done && (s.producer.Waiting? || s.producer.Joined?)
    ensures ProducerStep(s).done && (ProducerStep(s).producer.Waiting? || ProducerStep(s).producer.Joined?)
    ensures ConsumerTurnsLeft(ProducerStep(s)) == ConsumerTurnsLeft(s) && ProducerStep(s).consumer == s.consumer
  {
  }

  lemma {:induction false} ProducerGetsOn<W>(ways: seq<W>, schedule: seq<Thread>)
    requires |ways| < WORD - 1
    ensures var left := ProducerTurnsLeft(After(Initial(ways), schedule));
            left + TurnsOf(schedule, Reading) <= 5 * |ways| + 1 || left == 0
  {
    if schedule != [] {
      var before := schedule[..|schedule| - 1];
      ProducerGetsOn(ways, before);
      AlwaysInvariant(ways, before);
      ProducerStepGetsOn(After(Initial(ways), before));
    }
  }

  /** The reading thread has told that there are no more ways after five turns for each and one more. */
  lemma ProducerEnds<W>(ways: seq<W>, schedule: seq<Thread>)
    requires |ways| < WORD - 1 && TurnsOf(schedule, Reading) > 5 * |ways|
    ensures After(Initial(ways), schedule).done
  {
    ProducerGetsOn(ways, schedule);
    AlwaysInvariant(ways, schedule);
  }

  lemma {:induction false} ConsumerGetsOn<W>(s: State<W>, schedule: seq<Thread>)
    requires s.done && (s.producer.Waiting? || s.producer.Joined?)
    ensures var t := After(s, schedule);
            && t.done && (t.producer.Waiting? || t.producer.Joined?)
            && (ConsumerTurnsLeft(t) + TurnsOf(schedule, Simplifying) <= ConsumerTurnsLeft(s) || t.consumer.Finished?)
  {
    if schedule != [] {
      ConsumerGetsOn(s, schedule[..|schedule| - 1]);
      ConsumerStepGetsOn(After(s, schedule[..|schedule| - 1]));
      WaitingStep(After(s, schedule[..|schedule| - 1]));
    }
  }

  /** From then on the simplifying thread ends within three turns for each way in the queue and five more. */
  lemma ConsumerEnds<W>(s: State<W>, schedule: seq<Thread>)
    requires s.done && (s.producer.Waiting? || s.producer.Joined?)
    requires TurnsOf(schedule, Simplifying) >= 3 * |s.queue| + 5
    ensures After(s, schedule).consumer.Finished?
    ensures After(s, schedule + [Reading]).producer.Joined?
  {
    ConsumerGetsOn(s, schedule);
    AfterTurn(s, schedule, Reading);
  }

  lemma {:induction false} AfterBoth<W>(s: State<W>, a: seq<Thread>, b: seq<Thread>)
    ensures After(s, a + b) == After(After(s, a), b)
  {
    if b == [] {
      assert a + b == a;
    } else {
      assert (a + b)[..|a + b| - 1] == a + b[..|b| - 1];
      AfterBoth(s, a, b[..|b| - 1]);
    }
  }

  /**
   * However the turns are interleaved: once the reading thread has had enough of them and then the simplifying thread,
   * the join completes, and every way has been simplified once and in order.
   */
  lemma EveryFairScheduleJoins<W>(ways: seq<W>, first: seq<Thread>, second: seq<Thread>)
    requires |ways| < WORD - 1
    requires TurnsOf(first, Reading) > 5 * |ways| && TurnsOf(second, Simplifying) >= 3 * |ways| + 5
    ensures var s := After(Initial(ways), first + (second + [Reading]));
            s.producer.Joined? && s.handled == ways && s.queue == []
  {
    AlwaysInvariant(ways, first);
    ProducerEnds(ways, first);
    var middle := After(Initial(ways), first);
    assert |ways| == |middle.handled| + |Held(middle)| + |middle.queue| + |middle.todo|;
    ConsumerEnds(middle, second);
    AfterBoth(Initial(ways), first, second + [Reading]);
    JoinCompletes(ways, first + (second + [Reading]));
  }

  // ----- the maximum of the size counter

  /** The state after one thread took several turns in a row. */
  function Turns<W>(s: State<W>, thread: Thread, n: nat): State<W>
    decreases n
  {
    if n == 0 then s else Turns(Turn(s, thread), thread, n - 1)
  }

  function InARow(thread: Thread, n: nat): seq<Thread> {
    seq(n, _ => thread)
  }

  lemma {:induction false} AfterTurns<W>(s: State<W>, thread: Thread, n: nat)
    ensures After(s, InARow(thread, n)) == Turns(s, thread, n)
    decreases n
  {
    if n > 0 {
      assert InARow(thread, n) == [thread] + InARow(thread, n - 1);
      AfterBoth(s, [thread], InARow(thread, n - 1));
      assert [thread][..0] == [];
      AfterTurns(Turn(s, thread), thread, n - 1);
    }
  }

  /** Five turns of the reading thread push a way, count it, and record a greater maximum. */
  lemma PushedAndRecorded<W>(s: State<W>)
    requires s.producer.Ready? && s.todo != [] && s.maximum <= s.counter < WORD - 2
    ensures Turns(s, Reading, 5) ==
            s.(todo := s.todo[1..], queue := s.queue + [s.todo[0]], counter := s.counter + 1, maximum := s.counter + 1)
  {
    WrappedSmall(s.counter + 1);
    var first := Turn(s, Reading);
    var second := Turn(first, Reading);
    assert second == first.(counter := s.counter + 1, producer := Counted);
    var third := Turn(second, Reading);
    var fourth := Turn(third, Reading);
    assert third.producer.Exceeded? && fourth.producer.Recorded?;
    assert Turns(fourth, Reading, 1) == Turn(fourth, Reading);
    assert Turns(second, Reading, 3) == Turns(third, Reading, 2) == Turns(fourth, Reading, 1);
    assert Turns(s, Reading, 5) == Turns(first, Reading, 4) == Turns(second, Reading, 3);
  }

  /** Three turns of the simplifying thread pop a way, count that, and simplify it. */
  lemma PoppedAndSimplified<W>(s: State<W>)
    requires s.consumer.Inner? && s.inHand.None? && s.queue != [] && 0 < s.counter < WORD - 1
    ensures Turns(s, Simplifying, 3) ==
            s.(queue := s.queue[1..], handled := s.handled + [s.queue[0]], counter := s.counter - 1)
  {
    WrappedSmall(s.counter - 1);
    var first := Turn(s, Simplifying);
    var second := Turn(first, Simplifying);
    assert first.consumer.Popped? && second.consumer.Uncounted? && second.counter == s.counter - 1;
    assert Turns(second, Simplifying, 1) == Turn(second, Simplifying);
    assert Turns(s, Simplifying, 3) == Turns(first, Simplifying, 2) == Turns(second, Simplifying, 1);
  }

  /**
   * The maximum may fall: between the comparison and the reading that is recorded the other thread may empty the queue.
   */
  lemma MaximumCanFall<W>(a: W, b: W)
    ensures var before := After(Initial([a, b]), InARow(Reading, 5));
            var after := After(Initial([a, b]),
                               InARow(Reading, 5) + (InARow(Reading, 3) + (InARow(Simplifying, 7) + [Reading])));
            before.maximum == 1 && after.maximum == 0
  {
    var s := Initial([a, b]);
    AfterTurns(s, Reading, 5);
    PushedAndRecorded(s);
    var one := Turns(s, Reading, 5);
    AfterBoth(s, InARow(Reading, 5), InARow(Reading, 3) + (InARow(Simplifying, 7) + [Reading]));
    AfterTurns(one, Reading, 3);
    var two := Turns(one, Reading, 3);
    Compared(one);
    AfterBoth(one, InARow(Reading, 3), InARow(Simplifying, 7) + [Reading]);
    AfterTurns(two, Simplifying, 7);
    Emptied(two);
    AfterBoth(two, InARow(Simplifying, 7), [Reading]);
    AfterTurn(Turns(two, Simplifying, 7), [], Reading);
    assert [] + [Reading] == [Reading];
  }

  lemma Compared<W>(s: State<W>)
    requires s.producer.Ready? && s.todo != [] && s.maximum <= s.counter < WORD - 2
    ensures Turns(s, Reading, 3) ==
            s.(todo := s.todo[1..], queue := s.queue + [s.todo[0]], counter := s.counter + 1, producer := Exceeded)
  {
    WrappedSmall(s.counter + 1);
    var first := Turn(s, Reading);
    var second := Turn(first, Reading);
    assert Turns(second, Reading, 1) == Turn(second, Reading);
    assert Turns(s, Reading, 3) == Turns(first, Reading, 2) == Turns(second, Reading, 1);
  }

  lemma Emptied<W>(s: State<W>)
    requires s.consumer.Outer? && !s.done && s.inHand.None? && |s.queue| == 2 == s.counter
    ensures Turns(s, Simplifying, 7).counter == 0 && Turns(s, Simplifying, 7).producer == s.producer
  {
    var inner := Turn(s, Simplifying);
    PoppedAndSimplified(inner);
    var less := Turns(inner, Simplifying, 3);
    PoppedAndSimplified(less);
    TurnsSplit(inner, Simplifying, 3, 3);
    assert Turns(s, Simplifying, 7) == Turns(inner, Simplifying, 6);
  }

  lemma {:induction false} TurnsSplit<W>(s: State<W>, thread: Thread, m: nat, n: nat)
    ensures Turns(s, thread, m + n) == Turns(Turns(s, thread, m), thread, n)
    decreases m
  {
    if m > 0 {
      TurnsSplit(Turn(s, thread), thread, m - 1, n);
    }
  }
}
