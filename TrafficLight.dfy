/**
 A traffic light: a two-phase machine that starts red, flips its phase each
 time a cycle duration has elapsed and publishes every new phase to its own
 message queue, from which `WaitForGreen` waits for a green phase. Threads,
 clocks and the random number generator are not modelled: clock readings and
 the drawn cycle duration are parameters.
 */
module TrafficLights {
  import opened TrafficLightPhases
  import opened MessageQueues

  /** The closed range of the uniformly drawn cycle duration, in milliseconds. */
  const MinCycleDuration := 4000
  const MaxCycleDuration := 6000

  /** What the cycling loop has done so far: the light's phase, the messages
      pending in its queue and the time of the last phase change. */
  datatype Cycle = Cycle(phase: TrafficLightPhase, published: seq<TrafficLightPhase>, lastUpdate: int)

  /** One pass of the cycling loop at clock reading `now`. */
  function Tick(c: Cycle, cycleDuration: int, now: int): Cycle
  {
    if now - c.lastUpdate >= cycleDuration then
      var p := Toggle(c.phase);
      Cycle(p, c.published + [p], now)
    else
      c
  }

  /** The cycling loop run over a finite list of clock readings, one per pass. */
  function Run(c: Cycle, cycleDuration: int, readings: seq<int>): Cycle
    decreases |readings|
  {
    if readings == [] then c
    else Run(Tick(c, cycleDuration, readings[0]), cycleDuration, readings[1..])
  }

  /** Each element of `s` is the opposite of the one before it. */
  predicate Alternating(s: seq<TrafficLightPhase>)
  {
    forall i :: 0 < i < |s| ==> s[i] == Toggle(s[i - 1])
  }

  /** In an alternating sequence the last phase equals the first exactly when
      the length is odd: an even number of changes restores the phase. */
  lemma {:induction false} AlternatingParity(s: seq<TrafficLightPhase>)
    requires s != [] && Alternating(s)
    ensures Last(s) == s[0] <==> |s| % 2 == 1
  {
    if |s| > 1 {
      var front := s[..|s| - 1];
      assert Alternating(front) by {
        forall i | 0 < i < |front| ensures front[i] == Toggle(front[i - 1]) {
          assert front[i] == s[i] && front[i - 1] == s[i - 1];
        }
      }
      AlternatingParity(front);
      assert Last(s) == Toggle(Last(front));
    }
  }

  /** Running the loop over two lists of readings in turn is running it over
      their concatenation, so every fact about runs holds for each piece. */
  lemma {:induction false} RunSplit(c: Cycle, cycleDuration: int, first: seq<int>, second: seq<int>)
    ensures Run(c, cycleDuration, first + second) == Run(Run(c, cycleDuration, first), cycleDuration, second)
    decreases |first|
  {
    if first != [] {
      assert (first + second)[1..] == first[1..] + second;
      RunSplit(Tick(c, cycleDuration, first[0]), cycleDuration, first[1..], second);
    } else {
      assert first + second == second;
    }
  }

  /** Over any run of the cycling loop the queue only grows. */
  lemma {:induction false} RunExtendsQueue(c: Cycle, cycleDuration: int, readings: seq<int>)
    ensures var e := Run(c, cycleDuration, readings);
      |c.published| <= |e.published| && e.published[..|c.published|] == c.published
    decreases |readings|
  {
    if readings != [] {
      var m := Tick(c, cycleDuration, readings[0]);
      RunExtendsQueue(m, cycleDuration, readings[1..]);
      var e := Run(m, cycleDuration, readings[1..]);
      var n := |c.published|;
      assert e.published[..n] == e.published[..|m.published|][..n];
    }
  }

  /** The phases a run adds to the queue, in order. */
  function Changes(c: Cycle, cycleDuration: int, readings: seq<int>): seq<TrafficLightPhase>
  {
    RunExtendsQueue(c, cycleDuration, readings);
    Run(c, cycleDuration, readings).published[|c.published|..]
  }

  /** A pass that changes the phase adds that phase in front of the changes
      the rest of the run adds. */
  lemma ChangesAfterToggle(c: Cycle, cycleDuration: int, readings: seq<int>)
    requires readings != []
    requires Tick(c, cycleDuration, readings[0]) != c
    ensures var m := Tick(c, cycleDuration, readings[0]);
      Changes(c, cycleDuration, readings) == [m.phase] + Changes(m, cycleDuration, readings[1..])
  {
    var m := Tick(c, cycleDuration, readings[0]);
    RunExtendsQueue(m, cycleDuration, readings[1..]);
    var e := Run(m, cycleDuration, readings[1..]);
    assert e == Run(c, cycleDuration, readings);
    var n := |c.published|;
    assert m.published == c.published + [m.phase];
    assert e.published[n] == m.published[n] == m.phase;
    assert e.published[n..][1..] == e.published[n + 1..];
  }

  /**
   The changes a run publishes alternate: each is the opposite of the phase
   before it, starting from the phase the run began with, and the last one is
   the light's phase at the end.
   */
  lemma {:induction false} RunChangesAlternate(c: Cycle, cycleDuration: int, readings: seq<int>)
    ensures var changes := Changes(c, cycleDuration, readings);
      && Alternating([c.phase] + changes)
      && Run(c, cycleDuration, readings).phase == Last([c.phase] + changes)
    decreases |readings|
  {
    if readings != [] {
      var m := Tick(c, cycleDuration, readings[0]);
      RunChangesAlternate(m, cycleDuration, readings[1..]);
      if m != c {
        ChangesAfterToggle(c, cycleDuration, readings);
        var rest := Changes(m, cycleDuration, readings[1..]);
        var s := [c.phase] + Changes(c, cycleDuration, readings);
        var t := [m.phase] + rest;
        assert s == [c.phase] + t;
        forall i | 0 < i < |s| ensures s[i] == Toggle(s[i - 1]) {
          if i > 1 {
            assert s[i] == t[i - 1] && s[i - 1] == t[i - 2];
          }
        }
        assert Last(s) == Last(t);
      } else {
        assert Changes(c, cycleDuration, readings) == Changes(m, cycleDuration, readings[1..]);
      }
    }
  }

  /**
   Phase changes lie at least one cycle duration apart: the time of the last
   change grows by at least a cycle duration per change, and a run without a
   change leaves everything as it was.
   */
  lemma {:induction false} RunChangesSpacedOut(c: Cycle, cycleDuration: int, readings: seq<int>)
    ensures var changes := Changes(c, cycleDuration, readings);
      var e := Run(c, cycleDuration, readings);
      && e.lastUpdate >= c.lastUpdate + |changes| * cycleDuration
      && (changes == [] ==> e == c)
    decreases |readings|
  {
    if readings != [] {
      var m := Tick(c, cycleDuration, readings[0]);
      RunChangesSpacedOut(m, cycleDuration, readings[1..]);
      var rest := Changes(m, cycleDuration, readings[1..]);
      if m != c {
        ChangesAfterToggle(c, cycleDuration, readings);
        assert |Changes(c, cycleDuration, readings)| * cycleDuration == |rest| * cycleDuration + cycleDuration;
      } else {
        assert Changes(c, cycleDuration, readings) == rest;
      }
    }
  }

  class TrafficLight {
    /** The queue of published phases (`MessageQueue<TrafficLightPhase> _queue`),
        owned by this light alone. */
    const queue: MessageQueue<TrafficLightPhase>
    /** `_currentPhase` */
    var phase: TrafficLightPhase

    /** A new light is red and has published nothing. */
    constructor ()
      ensures phase == Red
      ensures fresh(queue) && queue.pending == []
    {
      queue := new MessageQueue<TrafficLightPhase>();
      phase := Red;
    }

    /** `getCurrentPhase`: the current phase, without changing anything. */
    method GetCurrentPhase() returns (p: TrafficLightPhase)
      ensures p == phase
    {
      p := phase;
    }

    /**
     One pass of the cycling loop at clock reading `now`, with the time of the
     last change passed in as `lastUpdate` and its new value returned. Once a
     whole cycle has elapsed the phase flips, the new phase is sent to the
     queue and the last change is now; otherwise nothing changes.
     */
    method Step(cycleDuration: int, lastUpdate: int, now: int) returns (updated: int)
      requires MinCycleDuration <= cycleDuration <= MaxCycleDuration
      modifies this, queue
      ensures now - lastUpdate >= cycleDuration ==>
        && phase == Toggle(old(phase))
        && queue.pending == old(queue.pending) + [phase]
        && updated == now
      ensures now - lastUpdate >= cycleDuration ==>
        phase != old(phase) && Last(queue.pending) == phase
      ensures now - lastUpdate < cycleDuration ==>
        phase == old(phase) && queue.pending == old(queue.pending) && updated == lastUpdate
    {
      updated := lastUpdate;
      var timeSinceLastUpdate := now - lastUpdate;
      if timeSinceLastUpdate >= cycleDuration {
        if phase == Red {
          phase := Green;
        } else {
          phase := Red;
        }
        queue.Send(phase);
        updated := now;
      }
    }

    /**
     `cycleThroughPhases` cut to a finite prefix: with the duration drawn once
     and the last change set to the start time, one pass per clock reading.
     The result is the time of the last change.
     */
    method CycleThroughPhases(cycleDuration: int, start: int, readings: seq<int>) returns (lastUpdate: int)
      requires MinCycleDuration <= cycleDuration <= MaxCycleDuration
      modifies this, queue
      ensures Cycle(phase, queue.pending, lastUpdate)
           == Run(Cycle(old(phase), old(queue.pending), start), cycleDuration, readings)
    {
      lastUpdate := start;
      for i := 0 to |readings|
        invariant Run(Cycle(phase, queue.pending, lastUpdate), cycleDuration, readings[i..])
               == Run(Cycle(old(phase), old(queue.pending), start), cycleDuration, readings)
      {
        assert readings[i..][1..] == readings[i + 1..];
        lastUpdate := Step(cycleDuration, lastUpdate, readings[i]);
      }
      assert readings[|readings|..] == [];
    }

    /**
     One `receive` of `waitForGreen`: while it waits, the cycling thread's
     sends in `batch` reach the queue; it then takes the newest message.
     */
    method ReceiveAfter(batch: seq<TrafficLightPhase>) returns (msg: TrafficLightPhase)
      requires queue.pending + batch != []
      modifies queue
      ensures msg == Last(old(queue.pending) + batch)
      ensures queue.pending == []
    {
      for i := 0 to |batch|
        invariant queue.pending == old(queue.pending) + batch[..i]
      {
        queue.Send(batch[i]);
      }
      assert batch[..|batch|] == batch;
      msg := queue.Receive();
    }

    /**
     `waitForGreen`: receives until a message is green, with `arrivals[i]` the
     sends that reach the queue during the `i`-th receive. Returns the number
     of receives made: the last one got green, every earlier one got red, and
     the queue is left empty.
     */
    method WaitForGreen(arrivals: seq<seq<TrafficLightPhase>>) returns (rounds: nat)
      requires Green in Receipts(queue.pending, arrivals)
      modifies queue
      ensures var got := Receipts(old(queue.pending), arrivals);
        && 0 < rounds <= |got|
        && got[rounds - 1] == Green
        && forall i :: 0 <= i < rounds - 1 ==> got[i] == Red
      ensures queue.pending == []
    {
      ghost var got := Receipts(queue.pending, arrivals);
      ReceiptIsLatest(queue.pending, arrivals, 0);
      var msg := ReceiveAfter(arrivals[0]);
      rounds := 1;
      while msg == Red
        invariant 1 <= rounds <= |got|
        invariant msg == got[rounds - 1]
        invariant forall i :: 0 <= i < rounds - 1 ==> got[i] == Red
        invariant queue.pending == []
        decreases |got| - rounds
      {
        assert rounds < |got| by {
          var j :| 0 <= j < |got| && got[j] == Green;
          assert j >= rounds;
        }
        ReceiptIsLatest(old(queue.pending), arrivals, rounds);
        assert [] + arrivals[rounds] == arrivals[rounds];
        msg := ReceiveAfter(arrivals[rounds]);
        rounds := rounds + 1;
      }
    }
  }
}
