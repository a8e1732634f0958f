/**
 The phase of a traffic light: a closed enumeration of two values, and the
 flip between them that the light's cycling loop performs.
 */
module TrafficLightPhases {

  /** The two phases of a light. */
  datatype TrafficLightPhase = Red | Green

  /** The branch of the cycling loop that turns red into green and anything else into red. */
  function Toggle(p: TrafficLightPhase): (q: TrafficLightPhase)
    ensures q != p
    ensures q == Green <==> p == Red
  {
    if p == Red then Green else Red
  }

  /** Two consecutive flips restore the original phase. */
  lemma ToggleTwice(p: TrafficLightPhase)
    ensures Toggle(Toggle(p)) == p
  {
  }

  /** Every phase is one of the two values; this holds by construction of the
      datatype and records that the phase type is closed. */
  lemma OnlyTwoPhases(p: TrafficLightPhase)
    ensures p == Red || p == Green
  {
  }
}
