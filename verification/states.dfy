/** The two states a cell can be in (`GameOfLife::States`). */
module States {

  /** The symbols `:alive` and `:dead`; `States.alive` and `States.dead` are
      the accessors that return them, here the constructors themselves. */
  datatype State = Alive | Dead

  /** `STATES`: the frozen list of every state, `:alive` first. */
  const STATES: seq<State> := [Alive, Dead]

  /** `States.random` is `STATES.sample`. The random source is a parameter:
      `draw` is the raw number it produced, reduced to an index of `STATES`.
      Membership in `STATES` holds of every `State`, since the enum has just
      the two values; `RandomReachesEveryState` is the converse that matters. */
  function Random(draw: nat): (s: State)
    ensures s in STATES
  {
    STATES[draw % |STATES|]
  }

  /** `STATES` lists exactly the two states, in order, each once, and no
      other state exists. */
  lemma StatesAreExactlyAliveAndDead()
    ensures |STATES| == 2 && STATES[0] == Alive && STATES[1] == Dead
    ensures Alive != Dead
    ensures forall s: State :: s in STATES
  {
    forall s: State
      ensures s in STATES
    {
      if s == Alive {
        assert STATES[0] == s;
      } else {
        assert STATES[1] == s;
      }
    }
  }

  /** Every member of `STATES` is a possible outcome of `Random`. */
  lemma RandomReachesEveryState(s: State)
    ensures exists draw: nat :: Random(draw) == s
  {
    if s == Alive {
      assert Random(0) == s;
    } else {
      assert Random(1) == s;
    }
  }
}
