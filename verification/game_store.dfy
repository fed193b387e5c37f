/** The session store shared by the whole game: the phase of the session
    (ready, playing, ended) and the game mode (versus or co-op), changed by
    four guarded actions. */
module GameStore {

  datatype Phase = Ready | Playing | Ended

  datatype Mode = Versus | Coop

  datatype GameState = GameState(phase: Phase, mode: Mode)

  /** The store's actions. */
  datatype StoreAction = Start | Restart | End | SetMode(mode: Mode)

  /** The state of a new store. */
  const Initial: GameState := GameState(Ready, Versus)

  /** The state after one action: start only leaves ready, end only leaves
      playing, restart always goes back to ready, and choosing a mode
      touches nothing else. */
  function Apply(s: GameState, a: StoreAction): GameState
  {
    match a
    case Start => if s.phase == Ready then s.(phase := Playing) else s
    case Restart => s.(phase := Ready)
    case End => if s.phase == Playing then s.(phase := Ended) else s
    case SetMode(m) => s.(mode := m)
  }

  /** The phase graph of one action: the session enters playing only from
      ready by start, and enters ended only from playing by end; restart
      always yields ready; a mode change never moves the phase, and no
      other action changes the mode. In particular no action takes an
      ended session straight back to playing. */
  lemma PhaseTransitions(s: GameState, a: StoreAction)
    ensures var t := Apply(s, a);
      && (t.phase == Playing && s.phase != Playing ==> s.phase == Ready && a == Start)
      && (t.phase == Ended && s.phase != Ended ==> s.phase == Playing && a == End)
      && (a == Restart ==> t.phase == Ready)
      && (a.SetMode? ==> t.phase == s.phase && t.mode == a.mode)
      && (!a.SetMode? ==> t.mode == s.mode)
      && (s.phase == Ended ==> t.phase != Playing)
  {
  }

  /** The state after a sequence of actions, applied in order. */
  function Run(s: GameState, actions: seq<StoreAction>): GameState
    decreases |actions|
  {
    if actions == [] then s else Run(Apply(s, actions[0]), actions[1..])
  }

  /** A session that is not playing gets there only through a start. */
  lemma {:induction false} PlayingNeedsStart(s: GameState, actions: seq<StoreAction>)
    requires s.phase != Playing && Run(s, actions).phase == Playing
    ensures exists j :: 0 <= j < |actions| && actions[j] == Start
    decreases |actions|
  {
    if actions[0] != Start {
      PhaseTransitions(s, actions[0]);
      PlayingNeedsStart(Apply(s, actions[0]), actions[1..]);
      var j :| 0 <= j < |actions[1..]| && actions[1..][j] == Start;
      assert actions[j + 1] == Start;
    }
  }

  /** An ended session plays again only after a restart followed, later, by
      a start. */
  lemma {:induction false} EndedPlaysAgainOnlyAfterRestart(s: GameState, actions: seq<StoreAction>)
    requires s.phase == Ended && Run(s, actions).phase == Playing
    ensures exists i, j :: 0 <= i < j < |actions| && actions[i] == Restart && actions[j] == Start
    decreases |actions|
  {
    var t := Apply(s, actions[0]);
    var rest := actions[1..];
    if actions[0] == Restart {
      PlayingNeedsStart(t, rest);
      var j :| 0 <= j < |rest| && rest[j] == Start;
      assert actions[0] == Restart && actions[j + 1] == Start;
    } else {
      assert t.phase == Ended;
      EndedPlaysAgainOnlyAfterRestart(t, rest);
      var i, j :| 0 <= i < j < |rest| && rest[i] == Restart && rest[j] == Start;
      assert actions[i + 1] == Restart && actions[j + 1] == Start;
    }
  }

  /** The store as the game keeps it: two fields changed by the actions. */
  class Store {
    var phase: Phase
    var mode: Mode

    function State(): GameState
      reads this
    {
      GameState(phase, mode)
    }

    /** A new store: ready, in versus mode. */
    constructor ()
      ensures State() == Initial
    {
      phase := Ready;
      mode := Versus;
    }

    /** Begin the session if it is ready; otherwise nothing changes. */
    method Start()
      modifies this
      ensures State() == Apply(old(State()), StoreAction.Start)
      ensures old(phase) == Ready ==> phase == Playing
      ensures old(phase) != Ready ==> State() == old(State())
    {
      if phase == Ready {
        phase := Playing;
      }
    }

    /** Go back to ready from any phase. */
    method Restart()
      modifies this
      ensures State() == Apply(old(State()), StoreAction.Restart)
      ensures phase == Ready && mode == old(mode)
    {
      phase := Ready;
    }

    /** End the session if it is playing; otherwise nothing changes. */
    method End()
      modifies this
      ensures State() == Apply(old(State()), StoreAction.End)
      ensures old(phase) == Playing ==> phase == Ended
      ensures old(phase) != Playing ==> State() == old(State())
    {
      if phase == Playing {
        phase := Ended;
      }
    }

    /** Choose the game mode; the phase stays as it is. */
    method SetMode(m: Mode)
      modifies this
      ensures State() == Apply(old(State()), StoreAction.SetMode(m))
      ensures mode == m && phase == old(phase)
    {
      mode := m;
    }
  }
}
