/**
  The game's state, gathered from the Bevy resources and entity queries into
  one immutable value: the atoms and neutrons on the board, the `GameStats`
  and `LevelStats` resources, and the two state machines. Constants and
  defaults come from `src/main.rs`.

  Bevy hands out entity ids; the model draws them from a counter `nextId`.
 */
module World {
  import opened Vectors
  import opened Neutrons
  import opened Atoms

  /** `ENERGY_RELEASED`: the score one fission is worth. */
  const EnergyReleased: real := 0.000000000032

  /** `GameState`: which screen the game is on. */
  datatype GameState = Menu | Setup | Game | Paused

  /** The `GameStats` resource. */
  datatype GameStats = GameStats(score: real, level: int, simulationSpeed: real)

  /** `GameStats::default()`. */
  const DefaultStats: GameStats := GameStats(0.0, 0, 0.5)

  /** The `LevelStats` resource: the placeable-neutron counter and the score an S needs. */
  datatype LevelStats = LevelStats(numNeutrons: int, sScore: real)

  /** `PlacementState`: placing a neutron (`NEUTRON`) or aiming the one just placed (`VELOCITY`). */
  datatype PlacementState = PlaceNeutron | SetVelocity

  datatype World = World(
    atoms: seq<Atom>,
    neutrons: seq<Neutron>,
    nextId: nat,
    stats: GameStats,
    levelStats: LevelStats,
    placement: PlacementState,
    state: GameState)

  /** Every entity id is below `nextId`, and neutron ids are distinct. */
  predicate IdsFresh(w: World) {
    (forall n :: n in w.neutrons ==> n.id < w.nextId)
    && (forall a :: a in w.atoms ==> a.id < w.nextId)
    && UniqueIds(w.neutrons)
  }

  /** `neutron_motion`: every neutron advances by its velocity for `dt` seconds at the simulation speed. */
  function MoveNeutrons(w: World, dt: real): (r: World)
    ensures |r.neutrons| == |w.neutrons|
    ensures forall i :: 0 <= i < |w.neutrons| ==> r.neutrons[i] == Move(w.neutrons[i], dt, w.stats.simulationSpeed)
    ensures r.(neutrons := w.neutrons) == w
  {
    w.(neutrons := seq(|w.neutrons|, i requires 0 <= i < |w.neutrons| => Move(w.neutrons[i], dt, w.stats.simulationSpeed)))
  }

  /** Motion keeps ids, so it keeps them fresh and distinct. */
  lemma MoveNeutronsKeepsIds(w: World, dt: real)
    requires IdsFresh(w)
    ensures IdsFresh(MoveNeutrons(w, dt))
  {
    var r := MoveNeutrons(w, dt);
    forall n | n in r.neutrons
      ensures n.id < r.nextId
    {
      var i :| 0 <= i < |r.neutrons| && r.neutrons[i] == n;
      assert w.neutrons[i] in w.neutrons;
    }
  }

  /** Two frames of motion move every neutron as far as one frame as long as both. */
  lemma MoveNeutronsAdditive(w: World, dt1: real, dt2: real)
    ensures MoveNeutrons(MoveNeutrons(w, dt1), dt2) == MoveNeutrons(w, dt1 + dt2)
  {
    var a := MoveNeutrons(MoveNeutrons(w, dt1), dt2);
    var b := MoveNeutrons(w, dt1 + dt2);
    forall i | 0 <= i < |w.neutrons|
      ensures a.neutrons[i] == b.neutrons[i]
    {
      MoveAdditive(w.neutrons[i], dt1, dt2, w.stats.simulationSpeed);
    }
  }
}
