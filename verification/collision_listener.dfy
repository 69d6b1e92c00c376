/**
  `collision_listener` (`src/collision.rs`): for each event, in order, the
  atom's split neutrons appear at its position and the score grows by one
  `ENERGY_RELEASED`. `CollisionStep` chains the pass of `atom_collision`, the
  despawns it queues and the listener over the events it sends, as one step.
 */
module Listener {
  import opened Wrappers
  import opened Vectors
  import opened Collision
  import opened Neutrons
  import opened Atoms
  import opened World

  /** How many neutrons an event releases: its yield when 1 to 5, otherwise none. */
  function Yield(e: CollisionEvent): nat {
    if 1 <= e.numNeutrons <= 5 then e.numNeutrons else 0
  }

  function TotalYield(events: seq<CollisionEvent>): nat {
    if |events| == 0 then 0 else Yield(events[0]) + TotalYield(events[1..])
  }

  /** The neutrons `spawn_neutron` creates for one event, with ids from `firstId` up. */
  function Offspring(t: Trig, e: CollisionEvent, firstId: nat): (r: seq<Neutron>)
    ensures |r| == Yield(e)
    ensures forall i :: 0 <= i < |r| ==>
              r[i] == SpawnNeutron(firstId + i, e.atomPosition, SplitTrajectories(t, e.neutronVelocity, e.numNeutrons).value[i])
  {
    match SplitTrajectories(t, e.neutronVelocity, e.numNeutrons)
    case None => []
    case Some(vs) => seq(|vs|, i requires 0 <= i < |vs| => SpawnNeutron(firstId + i, e.atomPosition, vs[i]))
  }

  /** Every event's offspring, in event order, with ids running on from `firstId`. */
  function Born(t: Trig, events: seq<CollisionEvent>, firstId: nat): (r: seq<Neutron>)
    ensures |r| == TotalYield(events)
  {
    if |events| == 0 then []
    else Offspring(t, events[0], firstId) + Born(t, events[1..], firstId + Yield(events[0]))
  }

  /** One iteration of the listener's loop. */
  function ResolveEvent(t: Trig, w: World, e: CollisionEvent): (r: World)
    ensures r.stats == w.stats.(score := w.stats.score + EnergyReleased)
    ensures r.neutrons == w.neutrons + Offspring(t, e, w.nextId)
    ensures r.nextId == w.nextId + Yield(e)
    ensures r.atoms == w.atoms && r.levelStats == w.levelStats
    ensures r.placement == w.placement && r.state == w.state
  {
    var born := Offspring(t, e, w.nextId);
    w.(neutrons := w.neutrons + born,
       nextId := w.nextId + |born|,
       stats := w.stats.(score := w.stats.score + EnergyReleased))
  }

  /**
    `collision_listener` over a batch of events. Every event scores, whether
    or not its yield splits; an event with a yield outside 1..5 spawns
    nothing and the loop goes on.
   */
  function CollisionListener(t: Trig, w: World, events: seq<CollisionEvent>): (r: World)
    ensures r.stats == w.stats.(score := w.stats.score + |events| as real * EnergyReleased)
    ensures |r.neutrons| == |w.neutrons| + TotalYield(events)
    ensures r.neutrons == w.neutrons + Born(t, events, w.nextId)
    ensures r.nextId == w.nextId + TotalYield(events)
    ensures r.atoms == w.atoms && r.levelStats == w.levelStats
    ensures r.placement == w.placement && r.state == w.state
    decreases |events|
  {
    if |events| == 0 then w
    else
      var w1 := ResolveEvent(t, w, events[0]);
      var r := CollisionListener(t, w1, events[1..]);
      assert Born(t, events, w.nextId) == Offspring(t, events[0], w.nextId) + Born(t, events[1..], w1.nextId);
      ConcatAssoc(w.neutrons, Offspring(t, events[0], w.nextId), Born(t, events[1..], w1.nextId));
      assert w1.stats.score + (|events| - 1) as real * EnergyReleased == w.stats.score + |events| as real * EnergyReleased;
      r
  }

  lemma ConcatAssoc<T>(a: seq<T>, b: seq<T>, c: seq<T>)
    ensures (a + b) + c == a + (b + c)
  {
  }

  /** The first event's neutrons come right after the old ones, at its atom, on its split paths. */
  lemma ListenerSpawnsFirstEvent(t: Trig, w: World, events: seq<CollisionEvent>, i: int)
    requires |events| > 0 && 0 <= i < Yield(events[0])
    ensures CollisionListener(t, w, events).neutrons[|w.neutrons| + i]
         == SpawnNeutron(w.nextId + i, events[0].atomPosition,
                         SplitTrajectories(t, events[0].neutronVelocity, events[0].numNeutrons).value[i])
  {
    var w1 := ResolveEvent(t, w, events[0]);
    var r := CollisionListener(t, w1, events[1..]);
    assert r.neutrons[..|w1.neutrons|] == w1.neutrons;
    assert r.neutrons[|w.neutrons| + i] == w1.neutrons[|w.neutrons| + i];
  }

  /** Fresh, distinct ids stay fresh and distinct as neutrons are born. */
  lemma {:induction false} ListenerKeepsIds(t: Trig, w: World, events: seq<CollisionEvent>)
    requires IdsFresh(w)
    ensures IdsFresh(CollisionListener(t, w, events))
    decreases |events|
  {
    if |events| > 0 {
      var w1 := ResolveEvent(t, w, events[0]);
      var born := Offspring(t, events[0], w.nextId);
      forall i, j | 0 <= i < j < |w1.neutrons|
        ensures w1.neutrons[i].id != w1.neutrons[j].id
      {
        if j < |w.neutrons| {
          assert w1.neutrons[i] == w.neutrons[i] && w1.neutrons[j] == w.neutrons[j];
        } else if i < |w.neutrons| {
          assert w1.neutrons[i] == w.neutrons[i];
          assert w.neutrons[i] in w.neutrons;
          assert w1.neutrons[j] == born[j - |w.neutrons|];
        } else {
          assert w1.neutrons[i] == born[i - |w.neutrons|];
          assert w1.neutrons[j] == born[j - |w.neutrons|];
        }
      }
      forall n | n in w1.neutrons
        ensures n.id < w1.nextId
      {
        if n in w.neutrons {
        } else {
          assert n in born;
          var k :| 0 <= k < |born| && born[k] == n;
        }
      }
      ListenerKeepsIds(t, w1, events[1..]);
    }
  }

  /**
    One collision step: the pass over the current board, the removal of
    the atoms that fired and the neutrons they claimed, then the listener.
   */
  function CollisionStep(t: Trig, w: World): (r: World)
    ensures r.stats == w.stats.(score := w.stats.score + CountColliding(w.atoms, w.neutrons) as real * EnergyReleased)
    ensures |r.atoms| == |w.atoms| - CountColliding(w.atoms, w.neutrons)
    ensures forall a :: a in w.atoms ==> (a in r.atoms <==> FirstHit(a, w.neutrons).None?)
    ensures r.atoms == CollisionPass(w.atoms, w.neutrons).survivors
    ensures r.neutrons == RemoveIds(w.neutrons, CollisionPass(w.atoms, w.neutrons).claimed)
                          + Born(t, CollisionPass(w.atoms, w.neutrons).events, w.nextId)
    ensures r.nextId == w.nextId + TotalYield(CollisionPass(w.atoms, w.neutrons).events)
    ensures r.levelStats == w.levelStats && r.placement == w.placement && r.state == w.state
  {
    var p := CollisionPass(w.atoms, w.neutrons);
    EventsCountCollidingAtoms(w.atoms, w.neutrons);
    var cleared := w.(atoms := p.survivors, neutrons := RemoveIds(w.neutrons, p.claimed));
    CollisionListener(t, cleared, p.events)
  }

  /** A collision step keeps entity ids fresh and distinct. */
  lemma CollisionStepKeepsIds(t: Trig, w: World)
    requires IdsFresh(w)
    ensures IdsFresh(CollisionStep(t, w))
  {
    var p := CollisionPass(w.atoms, w.neutrons);
    var kept := RemoveIds(w.neutrons, p.claimed);
    RemoveIdsKeepsUnique(w.neutrons, p.claimed);
    var cleared := w.(atoms := p.survivors, neutrons := kept);
    assert IdsFresh(cleared);
    ListenerKeepsIds(t, cleared, p.events);
  }

  lemma {:induction false} RemoveIdsKeepsUnique(ns: seq<Neutron>, ids: set<nat>)
    requires UniqueIds(ns)
    ensures UniqueIds(RemoveIds(ns, ids))
  {
    if |ns| > 0 {
      RemoveIdsKeepsUnique(ns[1..], ids);
      var rest := RemoveIds(ns[1..], ids);
      if ns[0].id !in ids {
        forall j | 0 <= j < |rest|
          ensures ns[0].id != rest[j].id
        {
          assert rest[j] in ns[1..];
        }
      }
    }
  }
}
