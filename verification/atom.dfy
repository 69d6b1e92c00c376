/**
  Atoms (`src/atom.rs`) and the collision pass `atom_collision`.

  In the source every atom, in parallel, walks the neutron query and stops
  at the first neutron whose collider overlaps its own: it then queues the
  despawn of both entities and a `CollisionEvent`. The despawns are deferred
  commands, so every atom sees the same, unchanged set of neutrons. The model
  walks the atoms in order against that one snapshot and applies the
  removals afterwards; two atoms can therefore claim the same neutron, which
  then yields two events but only one removal.
 */
module Atoms {
  import opened Wrappers
  import opened Vectors
  import opened Collision
  import opened Neutrons

  /** `ATOM_SIZE`: the drawn radius of an atom. */
  const AtomSize: real := 30.0

  /** An atom entity: its id, translation, yield (`Atom.num_neutrons`) and collider. */
  datatype Atom = Atom(id: nat, position: Vec2, numNeutrons: int, collider: Collider)

  /** `spawn_atom`: the given yield and a collider of three quarters of the atom's size. */
  function SpawnAtom(id: nat, position: Vec2, numNeutrons: int): (a: Atom)
    ensures a.id == id && a.position == position && a.numNeutrons == numNeutrons
    ensures a.collider.radius == 22.5
  {
    Atom(id, position, numNeutrons, Collider(AtomSize * 0.75))
  }

  /** The overlap test of the pass, atom first as in the source. */
  predicate Hits(a: Atom, n: Neutron) {
    IsColliding(a.position, a.collider, n.position, n.collider)
  }

  /** The index of the first neutron at or after `from` that overlaps `a`. */
  function FirstHitFrom(a: Atom, ns: seq<Neutron>, from: nat): (r: Option<nat>)
    requires from <= |ns|
    ensures r.Some? ==> from <= r.value < |ns| && Hits(a, ns[r.value])
    ensures r.Some? ==> forall j :: from <= j < r.value ==> !Hits(a, ns[j])
    ensures r.None? ==> forall j :: from <= j < |ns| ==> !Hits(a, ns[j])
    decreases |ns| - from
  {
    if from == |ns| then None
    else if Hits(a, ns[from]) then Some(from)
    else FirstHitFrom(a, ns, from + 1)
  }

  /** The neutron an atom claims in a pass: the first one, in query order, that overlaps it. */
  function FirstHit(a: Atom, ns: seq<Neutron>): (r: Option<nat>)
    ensures r.Some? ==> r.value < |ns| && Hits(a, ns[r.value])
    ensures r.Some? ==> forall j :: 0 <= j < r.value ==> !Hits(a, ns[j])
    ensures r.None? <==> forall j :: 0 <= j < |ns| ==> !Hits(a, ns[j])
  {
    FirstHitFrom(a, ns, 0)
  }

  /** The event an atom sends for the neutron it claimed. */
  function EventFor(a: Atom, n: Neutron): CollisionEvent {
    CollisionEvent(n.velocity, a.position, a.numNeutrons)
  }

  /** The outcome of one pass: atoms left standing, ids of claimed neutrons, events in atom order. */
  datatype Pass = Pass(survivors: seq<Atom>, claimed: set<nat>, events: seq<CollisionEvent>)

  /** Whether atom `a` claims the neutron with this id. */
  predicate Claims(a: Atom, ns: seq<Neutron>, id: nat) {
    FirstHit(a, ns).Some? && ns[FirstHit(a, ns).value].id == id
  }

  /** `atom_collision`: every atom scans the same snapshot `ns` of the neutrons. */
  function CollisionPass(atoms: seq<Atom>, ns: seq<Neutron>): (p: Pass)
    ensures |p.survivors| + |p.events| == |atoms|
    ensures forall a :: a in p.survivors ==> a in atoms
    ensures forall a :: a in atoms ==> (a in p.survivors <==> FirstHit(a, ns).None?)
    ensures forall id :: id in p.claimed <==> exists a :: a in atoms && Claims(a, ns, id)
  {
    if |atoms| == 0 then Pass([], {}, [])
    else
      var rest := CollisionPass(atoms[1..], ns);
      assert forall a :: a in atoms <==> a == atoms[0] || a in atoms[1..];
      match FirstHit(atoms[0], ns)
      case None =>
        Pass([atoms[0]] + rest.survivors, rest.claimed, rest.events)
      case Some(i) =>
        Pass(rest.survivors, {ns[i].id} + rest.claimed, [EventFor(atoms[0], ns[i])] + rest.events)
  }

  /** The number of atoms that overlap some neutron of the snapshot. */
  function CountColliding(atoms: seq<Atom>, ns: seq<Neutron>): nat {
    if |atoms| == 0 then 0
    else (if FirstHit(atoms[0], ns).Some? then 1 else 0) + CountColliding(atoms[1..], ns)
  }

  /** One event per colliding atom, however many of them share a neutron. */
  lemma {:induction false} EventsCountCollidingAtoms(atoms: seq<Atom>, ns: seq<Neutron>)
    ensures |CollisionPass(atoms, ns).events| == CountColliding(atoms, ns)
    ensures |CollisionPass(atoms, ns).survivors| == |atoms| - CountColliding(atoms, ns)
  {
    if |atoms| > 0 {
      EventsCountCollidingAtoms(atoms[1..], ns);
    }
  }

  /**
    The events come in atom order, one per colliding atom: the event of the
    `k`-th atom, when it collides, sits after those of the colliding atoms
    before it. With `EventsCountCollidingAtoms` this fixes `p.events`
    entirely.
   */
  lemma {:induction false} EventsInAtomOrder(atoms: seq<Atom>, ns: seq<Neutron>, k: int)
    requires 0 <= k < |atoms| && FirstHit(atoms[k], ns).Some?
    ensures CountColliding(atoms[..k], ns) < |CollisionPass(atoms, ns).events|
    ensures CollisionPass(atoms, ns).events[CountColliding(atoms[..k], ns)]
         == EventFor(atoms[k], ns[FirstHit(atoms[k], ns).value])
  {
    var hd := if FirstHit(atoms[0], ns).Some? then [EventFor(atoms[0], ns[FirstHit(atoms[0], ns).value])] else [];
    PassEventsUnfold(atoms, ns);
    if k > 0 {
      CountCollidingPrefix(atoms, ns, k);
      assert atoms[1..][k - 1] == atoms[k];
      EventsInAtomOrder(atoms[1..], ns, k - 1);
      IndexPastPrefix(hd, CollisionPass(atoms[1..], ns).events, CountColliding(atoms[1..][..k - 1], ns));
    } else {
      assert atoms[..k] == [];
    }
  }

  /** Every event is the event of some colliding atom. */
  lemma {:induction false} EventsFromCollidingAtoms(atoms: seq<Atom>, ns: seq<Neutron>, j: int)
    requires 0 <= j < |CollisionPass(atoms, ns).events|
    ensures exists k :: 0 <= k < |atoms| && FirstHit(atoms[k], ns).Some?
                        && CollisionPass(atoms, ns).events[j] == EventFor(atoms[k], ns[FirstHit(atoms[k], ns).value])
  {
    var rest := CollisionPass(atoms[1..], ns).events;
    var hd := if FirstHit(atoms[0], ns).Some? then [EventFor(atoms[0], ns[FirstHit(atoms[0], ns).value])] else [];
    PassEventsUnfold(atoms, ns);
    if j < |hd| {
      assert CollisionPass(atoms, ns).events[j] == EventFor(atoms[0], ns[FirstHit(atoms[0], ns).value]);
    } else {
      IndexPastPrefix(hd, rest, j - |hd|);
      EventsFromCollidingAtoms(atoms[1..], ns, j - |hd|);
      var k :| 0 <= k < |atoms[1..]| && FirstHit(atoms[1..][k], ns).Some?
               && rest[j - |hd|] == EventFor(atoms[1..][k], ns[FirstHit(atoms[1..][k], ns).value]);
      assert atoms[1..][k] == atoms[k + 1];
    }
  }

  lemma IndexPastPrefix<T>(hd: seq<T>, rest: seq<T>, c: int)
    requires 0 <= c < |rest|
    ensures (hd + rest)[|hd| + c] == rest[c]
  {
  }

  /** The first atom's event, if any, comes before those of the rest. */
  lemma PassEventsUnfold(atoms: seq<Atom>, ns: seq<Neutron>)
    requires |atoms| > 0
    ensures CollisionPass(atoms, ns).events
         == (if FirstHit(atoms[0], ns).Some? then [EventFor(atoms[0], ns[FirstHit(atoms[0], ns).value])] else [])
            + CollisionPass(atoms[1..], ns).events
  {
  }

  lemma CountCollidingPrefix(atoms: seq<Atom>, ns: seq<Neutron>, k: int)
    requires 0 < k <= |atoms|
    ensures CountColliding(atoms[..k], ns)
         == (if FirstHit(atoms[0], ns).Some? then 1 else 0) + CountColliding(atoms[1..][..k - 1], ns)
  {
    assert atoms[..k][1..] == atoms[1..][..k - 1];
    assert atoms[..k][0] == atoms[0];
  }

  /** `ns` without the neutrons whose ids are in `ids`, order kept. */
  function RemoveIds(ns: seq<Neutron>, ids: set<nat>): (r: seq<Neutron>)
    ensures forall n :: n in r <==> n in ns && n.id !in ids
    ensures |r| <= |ns|
  {
    if |ns| == 0 then []
    else if ns[0].id in ids then RemoveIds(ns[1..], ids)
    else [ns[0]] + RemoveIds(ns[1..], ids)
  }

  /** Neutron ids are distinct. */
  predicate UniqueIds(ns: seq<Neutron>) {
    forall i, j :: 0 <= i < j < |ns| ==> ns[i].id != ns[j].id
  }

  /**
    With distinct ids, a neutron disappears in the pass exactly when it is
    the first overlapping neutron of some atom. In particular a neutron that
    overlaps no atom survives.
   */
  lemma NeutronRemovedIffClaimed(atoms: seq<Atom>, ns: seq<Neutron>, i: int)
    requires UniqueIds(ns) && 0 <= i < |ns|
    ensures ns[i] !in RemoveIds(ns, CollisionPass(atoms, ns).claimed)
        <==> exists a :: a in atoms && FirstHit(a, ns) == Some(i)
  {
    var p := CollisionPass(atoms, ns);
    if ns[i] !in RemoveIds(ns, p.claimed) {
      var a :| a in atoms && Claims(a, ns, ns[i].id);
      assert FirstHit(a, ns) == Some(i);
    }
  }

  /** A neutron that overlaps no atom is left in place. */
  lemma UntouchedNeutronSurvives(atoms: seq<Atom>, ns: seq<Neutron>, i: int)
    requires UniqueIds(ns) && 0 <= i < |ns|
    requires forall a :: a in atoms ==> !Hits(a, ns[i])
    ensures ns[i] in RemoveIds(ns, CollisionPass(atoms, ns).claimed)
  {
    NeutronRemovedIffClaimed(atoms, ns, i);
  }

  /**
    Two atoms overlapping the same lone neutron both fire: the pass sends two
    events but removes one neutron.
   */
  lemma TwoAtomsCanClaimOneNeutron()
    ensures var atoms := [SpawnAtom(0, Vec2(0.0, 0.0), 2), SpawnAtom(1, Vec2(10.0, 0.0), 2)];
            var ns := [SpawnNeutron(2, Vec2(5.0, 0.0), Vec2(1.0, 0.0))];
            var p := CollisionPass(atoms, ns);
            |p.events| == 2 && |RemoveIds(ns, p.claimed)| == 0
  {
    var atoms := [SpawnAtom(0, Vec2(0.0, 0.0), 2), SpawnAtom(1, Vec2(10.0, 0.0), 2)];
    var ns := [SpawnNeutron(2, Vec2(5.0, 0.0), Vec2(1.0, 0.0))];
    assert Hits(atoms[0], ns[0]);
    assert Hits(atoms[1], ns[0]);
    assert FirstHit(atoms[0], ns) == Some(0);
    assert FirstHit(atoms[1], ns) == Some(0);
    var p := CollisionPass(atoms, ns);
    assert Claims(atoms[0], ns, 2);
    assert p.claimed == {2};
  }
}
