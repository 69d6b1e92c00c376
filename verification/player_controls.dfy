/**
  The set-up phase of a level (`src/player_controls.rs`): placing neutrons
  with the left button, aiming them, removing them with the right button,
  and starting the simulation with Space.

  A left click in the `NEUTRON` placement state drops a resting neutron
  carrying the `PlacementMarker` at the cursor and moves to `VELOCITY`; the
  next left click gives that neutron its velocity, spends one placeable
  neutron and moves back to `NEUTRON`. The cursor is a world-space point;
  the camera projection that produces it is not modelled.
 */
module PlayerControls {
  import opened Wrappers
  import opened Vectors
  import opened Util
  import opened Collision
  import opened Neutrons
  import opened Atoms
  import opened World

  /** The number of neutrons still carrying the `PlacementMarker`. */
  function CountMarked(ns: seq<Neutron>): (c: nat)
    ensures c <= |ns|
  {
    if |ns| == 0 then 0 else (if ns[0].marked then 1 else 0) + CountMarked(ns[1..])
  }

  /** Neutrons already aimed: every neutron without the marker. */
  function CountArmed(ns: seq<Neutron>): nat {
    |ns| - CountMarked(ns)
  }

  lemma {:induction false} CountMarkedAppend(a: seq<Neutron>, b: seq<Neutron>)
    ensures CountMarked(a + b) == CountMarked(a) + CountMarked(b)
    decreases |a|
  {
    if |a| > 0 {
      assert (a + b)[1..] == a[1..] + b;
      CountMarkedAppend(a[1..], b);
    } else {
      assert a + b == b;
    }
  }

  /** Removing the neutron at `i` drops the count by one exactly when it was marked. */
  lemma CountMarkedRemove(ns: seq<Neutron>, i: int)
    requires 0 <= i < |ns|
    ensures CountMarked(ns[..i] + ns[i + 1..]) == CountMarked(ns) - (if ns[i].marked then 1 else 0)
  {
    assert ns[..i] + ns[i..] == ns;
    assert ns[i..][1..] == ns[i + 1..];
    CountMarkedAppend(ns[..i], ns[i..]);
    CountMarkedAppend(ns[..i], ns[i + 1..]);
  }

  /** Replacing the neutron at `i` changes the count by the change in its own mark. */
  lemma CountMarkedUpdate(ns: seq<Neutron>, i: int, n: Neutron)
    requires 0 <= i < |ns|
    ensures CountMarked(ns[i := n]) == CountMarked(ns) - (if ns[i].marked then 1 else 0) + (if n.marked then 1 else 0)
  {
    assert ns == ns[..i] + ([ns[i]] + ns[i + 1..]);
    assert ns[i := n] == ns[..i] + ([n] + ns[i + 1..]);
    CountMarkedAppend(ns[..i], [ns[i]] + ns[i + 1..]);
    CountMarkedAppend(ns[..i], [n] + ns[i + 1..]);
  }

  /** The index of the first marked neutron, the one `single_mut` finds when there is exactly one. */
  function MarkedIndex(ns: seq<Neutron>): (i: nat)
    requires CountMarked(ns) >= 1
    ensures i < |ns| && ns[i].marked
    ensures forall j :: 0 <= j < i ==> !ns[j].marked
  {
    if |ns| == 0 || ns[0].marked then 0 else 1 + MarkedIndex(ns[1..])
  }

  /**
    The scan over the atoms of the `NEUTRON` branch: a neutron drawn with
    `Collider::new(NEUTRON_SIZE)` at the cursor would overlap some atom.
   */
  predicate CursorOverAtom(atoms: seq<Atom>, cursor: Vec2) {
    |atoms| > 0 && (IsColliding(atoms[0].position, atoms[0].collider, cursor, Collider(NeutronSize))
                    || CursorOverAtom(atoms[1..], cursor))
  }

  lemma {:induction false} CursorOverAtomIffSomeAtom(atoms: seq<Atom>, cursor: Vec2)
    ensures CursorOverAtom(atoms, cursor)
        <==> exists a :: a in atoms && IsColliding(a.position, a.collider, cursor, Collider(NeutronSize))
  {
    if |atoms| > 0 {
      CursorOverAtomIffSomeAtom(atoms[1..], cursor);
      assert forall a :: a in atoms <==> a == atoms[0] || a in atoms[1..];
    }
  }

  /** The velocity the commit click requests: seven and a half times the offset from the neutron to the cursor. */
  function Aim(w: World, cursor: Vec2): Vec2
    requires CountMarked(w.neutrons) >= 1
  {
    Scale(Sub(cursor, w.neutrons[MarkedIndex(w.neutrons)].position), 7.5)
  }

  /**
    `player_place_neutrons` for a left click at `cursor`. `aimLen` is the
    length of `Aim(w, cursor)`; the click in the `VELOCITY` state asks for
    exactly one marked neutron, as `single_mut` does. An aim of length zero,
    which the source turns into a NaN velocity, leaves the neutron at rest.
   */
  function LeftClick(w: World, cursor: Vec2, aimLen: real): (r: World)
    requires w.levelStats.numNeutrons > 0 && w.placement == SetVelocity ==>
               CountMarked(w.neutrons) == 1 && IsLength(aimLen, Aim(w, cursor))
    ensures w.levelStats.numNeutrons <= 0 ==> r == w
    ensures w.levelStats.numNeutrons > 0 && w.placement == PlaceNeutron ==>
              if CursorOverAtom(w.atoms, cursor) then r == w
              else r == w.(neutrons := w.neutrons + [SpawnMarkedNeutron(w.nextId, cursor)],
                           nextId := w.nextId + 1, placement := SetVelocity)
    ensures w.levelStats.numNeutrons > 0 && w.placement == SetVelocity ==>
              && |r.neutrons| == |w.neutrons|
              && CountMarked(r.neutrons) == 0
              && r.levelStats.numNeutrons == w.levelStats.numNeutrons - 1
              && r.placement == PlaceNeutron
              && (forall j :: 0 <= j < |w.neutrons| && !w.neutrons[j].marked ==> r.neutrons[j] == w.neutrons[j])
              && (aimLen >= 0.1 && aimLen <= 1500.0 ==> r.neutrons[MarkedIndex(w.neutrons)].velocity == Aim(w, cursor))
              && r.neutrons[MarkedIndex(w.neutrons)]
                 == w.neutrons[MarkedIndex(w.neutrons)].(velocity := r.neutrons[MarkedIndex(w.neutrons)].velocity, marked := false)
              && r.levelStats.sScore == w.levelStats.sScore
              && r.(neutrons := w.neutrons, levelStats := w.levelStats, placement := w.placement) == w
  {
    if w.levelStats.numNeutrons <= 0 then w
    else if w.placement == PlaceNeutron then
      if CursorOverAtom(w.atoms, cursor) then w
      else w.(neutrons := w.neutrons + [SpawnMarkedNeutron(w.nextId, cursor)],
              nextId := w.nextId + 1, placement := SetVelocity)
    else
      var i := MarkedIndex(w.neutrons);
      var v := match ClampVecByLength(Aim(w, cursor), aimLen, 0.1, 1500.0)
               case None => Zero
               case Some(u) => u;
      var armed := w.neutrons[i].(velocity := v, marked := false);
      CountMarkedUpdate(w.neutrons, i, armed);
      w.(neutrons := w.neutrons[i := armed],
         levelStats := w.levelStats.(numNeutrons := w.levelStats.numNeutrons - 1),
         placement := PlaceNeutron)
  }

  /**
    For an aim of positive length, the commit click gives the marked neutron
    a velocity along the aim whose length is the aim's length clamped to
    `[0.1, 1500]`.
   */
  lemma CommitVelocityIsClampedAim(w: World, cursor: Vec2, aimLen: real)
    requires w.levelStats.numNeutrons > 0 && w.placement == SetVelocity
    requires CountMarked(w.neutrons) == 1 && IsLength(aimLen, Aim(w, cursor)) && aimLen > 0.0
    ensures IsLength(Clamp(aimLen, 0.1, 1500.0), LeftClick(w, cursor, aimLen).neutrons[MarkedIndex(w.neutrons)].velocity)
    ensures exists k :: k > 0.0 && LeftClick(w, cursor, aimLen).neutrons[MarkedIndex(w.neutrons)].velocity == Scale(Aim(w, cursor), k)
  {
    var aim := Aim(w, cursor);
    LengthZeroIffZero(aimLen, aim);
    ClampVecKeepsDirection(aim, aimLen, 0.1, 1500.0);
    ClampVecLength(aim, aimLen, 0.1, 1500.0);
  }

  /** The first neutron, in query order, whose collider contains the cursor. */
  function FirstContaining(ns: seq<Neutron>, cursor: Vec2, from: nat): (r: Option<nat>)
    requires from <= |ns|
    ensures r.Some? ==> from <= r.value < |ns| && IsCordsInCollider(cursor, ns[r.value].position, ns[r.value].collider)
    ensures r.Some? ==> forall j :: from <= j < r.value ==> !IsCordsInCollider(cursor, ns[j].position, ns[j].collider)
    ensures r.None? ==> forall j :: from <= j < |ns| ==> !IsCordsInCollider(cursor, ns[j].position, ns[j].collider)
    decreases |ns| - from
  {
    if from == |ns| then None
    else if IsCordsInCollider(cursor, ns[from].position, ns[from].collider) then Some(from)
    else FirstContaining(ns, cursor, from + 1)
  }

  /** The neutrons with the one at `i` despawned. */
  function Without(ns: seq<Neutron>, i: nat): (r: seq<Neutron>)
    requires i < |ns|
    ensures |r| == |ns| - 1
    ensures forall j :: 0 <= j < |r| ==> r[j] == (if j < i then ns[j] else ns[j + 1])
  {
    ns[..i] + ns[i + 1..]
  }

  /**
    `player_remove_neutron` as written: the first neutron under the cursor
    is despawned; in `NEUTRON` one placeable neutron is refunded, and in
    `VELOCITY` the state returns to `NEUTRON`, whichever neutron was hit.
   */
  function RemoveNeutronAsWritten(w: World, cursor: Vec2): (r: World)
    ensures FirstContaining(w.neutrons, cursor, 0).None? ==> r == w
    ensures FirstContaining(w.neutrons, cursor, 0).Some? ==>
              var i := FirstContaining(w.neutrons, cursor, 0).value;
              && r.neutrons == Without(w.neutrons, i)
              && r.placement == PlaceNeutron
              && r.levelStats.numNeutrons == w.levelStats.numNeutrons + (if w.placement == PlaceNeutron then 1 else 0)
    ensures r.levelStats.sScore == w.levelStats.sScore
    ensures r.(neutrons := w.neutrons, levelStats := w.levelStats, placement := w.placement) == w
  {
    match FirstContaining(w.neutrons, cursor, 0)
    case None => w
    case Some(i) =>
      if w.placement == PlaceNeutron then
        w.(neutrons := Without(w.neutrons, i),
           levelStats := w.levelStats.(numNeutrons := w.levelStats.numNeutrons + 1))
      else
        w.(neutrons := Without(w.neutrons, i), placement := PlaceNeutron)
  }

  /**
    Removal as evidently intended: removing the neutron still awaiting its
    velocity cancels the placement, which cost nothing yet; removing an aimed
    neutron refunds it and leaves any placement in progress alone.
   */
  function RemoveNeutron(w: World, cursor: Vec2): (r: World)
    ensures FirstContaining(w.neutrons, cursor, 0).None? ==> r == w
    ensures FirstContaining(w.neutrons, cursor, 0).Some? ==>
              var i := FirstContaining(w.neutrons, cursor, 0).value;
              && r.neutrons == Without(w.neutrons, i)
              && (w.neutrons[i].marked ==> r.placement == PlaceNeutron && r.levelStats == w.levelStats)
              && (!w.neutrons[i].marked ==> r.placement == w.placement
                                            && r.levelStats.numNeutrons == w.levelStats.numNeutrons + 1)
    ensures r.levelStats.sScore == w.levelStats.sScore
    ensures r.(neutrons := w.neutrons, levelStats := w.levelStats, placement := w.placement) == w
  {
    match FirstContaining(w.neutrons, cursor, 0)
    case None => w
    case Some(i) =>
      if w.neutrons[i].marked then
        w.(neutrons := Without(w.neutrons, i), placement := PlaceNeutron)
      else
        w.(neutrons := Without(w.neutrons, i),
           levelStats := w.levelStats.(numNeutrons := w.levelStats.numNeutrons + 1))
  }

  /**
    The placement invariant of a level that grants `budget` neutrons: the
    counter never goes negative, every aimed neutron was paid for, and a
    marker exists exactly while a velocity is awaited.
   */
  predicate PlacementInv(w: World, budget: int) {
    && w.levelStats.numNeutrons >= 0
    && w.levelStats.numNeutrons + CountArmed(w.neutrons) == budget
    && CountMarked(w.neutrons) == (if w.placement == SetVelocity then 1 else 0)
    && (w.placement == SetVelocity ==> w.levelStats.numNeutrons >= 1)
  }

  /** A freshly loaded level, with no neutrons on the board, satisfies the invariant. */
  lemma SetupStartsInvariant(w: World)
    requires w.neutrons == [] && w.placement == PlaceNeutron && w.levelStats.numNeutrons >= 0
    ensures PlacementInv(w, w.levelStats.numNeutrons)
  {
  }

  /** Under the invariant a commit click always finds exactly the one marker `single_mut` needs. */
  lemma InvariantGivesSingleMarker(w: World, budget: int)
    requires PlacementInv(w, budget) && w.placement == SetVelocity
    ensures w.levelStats.numNeutrons > 0 && CountMarked(w.neutrons) == 1
  {
  }

  /** Left clicks keep the invariant. */
  lemma LeftClickKeepsInvariant(w: World, cursor: Vec2, aimLen: real, budget: int)
    requires PlacementInv(w, budget)
    requires w.placement == SetVelocity ==> IsLength(aimLen, Aim(w, cursor))
    ensures PlacementInv(LeftClick(w, cursor, aimLen), budget)
  {
    if w.levelStats.numNeutrons > 0 && w.placement == PlaceNeutron && !CursorOverAtom(w.atoms, cursor) {
      CountMarkedAppend(w.neutrons, [SpawnMarkedNeutron(w.nextId, cursor)]);
    }
  }

  /** The corrected removal keeps the invariant. */
  lemma RemoveNeutronKeepsInvariant(w: World, cursor: Vec2, budget: int)
    requires PlacementInv(w, budget)
    ensures PlacementInv(RemoveNeutron(w, cursor), budget)
  {
    match FirstContaining(w.neutrons, cursor, 0)
    case None =>
    case Some(i) =>
      CountMarkedRemove(w.neutrons, i);
  }

  /** While placing, and whenever the marked neutron itself is hit, the two removals agree. */
  lemma RemovalsAgreeOutsideTheFault(w: World, cursor: Vec2, budget: int)
    requires PlacementInv(w, budget)
    requires FirstContaining(w.neutrons, cursor, 0).Some? ==>
               w.placement == PlaceNeutron || w.neutrons[FirstContaining(w.neutrons, cursor, 0).value].marked
    ensures RemoveNeutronAsWritten(w, cursor) == RemoveNeutron(w, cursor)
  {
    match FirstContaining(w.neutrons, cursor, 0)
    case None =>
    case Some(i) =>
      if w.placement == PlaceNeutron && w.neutrons[i].marked {
        CountMarkedRemove(w.neutrons, i);
      }
  }

  /**
    With a budget of one neutron, as every shipped level grants, the only
    neutron on the board while a velocity is awaited is the marked one, so
    the two removals always agree.
   */
  lemma RemovalsAgreeOnBudgetOne(w: World, cursor: Vec2)
    requires PlacementInv(w, 1)
    ensures RemoveNeutronAsWritten(w, cursor) == RemoveNeutron(w, cursor)
  {
    match FirstContaining(w.neutrons, cursor, 0)
    case None =>
    case Some(i) =>
      CountMarkedRemove(w.neutrons, i);
  }

  /** A neutron placed by a left click overlaps no atom with its own, smaller, collider. */
  lemma PlacedNeutronClearOfAtoms(w: World, cursor: Vec2, aimLen: real, a: Atom)
    requires w.levelStats.numNeutrons > 0 && w.placement == PlaceNeutron
    requires !CursorOverAtom(w.atoms, cursor) && a in w.atoms
    ensures !Hits(a, LeftClick(w, cursor, aimLen).neutrons[|w.neutrons|])
  {
    var n := LeftClick(w, cursor, aimLen).neutrons[|w.neutrons|];
    CursorOverAtomIffSomeAtom(w.atoms, cursor);
    if Hits(a, n) {
      CollidingMonotone(a.position, a.collider, cursor, n.collider, Collider(NeutronSize));
    }
  }

  /**
    `player_end_setup`: Space in the set-up screen starts the simulation,
    unless a placed neutron still awaits its velocity.
   */
  function EndSetup(w: World, spacePressed: bool): (r: World)
    ensures r.state == Game <==> w.state == Game || (w.state == Setup && spacePressed && w.placement == PlaceNeutron)
    ensures r.state == Game || r.state == w.state
    ensures r.(state := w.state) == w
  {
    if w.state == Setup && spacePressed && w.placement == PlaceNeutron then w.(state := Game) else w
  }

  /** Under the invariant, the simulation starts with every placed neutron aimed. */
  lemma GameStartsWithoutMarkers(w: World, budget: int)
    requires PlacementInv(w, budget) && w.state == Setup
    requires EndSetup(w, true).state == Game
    ensures CountMarked(w.neutrons) == 0
  {
  }

  /** A set-up screen without atoms: its neutrons, next id, neutrons left to place and placement state. */
  function AtomlessBoard(ns: seq<Neutron>, nextId: nat, left: int, p: PlacementState): World {
    World([], ns, nextId, DefaultStats, LevelStats(left, 0.0), p, Setup)
  }

  const TwoNeutronBoard: World := AtomlessBoard([], 0, 2, PlaceNeutron)

  const FirstMarked: Neutron := SpawnMarkedNeutron(0, Vec2(0.0, 0.0))

  const SecondMarked: Neutron := SpawnMarkedNeutron(1, Vec2(100.0, 0.0))

  const ThirdMarked: Neutron := SpawnMarkedNeutron(2, Vec2(200.0, 0.0))

  /** The first neutron once aimed, with whatever velocity the commit click gave it. */
  function FirstAimed(v: Vec2): Neutron {
    FirstMarked.(velocity := v, marked := false)
  }

  /** The boards of the play below, one per click. */
  const Placed1: World := AtomlessBoard([FirstMarked], 1, 2, SetVelocity)

  function Aimed1(v: Vec2): World {
    AtomlessBoard([FirstAimed(v)], 1, 1, PlaceNeutron)
  }

  function Placed2(v: Vec2): World {
    AtomlessBoard([FirstAimed(v), SecondMarked], 2, 1, SetVelocity)
  }

  const Removed1: World := AtomlessBoard([SecondMarked], 2, 1, PlaceNeutron)
  const Placed3: World := AtomlessBoard([SecondMarked, ThirdMarked], 3, 1, SetVelocity)

  lemma PlayPlaceFirst()
    ensures LeftClick(TwoNeutronBoard, Vec2(0.0, 0.0), 0.0) == Placed1
  {
  }

  lemma UpdateSingleton(a: Neutron, b: Neutron)
    ensures [a][0 := b] == [b]
  {
  }

  /** Aiming the first neutron, whatever the aim: it loses its marker and one neutron is spent. */
  lemma PlayAimFirst(cursor: Vec2, aimLen: real)
    requires IsLength(aimLen, Aim(Placed1, cursor))
    ensures LeftClick(Placed1, cursor, aimLen) == Aimed1(LeftClick(Placed1, cursor, aimLen).neutrons[0].velocity)
  {
    var v := LeftClick(Placed1, cursor, aimLen).neutrons[0].velocity;
    UpdateSingleton(FirstMarked, FirstAimed(v));
  }

  lemma PlayPlaceSecond(v: Vec2)
    ensures LeftClick(Aimed1(v), Vec2(100.0, 0.0), 0.0) == Placed2(v)
  {
  }

  /** The right click at the origin hits the first, already aimed, neutron. */
  lemma PlayClickHitsFirst(v: Vec2)
    ensures FirstContaining(Placed2(v).neutrons, Vec2(0.0, 0.0), 0) == Some(0)
  {
    assert IsCordsInCollider(Vec2(0.0, 0.0), FirstAimed(v).position, FirstAimed(v).collider);
  }

  lemma PlayRemoveFirst(v: Vec2)
    ensures RemoveNeutronAsWritten(Placed2(v), Vec2(0.0, 0.0)) == Removed1
  {
    PlayClickHitsFirst(v);
    assert Without(Placed2(v).neutrons, 0) == [SecondMarked];
  }

  lemma PlayPlaceThird()
    ensures LeftClick(Removed1, Vec2(200.0, 0.0), 0.0) == Placed3
  {
  }

  /**
    The as-written removal loses the placement invariant, on a level that
    grants two neutrons. Place a neutron at the origin and aim it; place a
    second one at `(100, 0)`; while that one awaits its velocity,
    right-click the first one. It goes without a refund and the state drops
    back to `NEUTRON` although the marker is still on the board, so the next
    placement, at `(200, 0)`, leaves two markers: the commit click's
    `single_mut` then has no single marked neutron to take.
   */
  lemma RemovalAsWrittenLeavesTwoMarkers(aimCursor: Vec2, aimLen: real)
    requires IsLength(aimLen, Aim(Placed1, aimCursor))
    ensures var v := LeftClick(Placed1, aimCursor, aimLen).neutrons[0].velocity;
            && LeftClick(TwoNeutronBoard, Vec2(0.0, 0.0), 0.0) == Placed1
            && LeftClick(Placed1, aimCursor, aimLen) == Aimed1(v)
            && LeftClick(Aimed1(v), Vec2(100.0, 0.0), 0.0) == Placed2(v)
            && RemoveNeutronAsWritten(Placed2(v), Vec2(0.0, 0.0)) == Removed1
            && LeftClick(Removed1, Vec2(200.0, 0.0), 0.0) == Placed3
            && PlacementInv(Placed2(v), 2)
            && Placed3.placement == SetVelocity && CountMarked(Placed3.neutrons) == 2
            && !PlacementInv(Placed3, 2)
  {
    var v := LeftClick(Placed1, aimCursor, aimLen).neutrons[0].velocity;
    PlayPlaceFirst();
    PlayAimFirst(aimCursor, aimLen);
    PlayPlaceSecond(v);
    PlayRemoveFirst(v);
    PlayPlaceThird();
    CountMarkedPair(FirstAimed(v), SecondMarked);
    CountMarkedPair(SecondMarked, ThirdMarked);
  }

  /** The corrected removal, on the same board, refunds the aimed neutron and keeps the one marker. */
  lemma CorrectedRemovalKeepsTheMarker(v: Vec2)
    ensures RemoveNeutron(Placed2(v), Vec2(0.0, 0.0)) == AtomlessBoard([SecondMarked], 2, 2, SetVelocity)
    ensures PlacementInv(RemoveNeutron(Placed2(v), Vec2(0.0, 0.0)), 2)
  {
    PlayClickHitsFirst(v);
    assert Without(Placed2(v).neutrons, 0) == [SecondMarked];
  }

  lemma CountMarkedPair(a: Neutron, b: Neutron)
    ensures CountMarked([a, b]) == (if a.marked then 1 else 0) + (if b.marked then 1 else 0)
  {
    assert [a, b][1..] == [b];
  }
}
