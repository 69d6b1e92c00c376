/**
  `src/level_manager.rs`: the letter grade, the compiled-in level table, the
  grid-disc generator used by the last level, and `setup_level`.
 */
module Levels {
  import opened Wrappers
  import opened Vectors
  import opened Atoms
  import opened World

  /** `f64::EPSILON`, 2^-52. */
  const Epsilon: real := 1.0 / 4503599627370496.0

  datatype Grade = S | A | B | C | D | F

  /** The position of a grade in `["S", "A", "B", "C", "D"]`, with "F" after them all. */
  function Rank(g: Grade): nat {
    match g
    case S => 0
    case A => 1
    case B => 2
    case C => 3
    case D => 4
    case F => 5
  }

  function Letter(i: nat): (g: Grade)
    requires i < 5
    ensures Rank(g) == i
  {
    [S, A, B, C, D][i]
  }

  /** The score letter `i` asks for: `s_score * 0.5 + s_score * 1 / (2 + i)`. */
  function Threshold(sScore: real, i: nat): real
    requires i < 5
  {
    sScore * 0.5 + sScore * 1.0 / (2.0 + i as real)
  }

  /** The comparison of `calculate_grade`, with the `f64::EPSILON` slack on the score side. */
  predicate Earns(score: real, sScore: real, i: nat)
    requires i < 5
  {
    score + Epsilon >= Threshold(sScore, i)
  }

  /** The thresholds are `s_score` times 1, 5/6, 3/4, 7/10 and 2/3. */
  lemma ThresholdFactors(sScore: real)
    ensures Threshold(sScore, 0) == sScore
    ensures Threshold(sScore, 1) == sScore * 5.0 / 6.0
    ensures Threshold(sScore, 2) == sScore * 3.0 / 4.0
    ensures Threshold(sScore, 3) == sScore * 7.0 / 10.0
    ensures Threshold(sScore, 4) == sScore * 2.0 / 3.0
  {
  }

  /** The loop of `calculate_grade` from letter `i` on: the first letter earned, or "F". */
  function GradeFrom(score: real, sScore: real, i: nat): (g: Grade)
    requires i <= 5
    ensures i <= Rank(g)
    ensures forall j :: i <= j < Rank(g) ==> !Earns(score, sScore, j)
    ensures Rank(g) < 5 ==> Earns(score, sScore, Rank(g))
    decreases 5 - i
  {
    if i == 5 then F
    else if Earns(score, sScore, i) then Letter(i)
    else GradeFrom(score, sScore, i + 1)
  }

  /**
    `calculate_grade(score, level_stats)`: the first letter whose threshold
    the score reaches, and "F" when it reaches none.
   */
  function CalculateGrade(score: real, stats: LevelStats): (g: Grade)
    ensures forall j :: 0 <= j < Rank(g) ==> !Earns(score, stats.sScore, j)
    ensures Rank(g) < 5 ==> Earns(score, stats.sScore, Rank(g))
  {
    GradeFrom(score, stats.sScore, 0)
  }

  /** A score of at least `s_score` always earns an S. */
  lemma FullScoreEarnsS(score: real, stats: LevelStats)
    requires score >= stats.sScore
    ensures CalculateGrade(score, stats) == S
  {
    ThresholdFactors(stats.sScore);
    assert Earns(score, stats.sScore, 0);
  }

  /** A higher score never earns a later letter. */
  lemma GradeMonotone(score1: real, score2: real, stats: LevelStats)
    requires score1 <= score2
    ensures Rank(CalculateGrade(score2, stats)) <= Rank(CalculateGrade(score1, stats))
  {
    var r1 := Rank(CalculateGrade(score1, stats));
    if r1 < 5 {
      assert Earns(score2, stats.sScore, r1);
    }
  }

  /** With a positive target above one and a half epsilons, a zero score is an F. */
  lemma ZeroScoreFails(stats: LevelStats)
    requires stats.sScore > 1.5 * Epsilon
    ensures CalculateGrade(0.0, stats) == F
  {
    ThresholdFactors(stats.sScore);
    forall i | 0 <= i < 5
      ensures !Earns(0.0, stats.sScore, i)
    {
    }
  }

  /** A level: `(yield, position)` pairs for its atoms, and its `LevelStats`. */
  datatype Level = Level(atoms: seq<(int, Vec2)>, stats: LevelStats)

  /** The values of `(-r..r).step_by(d)` from `from` on. */
  function Steps(r: int, d: nat, from: int): (s: seq<int>)
    requires d > 0
    ensures forall k :: 0 <= k < |s| ==> from <= s[k] < r
    decreases r - from
  {
    if from >= r then [] else [from] + Steps(r, d, from + d)
  }

  /** `k` is reached from 0 by whole steps of `d`: a non-negative multiple of `d`. */
  predicate OnGrid(k: int, d: nat)
    requires d > 0
    decreases if k < 0 then 0 else k
  {
    k == 0 || (k >= d && OnGrid(k - d, d))
  }

  /** The range walks exactly the values from `from` up to `r`, exclusive, that are `d` apart. */
  lemma {:induction false} StepsMembers(r: int, d: nat, from: int, x: int)
    requires d > 0
    ensures x in Steps(r, d, from) <==> from <= x < r && OnGrid(x - from, d)
    decreases r - from
  {
    if from < r {
      StepsMembers(r, d, from + d, x);
      assert x - (from + d) == x - from - d;
    }
  }

  /** The disc test of `generate_atom_sphere`, `x² + y² <= r²`, on 64-bit integers. */
  predicate InDisc(x: int, y: int, r: int) {
    x * x + y * y <= r * r
  }

  /** The entries one value of `x` contributes, for the `y` values in `ys`. */
  function Column(x: int, ys: seq<int>, r: int, n: int): (c: seq<(int, Vec2)>)
    ensures forall e :: e in c <==> exists y :: y in ys && InDisc(x, y, r) && e == (n, Vec2(x as real, y as real))
  {
    if |ys| == 0 then []
    else
      var rest := Column(x, ys[1..], r, n);
      assert forall y :: y in ys <==> y == ys[0] || y in ys[1..];
      if InDisc(x, ys[0], r) then [(n, Vec2(x as real, ys[0] as real))] + rest else rest
  }

  function Sphere(xs: seq<int>, ys: seq<int>, r: int, n: int): (s: seq<(int, Vec2)>)
    ensures forall e :: e in s <==>
              exists x, y :: x in xs && y in ys && InDisc(x, y, r) && e == (n, Vec2(x as real, y as real))
  {
    if |xs| == 0 then []
    else
      assert forall x :: x in xs <==> x == xs[0] || x in xs[1..];
      Column(xs[0], ys, r, n) + Sphere(xs[1..], ys, r, n)
  }

  /**
    What `generate_atom_sphere(r, d, n)` returns: every grid point of
    spacing `d` in `[-r, r)²` that lies in the closed disc of radius `r`,
    column by column, each with yield `n`.
   */
  function AtomSphere(r: int, d: nat, n: int): seq<(int, Vec2)>
    requires d > 0
  {
    Sphere(Steps(r, d, -r), Steps(r, d, -r), r, n)
  }

  /** Every entry carries the yield the sphere was asked for. */
  lemma AtomSphereYield(r: int, d: nat, n: int, e: (int, Vec2))
    requires d > 0 && e in AtomSphere(r, d, n)
    ensures e.0 == n
  {
  }

  /** Every grid point inside the disc is produced. */
  lemma AtomSphereHasGridPoint(r: int, d: nat, n: int, x: int, y: int)
    requires d > 0 && -r <= x < r && -r <= y < r && OnGrid(x + r, d) && OnGrid(y + r, d) && InDisc(x, y, r)
    ensures (n, Vec2(x as real, y as real)) in AtomSphere(r, d, n)
  {
    StepsMembers(r, d, -r, x);
    StepsMembers(r, d, -r, y);
    var xs := Steps(r, d, -r);
    assert x in xs && y in xs;
    SphereHas(xs, xs, r, n, x, y);
  }

  /** Only points drawn from the two ranges and inside the disc enter a sphere. */
  lemma SphereOnly(xs: seq<int>, ys: seq<int>, r: int, n: int, x: int, y: int)
    requires (n, Vec2(x as real, y as real)) in Sphere(xs, ys, r, n)
    ensures x in xs && y in ys && InDisc(x, y, r)
  {
    var x1, y1 :| x1 in xs && y1 in ys && InDisc(x1, y1, r)
               && (n, Vec2(x as real, y as real)) == (n, Vec2(x1 as real, y1 as real));
    assert x1 == x && y1 == y;
  }

  /** Every such point does. */
  lemma SphereHas(xs: seq<int>, ys: seq<int>, r: int, n: int, x: int, y: int)
    requires x in xs && y in ys && InDisc(x, y, r)
    ensures (n, Vec2(x as real, y as real)) in Sphere(xs, ys, r, n)
  {
  }

  /** Only grid points inside the disc are produced. */
  lemma AtomSphereOnlyGridPoints(r: int, d: nat, n: int, x: int, y: int)
    requires d > 0 && (n, Vec2(x as real, y as real)) in AtomSphere(r, d, n)
    ensures -r <= x < r && -r <= y < r && OnGrid(x + r, d) && OnGrid(y + r, d) && InDisc(x, y, r)
  {
    var xs := Steps(r, d, -r);
    SphereOnly(xs, xs, r, n, x, y);
    StepOnGrid(r, d, x);
    StepOnGrid(r, d, y);
  }

  lemma StepOnGrid(r: int, d: nat, x: int)
    requires d > 0 && x in Steps(r, d, -r)
    ensures -r <= x < r && OnGrid(x + r, d)
  {
    StepsMembers(r, d, -r, x);
    assert x - -r == x + r;
  }

  /**
    The point `(x, y)` is produced exactly when both coordinates lie in
    `[-r, r)` on the grid of spacing `d` started at `-r`, and the point lies
    in the closed disc of radius `r`.
   */
  lemma AtomSpherePoints(r: int, d: nat, n: int, x: int, y: int)
    requires d > 0
    ensures (n, Vec2(x as real, y as real)) in AtomSphere(r, d, n) <==>
              -r <= x < r && -r <= y < r && OnGrid(x + r, d) && OnGrid(y + r, d) && InDisc(x, y, r)
  {
    if (n, Vec2(x as real, y as real)) in AtomSphere(r, d, n) {
      AtomSphereOnlyGridPoints(r, d, n, x, y);
    } else if -r <= x < r && -r <= y < r && OnGrid(x + r, d) && OnGrid(y + r, d) && InDisc(x, y, r) {
      AtomSphereHasGridPoint(r, d, n, x, y);
    }
  }

  /** `Steps` peels off its first element while `from` is below `r`. */
  lemma StepsUnfold(r: int, d: nat, from: int)
    requires d > 0
    ensures Steps(r, d, from) == (if from < r then [from] + Steps(r, d, from + d) else [])
  {
  }

  lemma ColumnUnfold(x: int, y: int, r: int, d: nat, n: int)
    requires d > 0 && y < r
    ensures Column(x, Steps(r, d, y), r, n)
         == (if InDisc(x, y, r) then [(n, Vec2(x as real, y as real))] else []) + Column(x, Steps(r, d, y + d), r, n)
  {
    StepsUnfold(r, d, y);
    var ys := Steps(r, d, y);
    assert ys[0] == y && ys[1..] == Steps(r, d, y + d);
  }

  lemma SphereUnfold(x: int, ys: seq<int>, r: int, d: nat, n: int)
    requires d > 0 && x < r
    ensures Sphere(Steps(r, d, x), ys, r, n) == Column(x, ys, r, n) + Sphere(Steps(r, d, x + d), ys, r, n)
  {
    StepsUnfold(r, d, x);
    var xs := Steps(r, d, x);
    assert xs[0] == x && xs[1..] == Steps(r, d, x + d);
  }

  /** The inner loop of `generate_atom_sphere`: one column of the grid. */
  method GenerateColumn(x: int, r: int, d: nat, n: int) returns (col: seq<(int, Vec2)>)
    requires d > 0
    ensures col == Column(x, Steps(r, d, -r), r, n)
  {
    col := [];
    var y := -r;
    while y < r
      invariant col + Column(x, Steps(r, d, y), r, n) == Column(x, Steps(r, d, -r), r, n)
      decreases r - y
    {
      ColumnUnfold(x, y, r, d, n);
      if InDisc(x, y, r) {
        col := col + [(n, Vec2(x as real, y as real))];
      }
      y := y + d;
    }
    StepsUnfold(r, d, y);
  }

  /** `generate_atom_sphere`: the nested `step_by` loops. */
  method GenerateAtomSphere(r: int, d: nat, n: int) returns (v: seq<(int, Vec2)>)
    requires d > 0
    ensures v == AtomSphere(r, d, n)
  {
    var ys := Steps(r, d, -r);
    v := [];
    var x := -r;
    while x < r
      invariant v + Sphere(Steps(r, d, x), ys, r, n) == AtomSphere(r, d, n)
      decreases r - x
    {
      SphereUnfold(x, ys, r, d, n);
      var col := GenerateColumn(x, r, d, n);
      v := v + col;
      x := x + d;
    }
    StepsUnfold(r, d, x);
  }

  /** `get_level`: the five shipped levels; any other number has none. */
  function GetLevel(level: int): (r: Option<Level>)
    ensures r.Some? <==> 0 <= level <= 4
    ensures r.Some? ==> r.value.stats.numNeutrons == 1
  {
    match level
    case 0 => Some(Level(
      [(2, Vec2(0.0, 0.0)), (3, Vec2(-100.0, 100.0)), (3, Vec2(100.0, 100.0))],
      LevelStats(1, EnergyReleased * 3.0)))
    case 1 => Some(Level(
      [(5, Vec2(0.0, 0.0)),
       (1, Vec2(-165.0, 100.0)), (1, Vec2(165.0, 100.0)),
       (2, Vec2(-315.0, 200.0)), (3, Vec2(0.0, 200.0)), (2, Vec2(315.0, 200.0))],
      LevelStats(1, EnergyReleased * 6.0)))
    case 2 => Some(Level(
      [(5, Vec2(0.0, 0.0)),
       (3, Vec2(-75.0, 75.0)), (3, Vec2(0.0, 75.0)), (3, Vec2(75.0, 75.0)),
       (3, Vec2(-225.0, 150.0)), (3, Vec2(-150.0, 150.0)), (3, Vec2(0.0, 150.0)), (3, Vec2(150.0, 150.0)), (3, Vec2(225.0, 150.0)),
       (3, Vec2(-225.0, 225.0)), (3, Vec2(-150.0, 225.0)), (3, Vec2(0.0, 225.0)), (3, Vec2(150.0, 225.0)), (3, Vec2(225.0, 225.0))],
      LevelStats(1, EnergyReleased * 14.0)))
    case 3 => Some(Level(
      [(5, Vec2(0.0, 0.0)),
       (3, Vec2(-150.0, 75.0)), (3, Vec2(-75.0, 75.0)), (3, Vec2(0.0, 75.0)), (3, Vec2(75.0, 75.0)), (3, Vec2(150.0, 75.0)),
       (3, Vec2(-225.0, 150.0)), (3, Vec2(-150.0, 150.0)), (3, Vec2(0.0, 150.0)), (3, Vec2(150.0, 150.0)), (3, Vec2(225.0, 150.0)),
       (3, Vec2(-225.0, 225.0)), (3, Vec2(-150.0, 225.0)), (3, Vec2(-75.0, 225.0)), (3, Vec2(0.0, 225.0)), (3, Vec2(75.0, 225.0)), (3, Vec2(150.0, 225.0)), (3, Vec2(225.0, 225.0))],
      LevelStats(1, EnergyReleased * 17.0)))
    case 4 => Some(Level(AtomSphere(8000, 75, 2), LevelStats(1, EnergyReleased * 35000.0)))
    case _ => None
  }

  /**
    The hand-made levels have 3, 6, 14 and 18 atoms. The S target of levels
    0 to 2 is one `ENERGY_RELEASED` per atom; level 3 asks for 17 of its 18.
   */
  lemma LevelTable()
    ensures |GetLevel(0).value.atoms| == 3 && GetLevel(0).value.stats.sScore == 3.0 * EnergyReleased
    ensures |GetLevel(1).value.atoms| == 6 && GetLevel(1).value.stats.sScore == 6.0 * EnergyReleased
    ensures |GetLevel(2).value.atoms| == 14 && GetLevel(2).value.stats.sScore == 14.0 * EnergyReleased
    ensures |GetLevel(3).value.atoms| == 18 && GetLevel(3).value.stats.sScore == 17.0 * EnergyReleased
    ensures GetLevel(4).value.atoms == AtomSphere(8000, 75, 2)
    ensures GetLevel(4).value.stats.sScore == 35000.0 * EnergyReleased
  {
  }

  /** `spawn_atom` for each entry of a level, with consecutive ids from `firstId`. */
  function SpawnLevelAtoms(entries: seq<(int, Vec2)>, firstId: nat): (r: seq<Atom>)
    ensures |r| == |entries|
    ensures forall i :: 0 <= i < |r| ==> r[i] == SpawnAtom(firstId + i, entries[i].1, entries[i].0)
  {
    seq(|entries|, i requires 0 <= i < |entries| => SpawnAtom(firstId + i, entries[i].1, entries[i].0))
  }

  /**
    `setup_level`: for a known level, one atom per entry joins the board,
    the level's `LevelStats` are installed and the score goes back to 0. An
    unknown level changes nothing.
   */
  function SetupLevel(w: World): (r: World)
    ensures GetLevel(w.stats.level).None? ==> r == w
    ensures GetLevel(w.stats.level).Some? ==>
              var l := GetLevel(w.stats.level).value;
              && r.atoms == w.atoms + SpawnLevelAtoms(l.atoms, w.nextId)
              && r.levelStats == l.stats
              && r.stats == w.stats.(score := 0.0)
              && r.neutrons == w.neutrons
              && r.placement == w.placement && r.state == w.state
  {
    match GetLevel(w.stats.level)
    case None => w
    case Some(l) =>
      w.(atoms := w.atoms + SpawnLevelAtoms(l.atoms, w.nextId),
         nextId := w.nextId + |l.atoms|,
         levelStats := l.stats,
         stats := w.stats.(score := 0.0))
  }

  /** Loading a level keeps entity ids fresh. */
  lemma SetupLevelKeepsIds(w: World)
    requires IdsFresh(w)
    ensures IdsFresh(SetupLevel(w))
  {
    var r := SetupLevel(w);
    forall a | a in r.atoms
      ensures a.id < r.nextId
    {
      if a !in w.atoms {
        var l := GetLevel(w.stats.level).value;
        var born := SpawnLevelAtoms(l.atoms, w.nextId);
        assert a in born;
        var k :| 0 <= k < |born| && born[k] == a;
      }
    }
  }
}
