/**
 * The two walkability checks GraphEditor applies to every surface sample
 * (Assets/Scripts/Graph/Editor/GraphEditor.cs, IsSlopeValid and IsNearWall).
 */
module Validity {
  import opened Geometry

  /** Unity layer 23, the "No Walk" layer. */
  const NoWalkLayer: int := 23

  /**
   * IsSlopeValid: a slope above 90 degrees is folded to 180 - slope, and the
   * sample is valid unless the folded slope exceeds maxSlope. Equivalently,
   * the surface normal is within maxSlope degrees of the struck object's up
   * direction or of its down direction.
   */
  function IsSlopeValid(slope: real, maxSlope: real): (valid: bool)
    ensures valid <==> slope <= maxSlope || 180.0 - maxSlope <= slope
  {
    var folded := if slope > 90.0 then 180.0 - slope else slope;
    !(folded > maxSlope)
  }

  /** The boundary is inclusive: exactly maxSlope is valid, anything steeper (up to 90) is not. */
  lemma SlopeBoundary(maxSlope: real, epsilon: real)
    requires 0.0 < epsilon && maxSlope + epsilon <= 90.0
    ensures IsSlopeValid(maxSlope, maxSlope)
    ensures !IsSlopeValid(maxSlope + epsilon, maxSlope)
  {
  }

  /** Folding treats an upside-down normal like the upright one. */
  lemma SlopeFoldSymmetric(slope: real, maxSlope: real)
    requires 0.0 <= slope <= 180.0
    ensures IsSlopeValid(slope, maxSlope) == IsSlopeValid(180.0 - slope, maxSlope)
  {
  }

  /** The wall probes start maxBound below the node. */
  function ProbeOrigin(at: Vec3, maxBound: real): Vec3 {
    at.Add(Vec3(0.0, -maxBound, 0.0))
  }

  /** The order in which IsNearWall fires its probes. */
  const ProbeOrder: seq<Direction> := [Forward, Back, Right, Left]

  /** The results of the four probes, in firing order. */
  function Probes(physics: RaycastOracle, at: Vec3, maxBound: real): (hits: seq<Option<Hit>>)
    ensures |hits| == |ProbeOrder|
  {
    seq(|ProbeOrder|, k requires 0 <= k < |ProbeOrder| =>
      physics(ProbeOrigin(at, maxBound), ProbeOrder[k], UpTo(maxBound)))
  }

  /** Probe k is the first one that hits anything. */
  predicate FirstHitAt(hits: seq<Option<Hit>>, k: int) {
    0 <= k < |hits| && hits[k].Some? && forall m | 0 <= m < k :: hits[m].None?
  }

  /**
   * IsNearWall as the source writes it: the probes are chained with a
   * short-circuit `||`, so the first probe that hits stops the chain, and
   * only the hit it leaves behind is checked for the No Walk layer.
   */
  function IsNearWall(physics: RaycastOracle, at: Vec3, maxBound: real): (near: bool)
    ensures near ==> exists k | 0 <= k < |ProbeOrder| ::
      var hit := physics(ProbeOrigin(at, maxBound), ProbeOrder[k], UpTo(maxBound));
      hit.Some? && hit.value.layer == NoWalkLayer
  {
    var origin := ProbeOrigin(at, maxBound);
    var reach := UpTo(maxBound);
    var forward := physics(origin, Forward, reach);
    assert ProbeOrder[0] == Forward && ProbeOrder[1] == Back && ProbeOrder[2] == Right && ProbeOrder[3] == Left;
    if forward.Some? then forward.value.layer == NoWalkLayer else
    var back := physics(origin, Back, reach);
    if back.Some? then back.value.layer == NoWalkLayer else
    var right := physics(origin, Right, reach);
    if right.Some? then right.value.layer == NoWalkLayer else
    var left := physics(origin, Left, reach);
    if left.Some? then left.value.layer == NoWalkLayer else
    false
  }

  /**
   * A node is near a wall exactly when the first probe that hits anything
   * hits the No Walk layer; when no probe hits, it is not near a wall.
   */
  lemma {:induction false} NearWallIsFirstHit(physics: RaycastOracle, at: Vec3, maxBound: real)
    ensures IsNearWall(physics, at, maxBound) <==>
      exists k | 0 <= k < 4 :: FirstHitAt(Probes(physics, at, maxBound), k)
        && Probes(physics, at, maxBound)[k].value.layer == NoWalkLayer
    ensures (forall k | 0 <= k < 4 :: Probes(physics, at, maxBound)[k].None?) ==>
      !IsNearWall(physics, at, maxBound)
  {
    var hits := Probes(physics, at, maxBound);
    var k := if hits[0].Some? then 0 else if hits[1].Some? then 1
             else if hits[2].Some? then 2 else 3;
    if hits[k].Some? {
      assert FirstHitAt(hits, k);
    } else {
      forall m | 0 <= m < 4 ensures !FirstHitAt(hits, m) {
        assert hits[m].None?;
      }
    }
  }

  /**
   * A first hit that is not on the No Walk layer masks every later probe,
   * however obstructed those directions are.
   */
  lemma FirstHitMasks(physics: RaycastOracle, at: Vec3, maxBound: real)
    requires physics(ProbeOrigin(at, maxBound), Forward, UpTo(maxBound)).Some?
    requires physics(ProbeOrigin(at, maxBound), Forward, UpTo(maxBound)).value.layer != NoWalkLayer
    ensures !IsNearWall(physics, at, maxBound)
  {
  }
}
