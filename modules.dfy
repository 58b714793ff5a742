/** Modules of the newer solver (Assets/Scripts/ModuleScripts/Module.cs): a
    prefab seen under one of four rotations, and the tests that decide whether
    two modules may sit side by side. */
module Modules {
  import opened Basics
  import Directions

  /** A prefab face. Horizontal faces carry a symmetry flag and a flip;
      vertical faces carry a fixed flag and a rotation. */
  datatype Face =
    | HorizontalFace(connector: int, walkable: bool, symmetric: bool, flipped: bool)
    | VerticalFace(connector: int, walkable: bool, fixed: bool, rotation: int)

  type HFace = f: Face | f.HorizontalFace? witness HorizontalFace(0, false, false, false)
  type VFace = f: Face | f.VerticalFace? witness VerticalFace(0, false, false, 0)

  /** A prefab's six faces, held in typed fields as in the prefab component. */
  datatype Prefab = Prefab(left: HFace, down: VFace, back: HFace,
                           right: HFace, up: VFace, forward: HFace)
  {
    /** The `Faces` array, in direction order. */
    function Faces(): (fs: seq<Face>)
      ensures |fs| == Directions.Count
      ensures forall d :: 0 <= d < |fs| ==> (fs[d].HorizontalFace? <==> Directions.IsHorizontal(d))
    {
      [left, down, back, right, up, forward]
    }
  }

  datatype Module = Module(prefab: Prefab, rotation: nat, index: nat)

  /** `GetFace`: the prefab face that ends up facing `d` once rotated. */
  function GetFace(m: Module, d: nat): (f: Face)
    requires d < Directions.Count
    ensures f.HorizontalFace? <==> Directions.IsHorizontal(d)
  {
    m.prefab.Faces()[Directions.Rotate(d, m.rotation)]
  }

  /** `Fits(direction, module)`: may `o` sit next to `m` in direction `d`? */
  function Fits(m: Module, d: nat, o: Module): bool
    requires d < Directions.Count
  {
    var opposite := Directions.Opposite(d);
    if Directions.IsHorizontal(d) then
      HorizontalFacesFit(m.prefab.Faces()[Directions.Rotate(d, m.rotation)],
                         o.prefab.Faces()[Directions.Rotate(opposite, o.rotation)])
    else
      VerticalFacesFit(m.prefab.Faces()[d], m.rotation, o.prefab.Faces()[opposite], o.rotation)
  }

  /** Horizontal faces match when their connectors agree and the first is
      symmetric or the two are flipped differently. */
  predicate HorizontalFacesFit(f1: HFace, f2: HFace) {
    f1.connector == f2.connector && (f1.symmetric || f1.flipped != f2.flipped)
  }

  /** Vertical faces match when their connectors agree and the first is fixed
      or both end up turned the same way. */
  predicate VerticalFacesFit(f1: VFace, r1: nat, f2: VFace, r2: nat) {
    f1.connector == f2.connector
    && (f1.fixed || Rem(f1.rotation + r1, 4) == Rem(f2.rotation + r2, 4))
  }

  /** `Fits(direction, connector)`. */
  function FitsConnector(m: Module, d: nat, connector: int): bool
    requires d < Directions.Count
  {
    if Directions.IsHorizontal(d) then GetFace(m, d).connector == connector
    else m.prefab.Faces()[d].connector == connector
  }

  /** A vertical face is never turned: the rotated lookup reads the face itself. */
  lemma VerticalFaceUnrotated(m: Module, d: nat)
    requires d < Directions.Count && !Directions.IsHorizontal(d)
    ensures GetFace(m, d) == m.prefab.Faces()[d]
  {
    Directions.RotateKeepsKind(d, m.rotation);
  }

  /** Both branches of `Fits` compare the two faces `GetFace` selects, and
      demand equal connectors. */
  lemma FitsByFaces(m: Module, d: nat, o: Module)
    requires d < Directions.Count
    ensures Directions.Opposite(d) < Directions.Count
    ensures Fits(m, d, o) ==> GetFace(m, d).connector == GetFace(o, Directions.Opposite(d)).connector
    ensures Directions.IsHorizontal(d) ==>
      (Fits(m, d, o) <==> HorizontalFacesFit(GetFace(m, d), GetFace(o, Directions.Opposite(d))))
    ensures !Directions.IsHorizontal(d) ==>
      (Fits(m, d, o) <==> VerticalFacesFit(GetFace(m, d), m.rotation, GetFace(o, Directions.Opposite(d)), o.rotation))
  {
    Directions.OppositeIsNegation(d);
    if !Directions.IsHorizontal(d) {
      VerticalFaceUnrotated(m, d);
      VerticalFaceUnrotated(o, Directions.Opposite(d));
    }
  }

  /** `Fits(direction, connector)` tests the connector of the face `GetFace`
      selects, and for DOWN and UP the module's rotation is irrelevant. */
  lemma FitsConnectorByFace(m: Module, d: nat, connector: int, r: nat)
    requires d < Directions.Count
    ensures FitsConnector(m, d, connector) <==> GetFace(m, d).connector == connector
    ensures !Directions.IsHorizontal(d) ==>
      FitsConnector(m, d, connector) == FitsConnector(m.(rotation := r), d, connector)
  {
    if !Directions.IsHorizontal(d) {
      VerticalFaceUnrotated(m, d);
    }
  }

  /** Only this module's face is consulted for `symmetric`, so `Fits` is not
      symmetric: here `b` fits left of `a` but `a` does not fit right of `b`. */
  lemma FitsIsNotSymmetric()
    ensures var a := Module(Prefab(HorizontalFace(1, false, true, false), VerticalFace(0, false, true, 0),
                                   HorizontalFace(0, false, false, false), HorizontalFace(0, false, false, false),
                                   VerticalFace(0, false, true, 0), HorizontalFace(0, false, false, false)), 0, 0);
            var b := Module(Prefab(HorizontalFace(0, false, false, false), VerticalFace(0, false, true, 0),
                                   HorizontalFace(0, false, false, false), HorizontalFace(1, false, false, false),
                                   VerticalFace(0, false, true, 0), HorizontalFace(0, false, false, false)), 0, 1);
            Fits(a, Directions.Left, b) && !Fits(b, Directions.Right, a)
  {
  }

  /** Turning a module by `k` quarter turns. */
  function Turned(m: Module, k: nat): Module {
    m.(rotation := m.rotation + k)
  }

  /** Non-negative vertical face rotations, as the prefab editor sets them. */
  predicate NaturalRotations(p: Prefab) {
    p.down.rotation >= 0 && p.up.rotation >= 0
  }

  lemma RemShift(a: int, b: int, k: nat)
    requires a >= 0 && b >= 0
    ensures Rem(a, 4) == Rem(b, 4) <==> Rem(a + k, 4) == Rem(b + k, 4)
  {
  }

  /** Turning both modules by the same amount turns the direction in which
      they fit: `Fits` is invariant under rotating the whole pair. */
  lemma FitsTurned(m: Module, d: nat, o: Module, k: nat)
    requires d < Directions.Count
    requires NaturalRotations(m.prefab) && NaturalRotations(o.prefab)
    ensures Fits(Turned(m, k), d, Turned(o, k)) == Fits(m, Directions.Rotate(d, k), o)
  {
    if Directions.IsHorizontal(d) {
      FitsTurnedHorizontal(m, d, o, k);
    } else {
      FitsTurnedVertical(m, d, o, k);
    }
  }

  lemma FitsTurnedHorizontal(m: Module, d: nat, o: Module, k: nat)
    requires d < Directions.Count && Directions.IsHorizontal(d)
    ensures Fits(Turned(m, k), d, Turned(o, k)) == Fits(m, Directions.Rotate(d, k), o)
  {
    var e := Directions.Rotate(d, k);
    var opp := Directions.Opposite(d);
    Directions.RotateCommutesWithOpposite(d, k);
    FitsHorizontal(Turned(m, k), d, Turned(o, k));
    FitsHorizontal(m, e, o);
    TurnedIndex(d, m.rotation, k);
    TurnedIndex(opp, o.rotation, k);
  }

  /** The horizontal branch of `Fits`. */
  lemma FitsHorizontal(m: Module, d: nat, o: Module)
    requires d < Directions.Count && Directions.IsHorizontal(d)
    ensures Fits(m, d, o)
         == HorizontalFacesFit(m.prefab.Faces()[Directions.Rotate(d, m.rotation)],
                               o.prefab.Faces()[Directions.Rotate(Directions.Opposite(d), o.rotation)])
  {
  }

  /** Turning a module by `k` then looking up `d` is looking up `d` turned by `k`. */
  lemma TurnedIndex(d: nat, r: nat, k: nat)
    requires d < Directions.Count
    ensures Directions.Rotate(d, r + k) == Directions.Rotate(Directions.Rotate(d, k), r)
  {
    Directions.RotateCompose(d, k, r);
    assert k + r == r + k;
  }

  lemma FitsTurnedVertical(m: Module, d: nat, o: Module, k: nat)
    requires d < Directions.Count && !Directions.IsHorizontal(d)
    requires NaturalRotations(m.prefab) && NaturalRotations(o.prefab)
    ensures Fits(Turned(m, k), d, Turned(o, k)) == Fits(m, Directions.Rotate(d, k), o)
  {
    Directions.RotateKeepsKind(d, k);
    var f1 := m.prefab.Faces()[d];
    var f2 := o.prefab.Faces()[Directions.Opposite(d)];
    assert f1.rotation >= 0 && f2.rotation >= 0;
    RemShift(f1.rotation + m.rotation, f2.rotation + o.rotation, k);
    assert f1.rotation + (m.rotation + k) == f1.rotation + m.rotation + k;
    assert f2.rotation + (o.rotation + k) == f2.rotation + o.rotation + k;
  }
}
