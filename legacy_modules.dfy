/** Modules of the older solver (Assets/Scripts/Module.cs): four horizontal
    faces, looked up through the four-direction rotation. */
module LegacyModules {
  import opened Basics
  import Orientations
  import opened Modules

  /** A legacy module: the prefab's four horizontal faces in direction order,
      and the rotation it is seen under. */
  datatype LegacyModule = LegacyModule(faces: seq<HFace>, rotation: nat, index: nat)

  predicate WellFormed(m: LegacyModule) {
    |m.faces| == Orientations.Count
  }

  /** `GetFace`. */
  function GetFace(m: LegacyModule, d: nat): HFace
    requires WellFormed(m) && d < Orientations.Count
  {
    m.faces[Orientations.Rotate(d, m.rotation)]
  }

  /** `Fits(direction, module)`. */
  function Fits(m: LegacyModule, d: nat, o: LegacyModule): bool
    requires WellFormed(m) && WellFormed(o) && d < Orientations.Count
  {
    var other := Orientations.Opposite(d);
    var f1 := m.faces[Orientations.Rotate(d, m.rotation)];
    var f2 := o.faces[Orientations.Rotate(other, o.rotation)];
    f1.connector == f2.connector && (f1.symmetric || f1.flipped != f2.flipped)
  }

  /** `Fits(direction, connector)`. */
  function FitsConnector(m: LegacyModule, d: nat, connector: int): bool
    requires WellFormed(m) && d < Orientations.Count
  {
    GetFace(m, d).connector == connector
  }

  /** `Fits` compares the face each module turns toward the other: it needs
      equal connectors and a symmetric first face or differing flips. */
  lemma FitsByFaces(m: LegacyModule, d: nat, o: LegacyModule)
    requires WellFormed(m) && WellFormed(o) && d < Orientations.Count
    ensures Orientations.Opposite(d) < Orientations.Count
    ensures Fits(m, d, o) <==> HorizontalFacesFit(GetFace(m, d), GetFace(o, Orientations.Opposite(d)))
    ensures Fits(m, d, o) ==> GetFace(m, d).connector == GetFace(o, Orientations.Opposite(d)).connector
  {
  }

  /** An unrotated module shows its own faces. */
  lemma GetFaceUnrotated(m: LegacyModule, d: nat)
    requires WellFormed(m) && d < Orientations.Count && m.rotation == 0
    ensures GetFace(m, d) == m.faces[d]
  {
  }

  /** The face shown toward `d` is the one `rotation` quarter turns further on. */
  lemma GetFaceIsShift(m: LegacyModule, d: nat)
    requires WellFormed(m) && d < Orientations.Count
    ensures GetFace(m, d) == m.faces[(d + m.rotation) % 4]
  {
  }

  /** A module turned by `k` shows, toward `d`, the face it showed toward
      `d + k`. */
  lemma GetFaceTurned(m: LegacyModule, d: nat, k: nat)
    requires WellFormed(m) && d < Orientations.Count
    ensures (d + k) % 4 < Orientations.Count
    ensures GetFace(m.(rotation := m.rotation + k), d) == GetFace(m, (d + k) % 4)
  {
    GetFaceIsShift(m.(rotation := m.rotation + k), d);
    GetFaceIsShift(m, (d + k) % 4);
    QuarterTurns(d + k, m.rotation);
    assert d + k + m.rotation == d + (m.rotation + k);
  }

  /** `Fits` is invariant under turning both modules by the same amount. */
  lemma FitsTurned(m: LegacyModule, d: nat, o: LegacyModule, k: nat)
    requires WellFormed(m) && WellFormed(o) && d < Orientations.Count
    ensures (d + k) % 4 < Orientations.Count
    ensures Fits(m.(rotation := m.rotation + k), d, o.(rotation := o.rotation + k))
         == Fits(m, (d + k) % 4, o)
  {
    var e := (d + k) % 4;
    GetFaceTurned(m, d, k);
    GetFaceTurned(o, Orientations.Opposite(d), k);
    OppositeTurned(d, k);
    FitsDependsOnFaces(m.(rotation := m.rotation + k), d, o.(rotation := o.rotation + k), m, e, o);
  }

  /** `Fits` depends only on the two faces turned toward each other. */
  lemma FitsDependsOnFaces(m: LegacyModule, d: nat, o: LegacyModule,
                           m2: LegacyModule, d2: nat, o2: LegacyModule)
    requires WellFormed(m) && WellFormed(o) && d < Orientations.Count
    requires WellFormed(m2) && WellFormed(o2) && d2 < Orientations.Count
    requires GetFace(m, d) == GetFace(m2, d2)
    requires GetFace(o, Orientations.Opposite(d)) == GetFace(o2, Orientations.Opposite(d2))
    ensures Fits(m, d, o) == Fits(m2, d2, o2)
  {
    FitsByFaces(m, d, o);
    FitsByFaces(m2, d2, o2);
  }

  /** Turning commutes with taking the opposite. */
  lemma OppositeTurned(d: nat, k: nat)
    ensures (Orientations.Opposite(d) + k) % 4 == Orientations.Opposite((d + k) % 4)
  {
    QuarterTurns(d + 2, k);
    QuarterTurns(d + k, 2);
    assert d + 2 + k == d + k + 2;
  }

  /** `Fits(direction, connector)` tests the connector of `GetFace`. */
  lemma FitsConnectorByFace(m: LegacyModule, d: nat, connector: int)
    requires WellFormed(m) && d < Orientations.Count
    ensures FitsConnector(m, d, connector) <==> m.faces[(d + m.rotation) % 4].connector == connector
  {
  }

  /** `symmetric` is read only from the first module's face, so `Fits` is not
      symmetric in its two modules. */
  lemma FitsIsNotSymmetric()
    ensures var s: HFace := HorizontalFace(0, false, true, false);
            var p: HFace := HorizontalFace(0, false, false, false);
            var a := LegacyModule([s, s, s, s], 0, 0);
            var b := LegacyModule([p, p, p, p], 0, 1);
            Fits(a, Orientations.Forward, b) && !Fits(b, Orientations.Back, a)
  {
  }
}
