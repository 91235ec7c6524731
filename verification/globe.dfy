/**
 The globe's coordinate side of a search hit: the shell radius at which a hit
 is projected and the camera target `zoomToLocation` tweens towards.
 Coordinates are real numbers; the latitude/longitude projection itself is a
 parameter, since its definition is not part of this model.
 */
module Globe {

  datatype Vec3 = Vec3(x: real, y: real, z: real)

  /** `latLonToXYZ(lat, lon, radius)`, left uninterpreted. */
  type Projection = (real, real, real) -> Vec3

  /** Radius of the textured Earth sphere. */
  const EarthRadius: real := 1.0

  /** Radius at which both search paths project a hit, just above the Earth sphere. */
  const ShellRadius: real := 1.05

  /** How far along +z the camera is placed from the projected point. */
  const ZoomStandoff: real := 2.0

  function Sub(a: Vec3, b: Vec3): Vec3 {
    Vec3(a.x - b.x, a.y - b.y, a.z - b.z)
  }

  function SqNorm(a: Vec3): real {
    a.x * a.x + a.y * a.y + a.z * a.z
  }

  /** The position `zoomToLocation` sends the camera to for a projected point. */
  function ZoomTarget(p: Vec3): (t: Vec3)
    ensures Sub(t, p) == Vec3(0.0, 0.0, ZoomStandoff)
  {
    Vec3(p.x, p.y, p.z + ZoomStandoff)
  }

  /**
   Camera target for a hit at the given latitude and longitude: the point
   projected on the shell, moved the standoff distance along +z.
   */
  function Aim(project: Projection, lat: real, lon: real): (t: Vec3)
    ensures Sub(t, project(lat, lon, ShellRadius)) == Vec3(0.0, 0.0, ZoomStandoff)
    ensures SqNorm(Sub(t, project(lat, lon, ShellRadius))) == ZoomStandoff * ZoomStandoff
  {
    ZoomTarget(project(lat, lon, ShellRadius))
  }

  /**
   The camera target is displaced from the projected point by exactly the
   standoff along the z axis and not at all along x or y; so distinct points
   give distinct targets and the point can be recovered from its target.
   */
  lemma ZoomTargetDisplacement(p: Vec3, q: Vec3)
    ensures Sub(ZoomTarget(p), p) == Vec3(0.0, 0.0, ZoomStandoff)
    ensures SqNorm(Sub(ZoomTarget(p), p)) == 4.0
    ensures ZoomTarget(p) == ZoomTarget(q) <==> p == q
  {
  }

  /**
   The z offset does not keep the camera outside the globe: for the point of
   the projection shell furthest along -z, the target lies inside the Earth
   sphere.
   */
  lemma ZoomTargetCanBeInsideEarth()
    ensures var p := Vec3(0.0, 0.0, -ShellRadius);
      SqNorm(p) == ShellRadius * ShellRadius && SqNorm(ZoomTarget(p)) < EarthRadius * EarthRadius
  {
  }
}
