/** The fixed attendance geofence: a centre coordinate and a radius in
    metres. The great-circle distance itself (haversine on a sphere of radius
    6,371 km, in floating point) is a parameter here: a `DistanceFn` maps two
    (latitude, longitude) pairs to a floating-point result, which may be NaN. */
module Geofence {

  /** A floating-point distance in metres: a number, or NaN. */
  datatype Distance = Meters(m: real) | NotANumber

  type DistanceFn = (real, real, real, real) -> Distance

  const AllowedLat: real := 11.018324792742353
  const AllowedLng: real := 76.97797179224519

  /** Allowed radius in metres. */
  const AllowedRadius: real := 100.0

  /** `distance <= radiusInMeters`; every comparison with NaN is false. */
  predicate IsWithinRange(lat1: real, lon1: real, lat2: real, lon2: real, radius: real, distance: DistanceFn): (within: bool)
    // a NaN distance is never within range
    ensures within ==> distance(lat1, lon1, lat2, lon2).Meters?
    ensures distance(lat1, lon1, lat2, lon2).Meters? ==>
      (within <==> distance(lat1, lon1, lat2, lon2).m <= radius)
  {
    match distance(lat1, lon1, lat2, lon2)
    case Meters(d) => d <= radius
    case NotANumber => false
  }
}
