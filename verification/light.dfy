/** A point light: a position and an intensity. */
module Lights {
  import opened Tuples
  import opened Colours

  datatype Light = Light(position: Tuple, intensity: Colour)

  /** `Light::point_light`. */
  function PointLight(position: Tuple, intensity: Colour): (l: Light)
    ensures l.position == position && l.intensity == intensity
  {
    Light(position, intensity)
  }
}
