/**
 * Surface materials and the Phong reflection model: an ambient term that
 * is always present, and diffuse and specular terms that vanish in shadow
 * or when the light is behind the surface.
 */
module Materials {
  import opened Wrappers
  import opened Tuples
  import opened Matrices
  import opened Colours
  import opened Patterns
  import opened PatternTypes
  import opened Lights

  datatype Material = Material(
    colour: Colour,
    ambient: real,
    diffuse: real,
    specular: real,
    shininess: real,
    reflective: real,
    transparency: real,
    refractiveIndex: real,
    pattern: Option<PatternType>)

  /** The pattern, when present, has 4x4 matrices. */
  ghost predicate WellShapedMaterial(m: Material)
  {
    m.pattern.Some? ==> WellShaped(m.pattern.value.data)
  }

  /** `Material::new`: the default surface. */
  function New(): (m: Material)
    ensures m.colour == Colour(1.0, 1.0, 1.0)
    ensures m.ambient == 0.1 && m.diffuse == 0.9 && m.specular == 0.9 && m.shininess == 200.0
    ensures m.reflective == 0.0 && m.transparency == 0.0 && m.refractiveIndex == 1.0
    ensures m.pattern == None
    ensures WellShapedMaterial(m)
  {
    Material(White(), 0.1, 0.9, 0.9, 200.0, 0.0, 0.0, 1.0, None)
  }

  /** `set_colour`: only the colour changes. */
  function SetColour(m: Material, c: Colour): (r: Material)
    ensures r.colour == c
    ensures r.ambient == m.ambient && r.diffuse == m.diffuse && r.specular == m.specular
    ensures r.shininess == m.shininess && r.reflective == m.reflective && r.transparency == m.transparency
    ensures r.refractiveIndex == m.refractiveIndex && r.pattern == m.pattern
  {
    m.(colour := c)
  }

  /** `set_ambient`: only the ambient coefficient changes. */
  function SetAmbient(m: Material, v: real): (r: Material)
    ensures r.ambient == v
    ensures r.colour == m.colour && r.diffuse == m.diffuse && r.specular == m.specular
    ensures r.shininess == m.shininess && r.reflective == m.reflective && r.transparency == m.transparency
    ensures r.refractiveIndex == m.refractiveIndex && r.pattern == m.pattern
  {
    m.(ambient := v)
  }

  /** `set_diffuse`: only the diffuse coefficient changes. */
  function SetDiffuse(m: Material, v: real): (r: Material)
    ensures r.diffuse == v
    ensures r.colour == m.colour && r.ambient == m.ambient && r.specular == m.specular
    ensures r.shininess == m.shininess && r.reflective == m.reflective && r.transparency == m.transparency
    ensures r.refractiveIndex == m.refractiveIndex && r.pattern == m.pattern
  {
    m.(diffuse := v)
  }

  /** `set_specular`: only the specular coefficient changes. */
  function SetSpecular(m: Material, v: real): (r: Material)
    ensures r.specular == v
    ensures r.colour == m.colour && r.ambient == m.ambient && r.diffuse == m.diffuse
    ensures r.shininess == m.shininess && r.reflective == m.reflective && r.transparency == m.transparency
    ensures r.refractiveIndex == m.refractiveIndex && r.pattern == m.pattern
  {
    m.(specular := v)
  }

  /** `set_shininess`: only the shininess changes. */
  function SetShininess(m: Material, v: real): (r: Material)
    ensures r.shininess == v
    ensures r.colour == m.colour && r.ambient == m.ambient && r.diffuse == m.diffuse
    ensures r.specular == m.specular && r.reflective == m.reflective && r.transparency == m.transparency
    ensures r.refractiveIndex == m.refractiveIndex && r.pattern == m.pattern
  {
    m.(shininess := v)
  }

  /** `set_pattern`: only the pattern changes. */
  function SetPattern(m: Material, p: Option<PatternType>): (r: Material)
    ensures r.pattern == p
    ensures r.colour == m.colour && r.ambient == m.ambient && r.diffuse == m.diffuse
    ensures r.specular == m.specular && r.shininess == m.shininess && r.reflective == m.reflective
    ensures r.transparency == m.transparency && r.refractiveIndex == m.refractiveIndex
  {
    m.(pattern := p)
  }

  /** The colour of the surface at a point: the pattern's sample if there is one, else the material colour. */
  function SurfaceColour(num: Numerics, m: Material, objectInverse: Matrix, point: Tuple): (c: Colour)
    requires WellShapedMaterial(m) && Transform4(objectInverse)
    ensures m.pattern.None? ==> c == m.colour
    ensures m.pattern.Some? ==> c == PatternAtShape(num, m.pattern.value, objectInverse, point)
  {
    match m.pattern
    case Some(p) => PatternAtShape(num, p, objectInverse, point)
    case None => m.colour
  }

  /** The three Phong terms, kept apart so each can be described. */
  datatype Terms = Terms(ambient: Colour, diffuse: Colour, specular: Colour)

  /** The unit vector from the point toward the light. */
  function LightVector(num: Numerics, light: Light, point: Tuple): Tuple
    requires num.Valid()
  {
    Normalise(num, Tuples.Sub(light.position, point))
  }

  /** The body of `lighting`, up to the final sum. */
  function PhongTerms(num: Numerics, m: Material, objectInverse: Matrix, light: Light,
                      point: Tuple, eyev: Tuple, normalv: Tuple, inShadow: bool): (t: Terms)
    requires num.Valid() && WellShapedMaterial(m) && Transform4(objectInverse)
    ensures var effective := Blend(SurfaceColour(num, m, objectInverse, point), light.intensity);
      t.ambient == Colours.Scale(effective, m.ambient)
    ensures var lightDotNormal := Dot(LightVector(num, light, point), normalv);
      (lightDotNormal < 0.0 || inShadow) ==> t.diffuse == Black() && t.specular == Black()
    ensures var lightv := LightVector(num, light, point);
      var lightDotNormal := Dot(lightv, normalv);
      var effective := Blend(SurfaceColour(num, m, objectInverse, point), light.intensity);
      !(lightDotNormal < 0.0 || inShadow) ==>
        && t.diffuse == Colours.Scale(Colours.Scale(effective, m.diffuse), lightDotNormal)
        && (Dot(Reflect(Neg(lightv), normalv), eyev) <= 0.0 ==> t.specular == Black())
        && (Dot(Reflect(Neg(lightv), normalv), eyev) > 0.0 ==>
              t.specular == Colours.Scale(Colours.Scale(light.intensity, m.specular),
                                          num.powf(Dot(Reflect(Neg(lightv), normalv), eyev), m.shininess)))
  {
    var colour := SurfaceColour(num, m, objectInverse, point);
    var effective := Blend(colour, light.intensity);
    var lightv := LightVector(num, light, point);
    var ambient := Colours.Scale(effective, m.ambient);
    var lightDotNormal := Dot(lightv, normalv);
    if lightDotNormal < 0.0 || inShadow then
      Terms(ambient, Black(), Black())
    else
      var diffuse := Colours.Scale(Colours.Scale(effective, m.diffuse), lightDotNormal);
      var reflectv := Reflect(Neg(lightv), normalv);
      var reflectDotEye := Dot(reflectv, eyev);
      if reflectDotEye <= 0.0 then
        Terms(ambient, diffuse, Black())
      else
        var factor := num.powf(reflectDotEye, m.shininess);
        Terms(ambient, diffuse, Colours.Scale(Colours.Scale(light.intensity, m.specular), factor))
  }

  /**
   * `lighting`: ambient alone in shadow or with the light behind the
   * surface; ambient + diffuse when the reflection points away from the
   * eye; otherwise ambient + diffuse + specular, with no clamping.
   */
  function Lighting(num: Numerics, m: Material, objectInverse: Matrix, light: Light,
                    point: Tuple, eyev: Tuple, normalv: Tuple, inShadow: bool): (c: Colour)
    requires num.Valid() && WellShapedMaterial(m) && Transform4(objectInverse)
    ensures var effective := Blend(SurfaceColour(num, m, objectInverse, point), light.intensity);
      var lightv := LightVector(num, light, point);
      var lightDotNormal := Dot(lightv, normalv);
      var reflectDotEye := Dot(Reflect(Neg(lightv), normalv), eyev);
      var ambient := Colours.Scale(effective, m.ambient);
      var diffuse := Colours.Scale(Colours.Scale(effective, m.diffuse), lightDotNormal);
      var specular := Colours.Scale(Colours.Scale(light.intensity, m.specular), num.powf(reflectDotEye, m.shininess));
      && ((inShadow || lightDotNormal < 0.0) ==> c == ambient)
      && (!inShadow && 0.0 <= lightDotNormal && reflectDotEye <= 0.0 ==> c == Colours.Add(ambient, diffuse))
      && (!inShadow && 0.0 <= lightDotNormal && 0.0 < reflectDotEye ==> c == Colours.Add(Colours.Add(ambient, diffuse), specular))
  {
    var t := PhongTerms(num, m, objectInverse, light, point, eyev, normalv, inShadow);
    Colours.Add(Colours.Add(t.ambient, t.diffuse), t.specular)
  }

  /** In shadow only the ambient term is left: surface colour x intensity x ambient. */
  lemma ShadowLeavesAmbient(num: Numerics, m: Material, objectInverse: Matrix, light: Light,
                            point: Tuple, eyev: Tuple, normalv: Tuple)
    requires num.Valid() && WellShapedMaterial(m) && Transform4(objectInverse)
    ensures Lighting(num, m, objectInverse, light, point, eyev, normalv, true)
      == Colours.Scale(Blend(SurfaceColour(num, m, objectInverse, point), light.intensity), m.ambient)
  {
  }

  /** Scaling a tuple by d scales its squared length by d * d. */
  lemma DotScaled(n: Tuple, d: real)
    ensures Dot(Tuples.Scale(n, d), Tuples.Scale(n, d)) == (d * d) * Dot(n, n)
  {
  }

  /**
   * A light at distance d > 0 along the unit normal from the point is seen
   * exactly along the normal.
   */
  lemma LightAlongNormal(num: Numerics, light: Light, point: Tuple, normalv: Tuple, d: real)
    requires num.Valid() && 0.0 < d && Dot(normalv, normalv) == 1.0
    requires light.position == Tuples.Add(point, Tuples.Scale(normalv, d))
    ensures LightVector(num, light, point) == normalv
  {
    var toLight := Tuples.Sub(light.position, point);
    assert toLight == Tuples.Scale(normalv, d);
    assert Dot(toLight, toLight) == d * d by {
      DotScaled(normalv, d);
    }
    NormaliseByMagnitude(num, toLight, d);
    ScaleBack(normalv, d);
  }

  /** Reflecting the reversed unit normal about the normal gives the normal back. */
  lemma ReflectReversedNormal(n: Tuple)
    requires Dot(n, n) == 1.0
    ensures Reflect(Neg(n), n) == n
  {
    assert Dot(Neg(n), n) == -1.0;
  }

  /**
   * Lit head-on with the eye on the normal, every term is at full
   * strength: ambient and diffuse of the effective colour, plus the whole
   * specular of the light. Nothing is clamped, so a bright material goes
   * above 1.
   */
  lemma HeadOn(num: Numerics, m: Material, objectInverse: Matrix, light: Light,
               point: Tuple, normalv: Tuple, d: real)
    requires num.Valid() && WellShapedMaterial(m) && Transform4(objectInverse)
    requires 0.0 < d && Dot(normalv, normalv) == 1.0
    requires light.position == Tuples.Add(point, Tuples.Scale(normalv, d))
    ensures var effective := Blend(SurfaceColour(num, m, objectInverse, point), light.intensity);
      Lighting(num, m, objectInverse, light, point, normalv, normalv, false)
        == Colours.Add(Colours.Add(Colours.Scale(effective, m.ambient), Colours.Scale(effective, m.diffuse)),
                       Colours.Scale(light.intensity, m.specular))
  {
    LightAlongNormal(num, light, point, normalv, d);
    ReflectReversedNormal(normalv);
    var effective := Blend(SurfaceColour(num, m, objectInverse, point), light.intensity);
    var t := PhongTerms(num, m, objectInverse, light, point, normalv, normalv, false);
    assert num.powf(1.0, m.shininess) == 1.0;
    assert t.diffuse == Colours.Scale(effective, m.diffuse) by {
      ScaleUnitZero(Colours.Scale(effective, m.diffuse), 1.0, 1.0);
    }
    assert t.specular == Colours.Scale(light.intensity, m.specular) by {
      ScaleUnitZero(Colours.Scale(light.intensity, m.specular), 1.0, 1.0);
    }
  }

  /** With the default material and a white light, head-on lighting gives 0.1 + 0.9 + 0.9 = 1.9. */
  lemma HeadOnDefault(num: Numerics, objectInverse: Matrix, light: Light,
                      point: Tuple, normalv: Tuple, d: real)
    requires num.Valid() && Transform4(objectInverse)
    requires 0.0 < d && Dot(normalv, normalv) == 1.0
    requires light.position == Tuples.Add(point, Tuples.Scale(normalv, d))
    requires light.intensity == White()
    ensures Lighting(num, New(), objectInverse, light, point, normalv, normalv, false) == Colour(1.9, 1.9, 1.9)
  {
    var m := New();
    HeadOn(num, m, objectInverse, light, point, normalv, d);
    assert Blend(SurfaceColour(num, m, objectInverse, point), light.intensity) == White();
  }

  /** With the light behind the surface, diffuse and specular vanish and only ambient is left. */
  lemma LightBehindSurface(num: Numerics, m: Material, objectInverse: Matrix, light: Light,
                           point: Tuple, eyev: Tuple, normalv: Tuple)
    requires num.Valid() && WellShapedMaterial(m) && Transform4(objectInverse)
    requires Dot(LightVector(num, light, point), normalv) < 0.0
    ensures Lighting(num, m, objectInverse, light, point, eyev, normalv, false)
      == Colours.Scale(Blend(SurfaceColour(num, m, objectInverse, point), light.intensity), m.ambient)
  {
  }
}
