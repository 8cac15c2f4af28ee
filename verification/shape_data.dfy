/**
 * The record every shape carries: its id in the world's registry, its
 * transform with the cached inverse, and its material.
 */
module ShapeCore {
  import opened Matrices
  import opened Inversion
  import Materials

  datatype ShapeData = ShapeData(id: nat, transform: Matrix, inverse: Matrix, material: Materials.Material)

  /** The cached inverse is the inverse of the transform, and both are 4x4. */
  ghost predicate Consistent(d: ShapeData)
  {
    Transform4(d.transform) && Invertible(d.transform) && d.inverse == Inverse(d.transform)
  }

  /** Both matrices are 4x4 and the material's pattern, if any, is too. */
  ghost predicate WellShapedData(d: ShapeData)
  {
    Transform4(d.transform) && Transform4(d.inverse) && Materials.WellShapedMaterial(d.material)
  }

  /**
   * The data a shape constructor builds: placeholder id 0, the identity
   * transform, and as cached inverse the identity's inverse, which is the
   * identity itself.
   */
  function DefaultData(m: Materials.Material): (d: ShapeData)
    ensures d.id == 0 && d.material == m
    ensures d.transform == Identity() && d.inverse == Identity()
  {
    ShapeData(0, Identity(), Identity(), m)
  }

  /** The default data is consistent: the identity is invertible and its own inverse. */
  lemma DefaultDataConsistent(m: Materials.Material)
    ensures Consistent(DefaultData(m))
  {
    InverseIdentity();
  }

  /** `ShapeData::set_id`: only the id changes. */
  function SetId(d: ShapeData, id: nat): (r: ShapeData)
    ensures r.id == id
    ensures r.transform == d.transform && r.inverse == d.inverse && r.material == d.material
  {
    d.(id := id)
  }

  /** Setting the id keeps the data consistent and well shaped. */
  lemma SetIdPreserves(d: ShapeData, id: nat)
    ensures Consistent(d) ==> Consistent(SetId(d, id))
    ensures WellShapedData(d) ==> WellShapedData(SetId(d, id))
  {
  }
}
