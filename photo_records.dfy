/**
 * Values stored with a placed photo: vectors, images known only by a handle, compressed image
 * bytes and the saved record `PhotoData`
 * (PhotoLibrary/ARPhotoViewController.swift, the `PhotoData` struct).
 */
module PhotoRecords {

  /** Compressed image bytes (Swift `Data`). */
  type Bytes = seq<bv8>

  /** A picture from the photo library. Its pixels are not modelled: two images are equal only when they are the same handle. */
  datatype Image = Picture(handle: nat)

  /** A three-component engine vector; the engine's 32-bit floats are modelled as reals. */
  datatype Vec3 = Vec3(x: real, y: real, z: real)

  const Origin: Vec3 := Vec3(0.0, 0.0, 0.0)

  /** The scale of a freshly created node. */
  const UnitScale: Vec3 := Vec3(1.0, 1.0, 1.0)

  /** The scale a record gets when it is built in code without one. */
  const DefaultScale: seq<real> := [1.0, 1.0, 1.0]

  /** A vector written out as the `[x, y, z]` array a record stores. */
  function Components(v: Vec3): (r: seq<real>)
    ensures |r| == 3
    ensures FromComponents(r) == v
  {
    [v.x, v.y, v.z]
  }

  /** The vector built from the first three entries of a stored array. */
  function FromComponents(a: seq<real>): (r: Vec3)
    requires |a| >= 3
    ensures [r.x, r.y, r.z] == a[..3]
  {
    Vec3(a[0], a[1], a[2])
  }

  /**
   * A saved photo: its JPEG bytes and the node's position, Euler angles and
   * scale as arrays. A record built without a scale gets unit scale.
   */
  datatype PhotoData = PhotoData(
    imageData: Bytes,
    position: seq<real>,
    rotation: seq<real>,
    scale: seq<real> := DefaultScale)

  /** Omitting the scale yields three unit entries, which a restore reads back as unit scale. */
  lemma DefaultScaleIsUnit(imageData: Bytes, position: seq<real>, rotation: seq<real>)
    ensures |PhotoData(imageData, position, rotation).scale| == 3
    ensures FromComponents(PhotoData(imageData, position, rotation).scale) == UnitScale
  {
  }
}
