/**
 * The four-component vector of pixelbuffer/math/vec4.h, the base class of
 * the RGBA colour. Components are modelled as unbounded integers; the one
 * instantiation in the raster, `vec4_t<uint8_t>`, is the subset type
 * `Color.RGBAColor`.
 */
module Vector4 {

  /**
   * `vec4_t`: the unions let the same four fields be read as x/y/z/w or as
   * r/g/b/a.
   */
  datatype Vec4 = Vec4(x: int, y: int, z: int, w: int) {
    const r: int := x
    const g: int := y
    const b: int := z
    const a: int := w
  }

  /** The part of `vec3_t` that the vec3 constructor of `vec4_t` reads. */
  datatype Vec3 = Vec3(x: int, y: int, z: int)

  /** `operator[]`: component `index % 4`, in the order x, y, z, w. */
  function Get(v: Vec4, index: nat): (n: int)
    ensures n == Get(v, index % 4) || index >= 4
    ensures index % 4 == 0 ==> n == v.x
    ensures index % 4 == 1 ==> n == v.y
    ensures index % 4 == 2 ==> n == v.z
    ensures index % 4 == 3 ==> n == v.w
  {
    var i := index % 4;
    if i == 0 then v.x else if i == 1 then v.y else if i == 2 then v.z else v.w
  }

  /**
   * An assignment through the reference that `operator[]` returns: the
   * addressed component takes the new value, the other three keep theirs.
   */
  function Set(v: Vec4, index: nat, n: int): (u: Vec4)
    ensures Get(u, index) == n
    ensures forall j: nat :: j % 4 != index % 4 ==> Get(u, j) == Get(v, j)
  {
    var i := index % 4;
    if i == 0 then v.(x := n) else if i == 1 then v.(y := n) else if i == 2 then v.(z := n) else v.(w := n)
  }

  /** Default constructor: the homogeneous origin (0, 0, 0, 1). */
  function Origin(): (v: Vec4)
    ensures Get(v, 0) == 0 && Get(v, 1) == 0 && Get(v, 2) == 0 && Get(v, 3) == 1
  {
    Vec4(0, 0, 0, 1)
  }

  /** Single-value constructor: every component equals n. */
  function Splat(n: int): (v: Vec4)
    ensures forall i: nat :: Get(v, i) == n
  {
    Vec4(n, n, n, n)
  }

  /** Four-argument constructor called with two arguments: z = 0, w = 1. */
  function FromXY(x: int, y: int): (v: Vec4)
    ensures Get(v, 0) == x && Get(v, 1) == y && Get(v, 2) == 0 && Get(v, 3) == 1
  {
    Vec4(x, y, 0, 1)
  }

  /** Four-argument constructor called with three arguments: w = 1. */
  function FromXYZ(x: int, y: int, z: int): (v: Vec4)
    ensures Get(v, 0) == x && Get(v, 1) == y && Get(v, 2) == z && Get(v, 3) == 1
  {
    Vec4(x, y, z, 1)
  }

  /** vec3 constructor: copies x, y, z and takes w (default 1). */
  function FromVec3(v3: Vec3, w: int := 1): (v: Vec4)
    ensures Get(v, 0) == v3.x && Get(v, 1) == v3.y && Get(v, 2) == v3.z && Get(v, 3) == w
  {
    Vec4(v3.x, v3.y, v3.z, w)
  }

  /** `operator==`: componentwise, which is exactly value equality. */
  function Equal(u: Vec4, v: Vec4): (eq: bool)
    ensures eq <==> u == v
  {
    u.x == v.x && u.y == v.y && u.z == v.z && u.w == v.w
  }

  /** Two vectors are equal exactly when `operator[]` reads the same at every index. */
  lemma {:induction false} EqualByIndex(u: Vec4, v: Vec4)
    ensures Equal(u, v) <==> forall i: nat :: Get(u, i) == Get(v, i)
  {
    if !Equal(u, v) {
      assert Get(u, 0) == u.x && Get(u, 1) == u.y && Get(u, 2) == u.z && Get(u, 3) == u.w;
      assert Get(v, 0) == v.x && Get(v, 1) == v.y && Get(v, 2) == v.z && Get(v, 3) == v.w;
      assert exists i: nat :: i < 4 && Get(u, i) != Get(v, i);
    }
  }

  /** `operator!=`: the negation of `operator==`. */
  function NotEqual(u: Vec4, v: Vec4): (ne: bool)
    ensures ne <==> u != v
  {
    !Equal(u, v)
  }

  lemma {:induction false} ConstructorExamples()
    ensures Origin() == Vec4(0, 0, 0, 1)
    ensures FromVec3(Vec3(4, 3, 0), 1) == Vec4(4, 3, 0, 1)
    ensures FromVec3(Vec3(4, 3, 0)) == Vec4(4, 3, 0, 1)
  {
  }
}
