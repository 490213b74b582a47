/**
 * The value types shared by the system container, the selection evaluator and
 * the grid search: a 3-vector of reals for Eigen::Vector3f, the per-atom record,
 * and the periodic box as the two facts the grid search asks of it.
 */
module AtomData {
  datatype Vec3 = Vec3(x: real, y: real, z: real)

  /** Per-atom attributes (coordinates live in the frames). */
  datatype Atom = Atom(
    name: string,
    resname: string,
    tag: string,
    chain: char,
    resid: int,
    resindex: int,
    mass: real,
    occupancy: real,
    beta: real)

  /** The periodic box: its extents along x, y, z and whether it is triclinic. */
  datatype Box = Box(extents: Vec3, triclinic: bool)

  /** The coordinate of `v` along axis 0, 1 or 2. */
  function Axis(v: Vec3, dim: int): real
    requires 0 <= dim < 3
  {
    if dim == 0 then v.x else if dim == 1 then v.y else v.z
  }
}
