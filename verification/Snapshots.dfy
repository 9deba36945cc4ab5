/** A reference to snapshot bytes in an arena: the slab, the offset in it, and the length. */
module Snapshots {
  datatype SnapshotRef = SnapshotRef(off: nat, slab: nat, len: nat)
}
