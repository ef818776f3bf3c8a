/** Finding a mounted volume through which to read a part of a disk, so that what encrypts the volume is
    bypassed. */
module VolumeAccess {
  import opened Windows
  import opened AsciiCase

  /** Where a raw device lies on its disk. */
  datatype Extent = Extent(device: string, offset: nat, size: nat) {
    predicate Holds(disk: string, at: nat) {
      SameText(disk, device) && offset < at < Low64(offset + size)
    }
  }

  /** One way to access a volume; only physical disks and device interfaces have an extent. */
  datatype Location = Location(path: string, mounted: bool, extent: Option<Extent>)

  type Volume = seq<Location>

  datatype Access = Access(path: string, offset: nat)

  /** The location places `at` on the disk inside the volume. */
  predicate Places(location: Location, disk: string, at: nat) {
    location.extent.Some? && location.extent.value.Holds(disk, at)
  }

  /** Location `i` is the first to place `at` in the volume, and `j` the first mounted one after it. */
  ghost predicate Chosen(volume: Volume, disk: string, at: nat, i: nat, j: nat) {
    && i < j < |volume| && Places(volume[i], disk, at) && volume[j].mounted
    && (forall k :: 0 <= k < i ==> !Places(volume[k], disk, at))
    && (forall k :: i < k < j ==> !volume[k].mounted)
  }

  /** Some location places `at` in the volume, and a mounted one comes after it. */
  ghost predicate Usable(volume: Volume, disk: string, at: nat) {
    exists i, j :: 0 <= i < j < |volume| && Places(volume[i], disk, at) && volume[j].mounted
  }

  /** There is access exactly when some volume is usable; it is through the first such volume, and the offset is
      moved to the start of the volume. */
  method ReadAtVolumeLevel(volumes: seq<Volume>, disk: string, at: nat) returns (access: Option<Access>)
    ensures access.Some? <==> exists v :: 0 <= v < |volumes| && Usable(volumes[v], disk, at)
    ensures access.Some? ==> exists v: nat, i: nat, j: nat :: IsAccess(access.value, volumes, v, i, j, disk, at)
  {
    for v := 0 to |volumes|
      invariant forall u :: 0 <= u < v ==> !Usable(volumes[u], disk, at)
    {
      ghost var i, j;
      access, i, j := AccessIn(volumes[v], disk, at);
      if access.Some? {
        assert IsAccess(access.value, volumes, v, i, j, disk, at);
        return;
      }
    }
    access := None;
  }

  ghost predicate IsAccess(access: Access, volumes: seq<Volume>, v: nat, i: nat, j: nat, disk: string, at: nat) {
    && v < |volumes| && (forall u :: 0 <= u < v ==> !Usable(volumes[u], disk, at))
    && Chosen(volumes[v], disk, at, i, j)
    && access == Access(volumes[v][j].path, at - volumes[v][i].extent.value.offset)
  }

  /** A location places an offset if it is on that disk, whatever the case of its name, and the offset lies inside it,
      past its first byte. */
  lemma PlacesIff(location: Location, disk: string, at: nat)
    ensures Places(location, disk, at) <==>
      && location.extent.Some? && SameText(disk, location.extent.value.device)
      && location.extent.value.offset < at
      && at < (location.extent.value.offset + location.extent.value.size) % 0x1_0000_0000_0000_0000
  {
  }

  /** The access is to the same place: inside the volume, as far from its start as the offset is. */
  lemma AccessIsInside(access: Access, volumes: seq<Volume>, v: nat, i: nat, j: nat, disk: string, at: nat)
    requires IsAccess(access, volumes, v, i, j, disk, at)
    ensures volumes[v][j].mounted && access.path == volumes[v][j].path
    ensures volumes[v][i].extent.value.offset + access.offset == at
    ensures 0 < access.offset < volumes[v][i].extent.value.size
  {
  }

  method AccessIn(volume: Volume, disk: string, at: nat) returns (access: Option<Access>, ghost i: nat, ghost j: nat)
    ensures access.Some? <==> Usable(volume, disk, at)
    ensures access.Some? ==>
      Chosen(volume, disk, at, i, j) && access.value == Access(volume[j].path, at - volume[i].extent.value.offset)
  {
    access, i, j := None, 0, 0;
    var found, extent := false, Extent("", 0, 0);
    for k := 0 to |volume|
      invariant if found then i < k && Places(volume[i], disk, at) && volume[i].extent == Some(extent) else i == k
      invariant forall l :: 0 <= l < i ==> !Places(volume[l], disk, at)
      invariant forall l :: i < l < k ==> !volume[l].mounted
    {
      if found {
        if volume[k].mounted && extent.offset < at < Low64(extent.offset + extent.size) {
          return Some(Access(volume[k].path, at - extent.offset)), i, k;
        }
      } else if volume[k].extent.Some? {
        extent := volume[k].extent.value;
        found := extent.Holds(disk, at);
        i := if found then k else k + 1;
      } else {
        i := k + 1;
      }
    }
  }
}
