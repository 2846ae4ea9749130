/**
 * The batch side of the volume bindings: opening several files with rollback on
 * failure (open_minc2_volumes) and checking that volumes agree on their spatial
 * sizes (check_same_dimensions).
 *
 * The imaging library is abstract here. A handle is a number the library hands
 * out; whether a file can be opened is given by a predicate on file names; the
 * spatial sizes of a volume are given as a triple.
 */
module Volumes {
  import opened Results

  type Handle = nat

  /** The error raised when a file cannot be opened: "Trouble reading file: " + its name. */
  datatype OpenError = TroubleReading(filename: string)

  /** The three spatial dimension sizes of a volume, in file order. */
  datatype Sizes = Sizes(d0: nat, d1: nat, d2: nat)

  /**
   * check_same_dimensions (lines 120-153) over the volumes' size triples. It reads
   * the first volume's sizes, then each later volume's in turn, and stops reading
   * after the first volume that differs. `queried` is the number of volumes whose
   * sizes were read.
   */
  method CheckSameDimensions(sizes: seq<Sizes>) returns (allSameSize: bool, ghost queried: nat)
    requires |sizes| > 0
    ensures allSameSize <==> forall v | 0 <= v < |sizes| :: sizes[v] == sizes[0]
    ensures 1 <= queried <= |sizes|
    ensures allSameSize ==> queried == |sizes|
    ensures !allSameSize ==> sizes[queried - 1] != sizes[0]
    ensures forall v | 0 <= v < queried - 1 :: sizes[v] == sizes[0]
  {
    var first := sizes[0];
    queried := 1;
    allSameSize := true;
    var v := 1;
    while v < |sizes| && allSameSize
      invariant 1 <= v <= |sizes|
      invariant queried == v
      invariant allSameSize ==> forall w | 0 <= w < v :: sizes[w] == first
      invariant !allSameSize ==> sizes[v - 1] != first
      invariant forall w | 0 <= w < v - 1 :: sizes[w] == first
    {
      var current := sizes[v];
      queried := queried + 1;
      allSameSize :=
        allSameSize &&
        current.d0 == first.d0 &&
        current.d1 == first.d1 &&
        current.d2 == first.d2;
      v := v + 1;
    }
  }

  /** The set of handles from `lo` up to but not including `hi`. */
  ghost function HandleRange(lo: nat, hi: nat): (hs: set<Handle>)
    ensures forall h: Handle :: h in hs <==> lo <= h < hi
    decreases hi
  {
    if hi <= lo then {} else HandleRange(lo, hi - 1) + {hi - 1}
  }

  /** The imaging library's open volumes. */
  class VolumeLibrary {
    var openHandles: set<Handle>
    var nextHandle: Handle
    /** The file each handle handed out so far was opened on. */
    ghost var fileOf: map<Handle, string>

    /** Handles are never reused: every open handle was handed out earlier. */
    ghost predicate Valid()
      reads this
    {
      forall h | h in openHandles :: h < nextHandle
    }

    constructor ()
      ensures Valid()
      ensures openHandles == {} && nextHandle == 0 && fileOf == map[]
    {
      openHandles := {};
      nextHandle := 0;
      fileOf := map[];
    }

    /**
     * Opening one file read-only (lines 76-93): a new handle when the library can
     * open it, otherwise the error naming the file, with no handle left open.
     */
    method OpenVolume(filename: string, readable: string -> bool) returns (r: Result<Handle, OpenError>)
      requires Valid()
      modifies this
      ensures Valid()
      ensures readable(filename) ==>
        && r == Success(old(nextHandle))
        && old(nextHandle) !in old(openHandles)
        && openHandles == old(openHandles) + {old(nextHandle)}
        && nextHandle == old(nextHandle) + 1
        && fileOf == old(fileOf)[old(nextHandle) := filename]
      ensures !readable(filename) ==>
        && r == Failure(TroubleReading(filename))
        && openHandles == old(openHandles)
        && nextHandle == old(nextHandle)
        && fileOf == old(fileOf)
    {
      if readable(filename) {
        r := Success(nextHandle);
        openHandles := openHandles + {nextHandle};
        fileOf := fileOf[nextHandle := filename];
        nextHandle := nextHandle + 1;
      } else {
        r := Failure(TroubleReading(filename));
      }
    }

    /** Releasing a handle (miclose_volume). */
    method CloseVolume(h: Handle)
      requires Valid()
      modifies this
      ensures Valid()
      ensures openHandles == old(openHandles) - {h}
      ensures nextHandle == old(nextHandle)
      ensures fileOf == old(fileOf)
    {
      openHandles := openHandles - {h};
    }

    /**
     * The rollback loop of lines 108-110: every handle of `volumes`, handed out in
     * a row from `base`, is closed, so only the handles open before are left.
     */
    method CloseAll(volumes: seq<Handle>, ghost base: nat, ghost before: set<Handle>)
      requires Valid()
      requires forall j | 0 <= j < |volumes| :: volumes[j] == base + j
      requires nextHandle == base + |volumes|
      requires forall h | h in before :: h < base
      requires openHandles == before + HandleRange(base, nextHandle)
      modifies this
      ensures Valid()
      ensures openHandles == before
      ensures nextHandle == old(nextHandle)
      ensures fileOf == old(fileOf)
    {
      var j := 0;
      while j < |volumes|
        invariant Valid()
        invariant 0 <= j <= |volumes|
        invariant nextHandle == base + |volumes|
        invariant openHandles == before + HandleRange(base + j, nextHandle)
        invariant fileOf == old(fileOf)
      {
        CloseVolume(volumes[j]);
        assert HandleRange(base + j, nextHandle) - {volumes[j]} == HandleRange(base + j + 1, nextHandle);
        j := j + 1;
      }
      assert HandleRange(base + |volumes|, nextHandle) == {};
    }

    /**
     * open_minc2_volumes (lines 95-118). On success there is one new handle per
     * file name, in the order of the names, and handle i was opened on name i. When the open of name k fails, the
     * handles of names 0 .. k - 1 are closed again and the error of name k is
     * returned, so the set of open handles is what it was before the call.
     */
    method OpenVolumes(filenames: seq<string>, readable: string -> bool) returns (r: Result<seq<Handle>, OpenError>)
      requires Valid()
      modifies this
      ensures Valid()
      ensures r.Success? <==> forall i | 0 <= i < |filenames| :: readable(filenames[i])
      ensures r.Success? ==>
        && |r.value| == |filenames|
        && (forall i | 0 <= i < |filenames| :: r.value[i] == old(nextHandle) + i)
        && (forall i | 0 <= i < |filenames| :: r.value[i] !in old(openHandles))
        && (forall i, j | 0 <= i < j < |filenames| :: r.value[i] != r.value[j])
        && openHandles == old(openHandles) + HandleRange(old(nextHandle), nextHandle)
        && nextHandle == old(nextHandle) + |filenames|
        && (forall i | 0 <= i < |filenames| :: r.value[i] in fileOf && fileOf[r.value[i]] == filenames[i])
      ensures r.Failure? ==>
        exists k | 0 <= k < |filenames| ::
          && !readable(filenames[k])
          && (forall i | 0 <= i < k :: readable(filenames[i]))
          && r.error == TroubleReading(filenames[k])
          && nextHandle == old(nextHandle) + k
      ensures r.Failure? ==> openHandles == old(openHandles)
      ensures r.Failure? ==> forall h: Handle | old(nextHandle) <= h < nextHandle :: h !in openHandles
    {
      ghost var base := nextHandle;
      var volumes: seq<Handle> := [];
      var i := 0;
      while i < |filenames|
        invariant Valid()
        invariant 0 <= i <= |filenames|
        invariant forall j | 0 <= j < i :: readable(filenames[j])
        invariant |volumes| == i && nextHandle == base + i
        invariant forall j | 0 <= j < i :: volumes[j] == base + j
        invariant openHandles == old(openHandles) + HandleRange(base, nextHandle)
        invariant forall h | h in old(openHandles) :: h < base
        invariant forall j | 0 <= j < i :: volumes[j] in fileOf && fileOf[volumes[j]] == filenames[j]
      {
        var outcome := OpenVolume(filenames[i], readable);
        if outcome.Failure? {
          CloseAll(volumes, base, old(openHandles));
          return Failure(outcome.error);
        }
        assert HandleRange(base, nextHandle) == HandleRange(base, base + i) + {base + i};
        volumes := volumes + [outcome.value];
        i := i + 1;
      }
      return Success(volumes);
    }
  }
}
