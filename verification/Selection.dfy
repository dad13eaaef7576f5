/** Choosing the version and the error correction level of a symbol. */
module Selection {
  import opened Segments
  import opened BitStream

  /** Data capacities in bytes, by error correction level and version. */
  type Capacities = seq<seq<nat>>

  ghost predicate AreCapacities(c: Capacities) {
    |c| == 4 && forall e | 0 <= e < 4 :: |c[e]| == 41
  }

  /** The segments fit the version at the level. */
  ghost predicate Fits(segs: seq<Segment>, c: Capacities, version: nat, level: nat)
    requires AreCapacities(c) && IsVersion(version) && level < 4
  {
    Encodable(segs, version) && StreamSize(segs, version) <= 8 * c[level][version]
  }

  /** Fails exactly when no version of the range fits; otherwise chooses the least that does.  A boosted level
      is the highest of levels 1 to 3 that fits, if any does. */
  method SelectVersion(segs: seq<Segment>, c: Capacities, ecl: nat, minVersion: nat, maxVersion: nat, boostEcl: bool)
    returns (found: bool, version: nat, level: nat, dataUsedBits: int)
    requires AreValid(segs) && AreCapacities(c) && ecl < 4
    requires 1 <= minVersion <= maxVersion <= 40
    ensures found <==> exists v: nat | minVersion <= v <= maxVersion :: Fits(segs, c, v, ecl)
    ensures found ==> minVersion <= version <= maxVersion && Fits(segs, c, version, ecl)
                      && dataUsedBits == StreamSize(segs, version)
    ensures found ==> forall v: nat | minVersion <= v < version :: !Fits(segs, c, v, ecl)
    ensures found ==> level < 4 && Fits(segs, c, version, level)
    ensures found && !boostEcl ==> level == ecl
    ensures found && boostEcl ==> ecl <= level && forall e: nat | level < e < 4 :: !Fits(segs, c, version, e)
  {
    hide Encodable, StreamSize;
    version, level := minVersion, ecl;
    while true
      invariant minVersion <= version <= maxVersion
      invariant forall v: nat | minVersion <= v < version :: !Fits(segs, c, v, ecl)
      decreases maxVersion - version
    {
      var dataCapacityBits := c[ecl][version] * 8;
      dataUsedBits := GetTotalBits(segs, version);
      if dataUsedBits != LENGTH_OVERFLOW && dataUsedBits <= dataCapacityBits {
        break;
      }
      if version >= maxVersion {
        found := false;
        return;
      }
      version := version + 1;
    }
    found := true;
    for i := 1 to 4
      invariant level < 4 && Fits(segs, c, version, level)
      invariant !boostEcl ==> level == ecl
      invariant boostEcl ==> level == ecl || 1 <= level < i
      invariant boostEcl ==> forall e: nat | 1 <= e < i && Fits(segs, c, version, e) :: e <= level || level == ecl
      invariant boostEcl ==> forall e: nat | 1 <= e < i && Fits(segs, c, version, e) && level == ecl :: e <= ecl
    {
      if boostEcl && dataUsedBits <= c[i][version] * 8 {
        level := i;
      }
    }
  }
}
