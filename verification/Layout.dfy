/** Block numbering: block `zone * block_per_zone + offset` is block `offset` of that zone. The
    functions are recursive so that the verifier never multiplies two variables. */
module Layout {
  datatype Option<+T> = None | Some(value: T)

  /** First block of a zone. */
  function First(bpz: nat, z: nat): nat {
    if z == 0 then 0 else First(bpz, z - 1) + bpz
  }

  function ZoneOf(bpz: nat, b: nat): nat
    requires bpz > 0
  {
    if b < bpz then 0 else 1 + ZoneOf(bpz, b - bpz)
  }

  /** Offset of a block in its zone. */
  function OffsetOf(bpz: nat, b: nat): nat
    requires bpz > 0
  {
    if b < bpz then b else OffsetOf(bpz, b - bpz)
  }

  lemma {:induction false} FirstIsProduct(bpz: nat, z: nat)
    ensures First(bpz, z) == z * bpz
  {
    if z > 0 {
      FirstIsProduct(bpz, z - 1);
      assert z * bpz == (z - 1) * bpz + bpz;
    }
  }

  lemma {:induction false} FirstMonotone(bpz: nat, y: nat, z: nat)
    requires y <= z
    ensures First(bpz, y) <= First(bpz, z)
    ensures y < z ==> First(bpz, y) + bpz <= First(bpz, z)
  {
    if y < z {
      FirstMonotone(bpz, y, z - 1);
    }
  }

  lemma {:induction false} BlockParts(bpz: nat, z: nat, j: nat)
    requires j < bpz
    ensures ZoneOf(bpz, First(bpz, z) + j) == z && OffsetOf(bpz, First(bpz, z) + j) == j
  {
    if z > 0 {
      BlockParts(bpz, z - 1, j);
      assert First(bpz, z) + j - bpz == First(bpz, z - 1) + j;
    }
  }

  lemma {:induction false} PartsOfBlock(bpz: nat, b: nat)
    requires bpz > 0
    ensures First(bpz, ZoneOf(bpz, b)) + OffsetOf(bpz, b) == b && OffsetOf(bpz, b) < bpz
  {
    if b >= bpz {
      PartsOfBlock(bpz, b - bpz);
    }
  }

  /** A block lies in a zone exactly when its number lies in the zone's range. */
  lemma InZone(bpz: nat, b: nat, z: nat)
    requires bpz > 0
    ensures ZoneOf(bpz, b) == z <==> First(bpz, z) <= b < First(bpz, z) + bpz
  {
    PartsOfBlock(bpz, b);
    if First(bpz, z) <= b < First(bpz, z) + bpz {
      BlockParts(bpz, z, b - First(bpz, z));
    }
  }

  lemma BlockInRange(bpz: nat, zones: nat, z: nat, j: nat)
    requires z < zones && j < bpz
    ensures First(bpz, z) + j < First(bpz, zones)
  {
    FirstMonotone(bpz, z, zones);
  }

  lemma ZoneInRange(bpz: nat, zones: nat, b: nat)
    requires bpz > 0 && b < First(bpz, zones)
    ensures ZoneOf(bpz, b) < zones
  {
    PartsOfBlock(bpz, b);
    if ZoneOf(bpz, b) >= zones {
      FirstMonotone(bpz, zones, ZoneOf(bpz, b));
    }
  }

  lemma {:induction false} SubsetSize(a: set<nat>, b: set<nat>)
    requires a <= b
    ensures |a| <= |b|
  {
    if a != {} {
      var x :| x in a;
      SubsetSize(a - {x}, b - {x});
    }
  }
}
