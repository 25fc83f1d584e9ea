/** The zoned device as the simulation sees it through `ZONE_SIM`: pages of 4096 bytes, one write
    pointer per zone, and a condition that follows from the write pointer. */
module Device {
  import opened Codec
  import opened Layout
  import opened StoreModel

  type Page = p: seq<Byte> | |p| == BLOCK_SIZE witness seq(BLOCK_SIZE, i => 0)

  datatype ZoneCond = CondEmpty | CondImpOpen | CondFull

  /** One page write. */
  datatype Written = Written(offset: int, page: Page)

  /** The page last written at an offset. */
  function LastWritten(log: seq<Written>, offset: int): Option<Page> {
    if log == [] then None
    else
      var w := log[|log| - 1];
      if w.offset == offset then Some(w.page) else LastWritten(log[..|log| - 1], offset)
  }

  /** The medium has, at every offset that was ever written, the page last written there. */
  ghost predicate Remembers(log: seq<Written>, media: seq<Page>) {
    forall b :: 0 <= b < |media| ==>
      var last := LastWritten(log, BLOCK_SIZE * b);
      last.Some? ==> media[b] == last.value
  }

  /** A page stays the one last written at its offset until that offset is written again. */
  lemma {:induction false} LastWrittenStays(log: seq<Written>, w: Written, later: seq<Written>)
    requires forall v :: v in later ==> v.offset != w.offset
    ensures LastWritten(log + [w] + later, w.offset) == Some(w.page)
  {
    var n := |later| - 1;
    if later == [] {
      assert log + [w] + later == log + [w];
    } else {
      var all := log + [w] + later;
      assert all[..|all| - 1] == log + [w] + later[..n];
      LastWrittenStays(log, w, later[..n]);
    }
  }

  lemma RemembersMore(log: seq<Written>, media: seq<Page>, b: nat, page: Page)
    requires Remembers(log, media) && b < |media|
    ensures Remembers(log + [Written(BLOCK_SIZE * b, page)], media[b := page])
  {
    assert (log + [Written(BLOCK_SIZE * b, page)])[..|log|] == log;
  }

  class ZonedDevice {
    const c: Config
    /** Byte address of the write pointer of each zone. */
    var wp: seq<int>
    /** Contents by page number. */
    var media: seq<Page>
    /** Pages written since the last reset of each zone. */
    ghost var fill: seq<nat>
    /** All page writes that succeeded, in order. */
    ghost var log: seq<Written>

    ghost predicate Valid()
      reads this
    {
      && c.Valid() && |wp| == |fill| == c.zones && |media| == c.Blocks()
      && (forall z :: 0 <= z < c.zones ==> fill[z] <= c.cap[z])
      && (forall z :: 0 <= z < c.zones ==> wp[z] == BLOCK_SIZE * (First(c.bpz, z) + fill[z]))
      && Remembers(log, media)
    }

    constructor (c: Config)
      requires c.Valid()
      ensures Valid() && this.c == c && fill == seq(c.zones, z => 0) && log == []
    {
      this.c := c;
      wp := seq(c.zones, z requires 0 <= z => BLOCK_SIZE * First(c.bpz, z));
      media := seq(c.Blocks(), b => seq(BLOCK_SIZE, i => 0));
      fill := seq(c.zones, z => 0);
      log := [];
    }

    function Start(z: nat): int {
      BLOCK_SIZE * (z * c.bpz)
    }

    function ZoneAt(offset: int): int
      requires c.bpz > 0
    {
      offset / BLOCK_SIZE / c.bpz
    }

    lemma StartIs(z: nat)
      ensures Start(z) == BLOCK_SIZE * First(c.bpz, z)
    {
      FirstIsProduct(c.bpz, z);
    }

    /** `get_zone_cond`: the device reports FULL once the capacity is written. */
    method Cond(z: nat) returns (cond: ZoneCond)
      requires Valid() && z < c.zones
      ensures cond == if fill[z] == 0 then CondEmpty else if fill[z] == c.cap[z] then CondFull else CondImpOpen
    {
      StartIs(z);
      cond := if wp[z] == Start(z) then CondEmpty
              else if wp[z] == Start(z) + BLOCK_SIZE * c.cap[z] then CondFull
              else CondImpOpen;
    }

    /** `get_empty_rate`. */
    method ZoneEmptyRate(z: nat) returns (r: real)
      requires Valid() && z < c.zones
      ensures r == EmptyRate(c.cap[z], fill[z])
    {
      StartIs(z);
      var n, d := (wp[z] - Start(z)) as real, (BLOCK_SIZE * c.cap[z]) as real;
      SameQuotient(fill[z] as real, c.cap[z] as real);
      r := 1.0 - n / d;
    }

    static lemma SameQuotient(x: real, y: real)
      requires y > 0.0
      ensures (4096.0 * x) / (4096.0 * y) == x / y
    {
      var q := x / y;
      assert q * y == x;
      assert q * (4096.0 * y) == 4096.0 * x;
    }

    lemma QuotientIs(z: nat, j: nat)
      requires c.Valid() && j < c.bpz
      ensures (First(c.bpz, z) + j) / c.bpz == z
    {
      FirstIsProduct(c.bpz, z);
      DivisionIs(z * c.bpz + j, c.bpz, z, j);
    }

    static lemma AtLeastOnce(x: int, d: int)
      requires d > 0
      ensures x > 0 ==> x * d >= d
      ensures x < 0 ==> x * d <= -d
    {
    }

    static lemma DivisionIs(n: nat, d: nat, q: nat, r: nat)
      requires d > 0 && n == q * d + r && r < d
      ensures n / d == q
    {
      assert n == n / d * d + n % d;
      assert (n / d - q) * d == r - n % d;
      AtLeastOnce(n / d - q, d);
    }

    /** The write pointer of a zone with space left addresses a page of that zone. */
    lemma WritePointerAddress(z: nat)
      requires Valid() && z < c.zones && fill[z] < c.cap[z]
      ensures wp[z] / BLOCK_SIZE == First(c.bpz, z) + fill[z] < c.Blocks()
      ensures ZoneAt(wp[z]) == z
      ensures wp[z] + BLOCK_SIZE <= Start(z) + BLOCK_SIZE * c.cap[z]
    {
      QuotientIs(z, fill[z]);
      BlockInRange(c.bpz, c.zones, z, fill[z]);
      StartIs(z);
    }

    method Append(z: nat, page: Page)
      requires Valid() && z < c.zones && fill[z] < c.cap[z]
      modifies this
      ensures Valid() && fill == old(fill)[z := old(fill[z]) + 1]
      ensures old(wp[z]) / BLOCK_SIZE < c.Blocks() && media == old(media)[old(wp[z]) / BLOCK_SIZE := page]
      ensures log == old(log) + [Written(old(wp[z]), page)]
    {
      WritePointerAddress(z);
      RemembersMore(log, media, wp[z] / BLOCK_SIZE, page);
      log := log + [Written(wp[z], page)];
      media := media[wp[z] / BLOCK_SIZE := page];
      wp := wp[z := wp[z] + BLOCK_SIZE];
      fill := fill[z := fill[z] + 1];
    }

    /** A write of one page succeeds only at the write pointer of a zone that is not full; `y` is
        any zone. */
    method PWrite(page: Page, offset: int, ghost y: nat) returns (ret: int)
      requires Valid() && 0 <= offset && y < c.zones
      modifies this
      ensures Valid() && (ret == BLOCK_SIZE || (ret == -1 && unchanged(this)))
      ensures ret == BLOCK_SIZE ==> log == old(log) + [Written(offset, page)]
      ensures ret == BLOCK_SIZE ==> exists z :: 0 <= z < c.zones && offset == old(wp[z]) && old(fill[z]) < c.cap[z]
      ensures offset == old(wp[y]) && old(fill[y]) < c.cap[y] ==>
                && ret == BLOCK_SIZE && fill == old(fill)[y := old(fill[y]) + 1]
                && offset / BLOCK_SIZE < c.Blocks() && media == old(media)[offset / BLOCK_SIZE := page]
    {
      hide ZoneAt, Start;
      var z := ZoneAt(offset);
      if fill[y] < c.cap[y] {
        WritePointerAddress(y);
      }
      if z < 0 || z >= c.zones || offset != wp[z] || wp[z] + BLOCK_SIZE > Start(z) + BLOCK_SIZE * c.cap[z] {
        ret := -1;
      } else {
        StartIs(z);
        Append(z, page);
        ret := BLOCK_SIZE;
      }
    }

    /** A read gives back the page last written at the offset, whatever was written elsewhere and
        whichever zones were reset since. */
    method PRead(offset: int) returns (page: Page)
      requires Valid() && 0 <= offset < BLOCK_SIZE * c.Blocks() && offset % BLOCK_SIZE == 0
      ensures LastWritten(log, offset).Some? ==> page == LastWritten(log, offset).value
      ensures page == media[offset / BLOCK_SIZE]
    {
      page := media[offset / BLOCK_SIZE];
    }

    /** `reset_zone`. */
    method ResetZone(z: nat)
      requires Valid() && z < c.zones
      modifies this
      ensures Valid() && fill == old(fill)[z := 0] && media == old(media) && log == old(log)
    {
      StartIs(z);
      wp := wp[z := Start(z)];
      fill := fill[z := 0];
    }
  }
}
