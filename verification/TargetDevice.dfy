/** A zoned device with open and active zone limits, as dump and restore use it. A limit of 0 means
    none. Every operation that would go above a limit, or that the zone does not allow, fails. */
module TargetDevice {
  import opened ZoneReport

  type Byte = b: int | 0 <= b < 256

  predicate IsSeq(z: Zone) { z.kind == Swr || z.kind == Swp }
  predicate IsOpen(c: ZoneCond) { c == ImpOpen || c == ExpOpen }
  predicate IsActive(c: ZoneCond) { IsOpen(c) || c == Closed }

  function OpenCount(conds: seq<ZoneCond>): nat {
    if conds == [] then 0
    else OpenCount(conds[..|conds| - 1]) + if IsOpen(conds[|conds| - 1]) then 1 else 0
  }

  function ActiveCount(conds: seq<ZoneCond>): nat {
    if conds == [] then 0
    else ActiveCount(conds[..|conds| - 1]) + if IsActive(conds[|conds| - 1]) then 1 else 0
  }

  lemma {:induction false} CountsUpdate(conds: seq<ZoneCond>, i: nat, c: ZoneCond)
    requires i < |conds|
    ensures OpenCount(conds[i := c])
         == OpenCount(conds) - (if IsOpen(conds[i]) then 1 else 0) + (if IsOpen(c) then 1 else 0)
    ensures ActiveCount(conds[i := c])
         == ActiveCount(conds) - (if IsActive(conds[i]) then 1 else 0) + (if IsActive(c) then 1 else 0)
  {
    var n := |conds| - 1;
    if i == n {
      assert conds[i := c][..n] == conds[..n];
    } else {
      assert conds[i := c][..n] == conds[..n][i := c];
      CountsUpdate(conds[..n], i, c);
    }
  }

  lemma {:induction false} NoneOpen(a: seq<ZoneCond>)
    requires forall i :: 0 <= i < |a| ==> !IsOpen(a[i])
    ensures OpenCount(a) == 0
  {
    if a != [] {
      NoneOpen(a[..|a| - 1]);
    }
  }

  lemma {:induction false} NoneActive(a: seq<ZoneCond>)
    requires forall i :: 0 <= i < |a| ==> !IsActive(a[i])
    ensures ActiveCount(a) == 0
  {
    if a != [] {
      NoneActive(a[..|a| - 1]);
    }
  }

  /** Zone descriptors in address order, without overlap. */
  ghost predicate ZonesOk(zones: seq<Zone>) {
    && (forall i :: 0 <= i < |zones| ==> 0 < zones[i].capacity <= zones[i].len)
    && (forall i, j :: 0 <= i < j < |zones| ==> zones[i].start + zones[i].len <= zones[j].start)
  }

  class Target {
    /** Start, length, capacity and type of the zones; conditions and write pointers vary. */
    const zones: seq<Zone>
    const maxOpen: nat
    const maxActive: nat
    var cond: seq<ZoneCond>
    var wp: seq<nat>
    var media: seq<Byte>

    predicate LimitsOk(conds: seq<ZoneCond>) {
      (maxOpen == 0 || OpenCount(conds) <= maxOpen) && (maxActive == 0 || ActiveCount(conds) <= maxActive)
    }

    /** The limits hold; a sequential zone is empty exactly at its start, and open or closed only
        below its capacity. */
    ghost predicate Valid()
      reads this
    {
      && ZonesOk(zones) && |cond| == |wp| == |zones| && LimitsOk(cond)
      && (forall i :: 0 <= i < |zones| ==> zones[i].start + zones[i].len <= |media|)
      && (forall i :: 0 <= i < |zones| ==> (zones[i].kind == Cnv <==> cond[i] == NotWp))
      && (forall i :: 0 <= i < |zones| ==> (cond[i] == Empty ==> wp[i] == zones[i].start))
      && (forall i :: 0 <= i < |zones| && IsActive(cond[i]) ==>
            zones[i].start <= wp[i] < zones[i].start + zones[i].capacity)
    }

    /** A device whose sequential zones were all just reset. */
    constructor (zones: seq<Zone>, maxOpen: nat, maxActive: nat, size: nat)
      requires ZonesOk(zones) && forall i :: 0 <= i < |zones| ==> zones[i].start + zones[i].len <= size
      ensures Valid() && this.zones == zones && this.maxOpen == maxOpen && this.maxActive == maxActive
      ensures |media| == size
      ensures forall i :: 0 <= i < |zones| ==> cond[i] == if zones[i].kind == Cnv then NotWp else Empty
    {
      this.zones, this.maxOpen, this.maxActive := zones, maxOpen, maxActive;
      cond := seq(|zones|, i requires 0 <= i < |zones| => if zones[i].kind == Cnv then NotWp else Empty);
      wp := seq(|zones|, i requires 0 <= i < |zones| => zones[i].start);
      media := seq(size, p => 0);
      new;
      NoneOpen(cond);
      NoneActive(cond);
    }

    /** Changes the condition of one zone, unless that would go above a limit. */
    method SetCond(i: nat, c: ZoneCond) returns (ok: bool)
      requires Valid() && i < |zones| && IsSeq(zones[i]) && c != NotWp
      requires c == Empty ==> wp[i] == zones[i].start
      requires IsActive(c) ==> zones[i].start <= wp[i] < zones[i].start + zones[i].capacity
      modifies this`cond
      ensures Valid() && ok == LimitsOk(old(cond)[i := c])
      ensures cond == if ok then old(cond)[i := c] else old(cond)
    {
      var conds := cond[i := c];
      ok := LimitsOk(conds);
      if ok {
        cond := conds;
      }
    }

    /** Zone reset. */
    method Reset(i: nat) returns (ok: bool)
      requires Valid() && i < |zones|
      modifies this
      ensures Valid() && media == old(media)
      ensures ok == (IsSeq(zones[i]) && old(cond[i]) != ReadOnly && old(cond[i]) != Offline)
      ensures ok ==> cond == old(cond)[i := Empty] && wp == old(wp)[i := zones[i].start]
      ensures !ok ==> unchanged(this)
    {
      ok := IsSeq(zones[i]) && cond[i] != ReadOnly && cond[i] != Offline;
      if ok {
        CountsUpdate(cond, i, Empty);
        cond, wp := cond[i := Empty], wp[i := zones[i].start];
      }
    }

    /** Explicit open. */
    method Open(i: nat) returns (ok: bool)
      requires Valid() && i < |zones|
      modifies this
      ensures Valid() && media == old(media) && wp == old(wp)
      ensures ok == ((old(cond[i]) == Empty || IsActive(old(cond[i]))) && LimitsOk(old(cond)[i := ExpOpen]))
      ensures cond == if ok then old(cond)[i := ExpOpen] else old(cond)
    {
      ok := false;
      if cond[i] == Empty || IsActive(cond[i]) {
        ok := SetCond(i, ExpOpen);
      }
    }

    /** Close of an open zone; one without data becomes empty. */
    method Close(i: nat) returns (ok: bool)
      requires Valid() && i < |zones|
      modifies this
      ensures Valid() && media == old(media) && wp == old(wp)
      ensures ok == IsActive(old(cond[i]))
      ensures cond == if !ok then old(cond)
                      else old(cond)[i := if old(cond[i]) != Closed && wp[i] == zones[i].start then Empty else Closed]
    {
      ok := IsActive(cond[i]);
      if ok {
        var c := if cond[i] != Closed && wp[i] == zones[i].start then Empty else Closed;
        CountsUpdate(cond, i, c);
        cond := cond[i := c];
      }
    }

    /** Whether a write of `n` bytes at `ofst` is allowed: anywhere in a conventional zone; in a
        sequential one only at the write pointer, and with a zone resource to spare. */
    predicate CanWrite(i: nat, ofst: nat, n: nat)
      requires i < |zones| && |cond| == |wp| == |zones|
      reads this
    {
      zones[i].kind == Cnv ||
      (&& ofst == wp[i] && ofst + n <= zones[i].start + zones[i].capacity
       && (cond[i] == Empty || IsActive(cond[i]))
       && LimitsOk(cond[i := if cond[i] == ExpOpen then ExpOpen else ImpOpen]))
    }

    /** A write to the zone `i` that holds the offset. */
    method PWrite(i: nat, ofst: nat, data: seq<Byte>) returns (ok: bool)
      requires Valid() && i < |zones| && data != []
      requires zones[i].start <= ofst && ofst + |data| <= zones[i].start + zones[i].len
      modifies this
      ensures Valid() && ok == old(CanWrite(i, ofst, |data|))
      ensures !ok ==> unchanged(this)
      ensures ok && zones[i].kind != Cnv ==> ofst == old(wp[i]) && (old(cond[i]) == Empty || IsActive(old(cond[i])))
      ensures ok ==> media == old(media)[..ofst] + data + old(media)[ofst + |data|..]
      ensures ok && zones[i].kind == Cnv ==> cond == old(cond) && wp == old(wp)
      ensures ok && zones[i].kind != Cnv ==>
                && wp == old(wp)[i := ofst + |data|]
                && cond == old(cond)[i := if ofst + |data| == zones[i].start + zones[i].capacity then Full
                                          else if old(cond[i]) == ExpOpen then ExpOpen else ImpOpen]
    {
      ok := CanWrite(i, ofst, |data|);
      if ok {
        if zones[i].kind != Cnv {
          var c := if ofst + |data| == zones[i].start + zones[i].capacity then Full
                   else if cond[i] == ExpOpen then ExpOpen else ImpOpen;
          CountsUpdate(cond, i, Full);
          cond, wp := cond[i := c], wp[i := ofst + |data|];
        }
        media := media[..ofst] + data + media[ofst + |data|..];
      }
    }
  }
}
