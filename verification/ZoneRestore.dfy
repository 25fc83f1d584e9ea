/** Dump and restore of a zoned device. The restore goes over the zones in five passes, one kind of
    zone at a time, so that the open and active zone limits of the target are never reached. */
module ZoneRestore {
  import opened ZoneReport
  import opened TargetDevice

  const DUMP_IO_SIZE: nat := 1048576

  /** End of the data of a dumped zone. */
  function DataEnd(z: Zone): nat {
    if IsSeq(z) && z.cond != Full then z.wp else z.start + z.capacity
  }

  /** Dumped descriptors of a device without READONLY and OFFLINE zones: an open or closed zone is
      not full, and may hold no data. */
  ghost predicate DumpOk(dump: seq<Zone>) {
    && ZonesOk(dump)
    && (forall i :: 0 <= i < |dump| ==>
          var z := dump[i];
          && z.cond != ReadOnly && z.cond != Offline && (z.kind == Cnv <==> z.cond == NotWp)
          && (z.cond == Empty ==> z.wp == z.start)
          && (IsActive(z.cond) ==> z.start <= z.wp < z.start + z.capacity))
  }

  /** A CLOSED zone without data: nothing is written to it, and closing an EMPTY zone fails. */
  predicate Stuck(z: Zone) {
    z.cond == Closed && z.wp == z.start
  }

  /** The first zone from `i` on, below `end`, that is stuck; `end` if there is none. */
  function FirstStuck(dump: seq<Zone>, i: nat, end: nat): (r: nat)
    requires i <= end <= |dump|
    ensures i <= r <= end && (r < end ==> Stuck(dump[r])) && forall y :: i <= y < r ==> !Stuck(dump[y])
    decreases end - i
  {
    if i == end || Stuck(dump[i]) then i else FirstStuck(dump, i + 1, end)
  }

  /** The condition in which restoring a zone leaves it: an IMP_OPEN zone without data stays EMPTY. */
  function EndCond(z: Zone): ZoneCond {
    if z.cond == ImpOpen && z.wp == z.start then Empty else z.cond
  }

  function Conds(dump: seq<Zone>): (r: seq<ZoneCond>)
    ensures |r| == |dump| && forall i :: 0 <= i < |dump| ==> r[i] == dump[i].cond
  {
    seq(|dump|, i requires 0 <= i < |dump| => dump[i].cond)
  }

  predicate SameZone(z: Zone, t: Zone) {
    z.kind == t.kind && z.start == t.start && z.len == t.len && z.capacity == t.capacity
  }

  /** What `zbd_load_zone_info` and the file size check accept. */
  ghost predicate LoadOk(tgt: Target, dump: seq<Zone>, file: seq<Byte>)
    reads tgt
  {
    && |dump| == |tgt.zones| && |file| == |tgt.media|
    && (forall i :: 0 <= i < |dump| ==> SameZone(dump[i], tgt.zones[i]))
    && |tgt.cond| == |dump| && (forall i :: 0 <= i < |dump| ==> tgt.cond[i] != ReadOnly)
    && (forall i :: 0 <= i < |dump| && tgt.cond[i] == Offline ==> dump[i].cond == Offline)
    && tgt.LimitsOk(Conds(dump))
  }

  // ---------- counting zones ----------

  /** Each zone that is open (active) here is so there. */
  ghost predicate Dominated(a: seq<ZoneCond>, b: seq<ZoneCond>) {
    |a| == |b| && forall i :: 0 <= i < |a| ==> (IsOpen(a[i]) ==> IsOpen(b[i])) && (IsActive(a[i]) ==> IsActive(b[i]))
  }

  lemma {:induction false} DominatedCounts(a: seq<ZoneCond>, b: seq<ZoneCond>)
    requires Dominated(a, b)
    ensures OpenCount(a) <= OpenCount(b) && ActiveCount(a) <= ActiveCount(b)
  {
    if a != [] {
      var n := |a| - 1;
      assert forall i :: 0 <= i < n ==> a[..n][i] == a[i] && b[..n][i] == b[i];
      DominatedCounts(a[..n], b[..n]);
    }
  }

  // ---------- one zone ----------

  /** The zone can take the data of a dumped zone from its start on. */
  ghost predicate Writable(tgt: Target, i: nat)
    requires i < |tgt.zones| && |tgt.cond| == |tgt.zones|
    reads tgt
  {
    IsSeq(tgt.zones[i]) ==> tgt.cond[i] == Empty && tgt.LimitsOk(tgt.cond[i := ImpOpen])
  }

  /** The zone is empty, but there is no open or no active zone to spare for it. */
  ghost predicate Blocked(tgt: Target, i: nat)
    requires i < |tgt.zones| && |tgt.cond| == |tgt.zones|
    reads tgt
  {
    IsSeq(tgt.zones[i]) && tgt.cond[i] == Empty && !tgt.LimitsOk(tgt.cond[i := ImpOpen])
  }

  ghost predicate DataIs(media: seq<Byte>, was: seq<Byte>, file: seq<Byte>, start: nat, end: nat) {
    |media| == |was| == |file| && end <= |media|
    && forall p :: 0 <= p < |media| ==> media[p] == if start <= p < end then file[p] else was[p]
  }

  /** Condition of a sequential zone after its first bytes up to `ofst` were written. */
  function CondAt(z: Zone, ofst: nat): ZoneCond {
    if ofst == z.start then Empty else if ofst == z.start + z.capacity then Full else ImpOpen
  }

  ghost predicate Prepared(tgt: Target, dump: seq<Zone>, file: seq<Byte>)
    reads tgt
  {
    && tgt.Valid() && DumpOk(dump) && |dump| == |tgt.zones| && |file| == |tgt.media|
    && forall i :: 0 <= i < |dump| ==> SameZone(dump[i], tgt.zones[i])
  }

  lemma DataInZone(dump: seq<Zone>, i: nat)
    requires DumpOk(dump) && i < |dump|
    ensures dump[i].start <= DataEnd(dump[i]) <= dump[i].start + dump[i].capacity <= dump[i].start + dump[i].len
  {
  }

  lemma CopyExtends(media: seq<Byte>, now: seq<Byte>, was: seq<Byte>, file: seq<Byte>, start: nat, ofst: nat, n: nat)
    requires start <= ofst && ofst + n <= |media| && DataIs(media, was, file, start, ofst)
    requires now == media[..ofst] + file[ofst..ofst + n] + media[ofst + n..]
    ensures DataIs(now, was, file, start, ofst + n)
  {
  }

  /** One chunk: a sequential zone is written exactly at its write pointer. */
  method CopyChunk(tgt: Target, dump: seq<Zone>, file: seq<Byte>, i: nat, ofst: nat, n: nat) returns (ok: bool)
    requires Prepared(tgt, dump, file) && i < |dump| && n > 0
    requires dump[i].start <= ofst && ofst + n <= DataEnd(dump[i])
    modifies tgt
    ensures Prepared(tgt, dump, file)
    ensures ok ==> tgt.media == old(tgt.media)[..ofst] + file[ofst..ofst + n] + old(tgt.media)[ofst + n..]
    ensures dump[i].kind == Cnv ==> ok && tgt.cond == old(tgt.cond) && tgt.wp == old(tgt.wp)
    ensures dump[i].kind != Cnv && old(tgt.wp[i]) == ofst && old(tgt.cond[i]) == CondAt(dump[i], ofst)
            && old(tgt.LimitsOk(tgt.cond[i := ImpOpen])) ==>
              && ok && tgt.wp == old(tgt.wp)[i := ofst + n] && tgt.cond == old(tgt.cond)[i := CondAt(dump[i], ofst + n)]
    ensures old(Blocked(tgt, i)) ==> !ok && Snap(tgt) == old(Snap(tgt))
  {
    DataInZone(dump, i);
    ok := tgt.PWrite(i, ofst, file[ofst..ofst + n]);
  }

  /** `zbd_restore_zone_data`. */
  method RestoreZoneData(tgt: Target, dump: seq<Zone>, file: seq<Byte>, i: nat) returns (ok: bool)
    requires Prepared(tgt, dump, file) && i < |dump|
    modifies tgt
    ensures Prepared(tgt, dump, file)
    ensures old(Writable(tgt, i)) ==>
              var z := dump[i];
              var end := if z.kind == Cnv || z.cond == Full then z.start + z.capacity else z.wp;
              && ok && DataIs(tgt.media, old(tgt.media), file, z.start, end)
              && (z.kind == Cnv ==> tgt.cond == old(tgt.cond) && tgt.wp == old(tgt.wp))
              && (z.kind != Cnv ==> tgt.cond == old(tgt.cond)[i := CondAt(z, end)]
                                    && tgt.wp == old(tgt.wp)[i := end])
    ensures old(Blocked(tgt, i)) ==> (ok <==> DataEnd(dump[i]) == dump[i].start) && Snap(tgt) == old(Snap(tgt))
  {
    hide OpenCount, ActiveCount, DataIs, DumpOk;
    ghost var writable, blocked, snap0 := Writable(tgt, i), Blocked(tgt, i), Snap(tgt);
    ghost var cond0, wp0, media0 := tgt.cond, tgt.wp, tgt.media;
    var z := dump[i];
    var ofst, end := z.start, DataEnd(z);
    DataInZone(dump, i);
    CopyStarts(tgt, dump, file, i);
    while ofst < end
      invariant z.start <= ofst <= end && Prepared(tgt, dump, file)
      invariant blocked ==> ofst == z.start && Snap(tgt) == snap0
      invariant writable ==>
                  && DataIs(tgt.media, media0, file, z.start, ofst)
                  && (z.kind == Cnv ==> tgt.cond == cond0 && tgt.wp == wp0)
                  && (z.kind != Cnv ==>
                        tgt.cond == cond0[i := CondAt(z, ofst)] && tgt.wp == wp0[i := ofst]
                        && tgt.LimitsOk(tgt.cond[i := ImpOpen]))
    {
      var n := if ofst + DUMP_IO_SIZE > end then end - ofst else DUMP_IO_SIZE;
      ghost var media1 := tgt.media;
      ok := CopyChunk(tgt, dump, file, i, ofst, n);
      if !ok {
        return;
      }
      if writable {
        CopyExtends(media1, tgt.media, media0, file, z.start, ofst, n);
        SameSpare(tgt, cond0, i, CondAt(z, ofst), CondAt(z, ofst + n));
      }
      ofst := ofst + n;
    }
    ok := true;
  }

  lemma CopyStarts(tgt: Target, dump: seq<Zone>, file: seq<Byte>, i: nat)
    requires Prepared(tgt, dump, file) && i < |dump|
    ensures DataIs(tgt.media, tgt.media, file, dump[i].start, dump[i].start)
    ensures dump[i].kind != Cnv && tgt.cond[i] == Empty ==>
              tgt.cond[i := Empty] == tgt.cond && tgt.wp[i := dump[i].start] == tgt.wp
  {
  }

  /** Whether the zone could be opened does not depend on its own condition. */
  lemma SameSpare(tgt: Target, conds: seq<ZoneCond>, i: nat, c: ZoneCond, d: ZoneCond)
    requires i < |conds|
    ensures conds[i := c][i := d] == conds[i := d]
    ensures conds[i := d][i := ImpOpen] == conds[i := c][i := ImpOpen] == conds[i := ImpOpen]
  {
  }

  /** `zbd_restore_one_zone`: the data, then the condition; a CLOSED zone without data fails. */
  method RestoreOneZone(tgt: Target, dump: seq<Zone>, file: seq<Byte>, i: nat) returns (ok: bool)
    requires Prepared(tgt, dump, file) && i < |dump|
    modifies tgt
    ensures Prepared(tgt, dump, file)
    ensures old(Writable(tgt, i)) ==>
              if Stuck(dump[i]) then !ok && Snap(tgt) == old(Snap(tgt))
              else ok && Restored(Snap(tgt), old(Snap(tgt)), dump[i], file, i)
    ensures old(Blocked(tgt, i)) ==>
              (ok <==> EndCond(dump[i]) == Empty) && (ok ==> Restored(Snap(tgt), old(Snap(tgt)), dump[i], file, i))
  {
    hide OpenCount, ActiveCount, DataIs;
    ghost var writable, cond0, media0 := Writable(tgt, i), tgt.cond, tgt.media;
    var z := dump[i];
    CopyStarts(tgt, dump, file, i);
    ok := RestoreZoneData(tgt, dump, file, i);
    if !ok {
      return;
    }
    if z.kind != Cnv {
      SameResource(tgt, cond0, i);
    }
    if writable && z.kind != Cnv {
      SpareLeft(tgt, cond0, i, CondAt(z, DataEnd(z)));
      if Stuck(z) {
        NothingCopied(tgt.media, media0, file, z.start);
      }
    }
    if z.cond == Closed {
      ok := tgt.Close(i);
    } else if z.cond == ExpOpen {
      ok := tgt.Open(i);
    }
  }

  lemma NothingCopied(media: seq<Byte>, was: seq<Byte>, file: seq<Byte>, start: nat)
    requires DataIs(media, was, file, start, start)
    ensures media == was
  {
  }

  lemma SameResource(tgt: Target, conds: seq<ZoneCond>, i: nat)
    requires i < |conds|
    ensures tgt.LimitsOk(conds[i := ImpOpen]) <==> tgt.LimitsOk(conds[i := ExpOpen])
  {
    CountsUpdate(conds, i, ImpOpen);
    CountsUpdate(conds, i, ExpOpen);
  }

  lemma SpareLeft(tgt: Target, conds: seq<ZoneCond>, i: nat, c: ZoneCond)
    requires i < |conds| && tgt.LimitsOk(conds[i := ImpOpen])
    ensures tgt.LimitsOk(conds[i := c][i := ExpOpen])
  {
    assert conds[i := c][i := ExpOpen] == conds[i := ExpOpen];
    SameResource(tgt, conds, i);
  }

  // ---------- the passes ----------

  datatype Snapshot = Snapshot(cond: seq<ZoneCond>, wp: seq<nat>, media: seq<Byte>)

  ghost function Snap(tgt: Target): Snapshot
    reads tgt
  {
    Snapshot(tgt.cond, tgt.wp, tgt.media)
  }

  /** The effect of restoring zone `i`. */
  ghost predicate Restored(s: Snapshot, was: Snapshot, z: Zone, file: seq<Byte>, i: nat)
    requires i < |was.cond| && i < |was.wp|
  {
    && DataIs(s.media, was.media, file, z.start, if z.kind == Cnv || z.cond == Full then z.start + z.capacity else z.wp)
    && s.cond == (if z.kind == Cnv then was.cond else was.cond[i := EndCond(z)])
    && s.wp == (if z.kind == Cnv then was.wp else was.wp[i := if z.cond == Full then z.start + z.capacity else z.wp])
  }

  /** The pass that restores a zone; 0 for an empty one. */
  function PassOf(z: Zone): nat {
    if z.kind == Cnv || z.cond == Full then 2
    else if z.cond == Closed then 3
    else if z.cond == ExpOpen then 4
    else if z.cond == ImpOpen then 5
    else 0
  }

  /** The test at the head of each pass. */
  predicate Selected(pass: nat, z: Zone) {
    match pass
    case 2 => z.kind == Cnv || z.cond == Full
    case 3 => z.cond == Closed
    case 4 => z.cond == ExpOpen
    case 5 => z.cond == ImpOpen
    case _ => false
  }

  /** Pass 2 takes the conventional and FULL zones, pass 3 the CLOSED, pass 4 the EXP_OPEN and pass 5 the
      IMP_OPEN ones; no zone is restored twice, and only empty ones never. */
  lemma SelectedOnce(dump: seq<Zone>, i: nat, pass: nat)
    requires DumpOk(dump) && i < |dump| && 2 <= pass <= 5
    ensures Selected(pass, dump[i]) <==> PassOf(dump[i]) == pass
    ensures PassOf(dump[i]) == 0 <==> dump[i].cond == Empty
    ensures Selected(2, dump[i]) <==> dump[i].cond == NotWp || dump[i].cond == Full
    ensures Selected(3, dump[i]) <==> dump[i].cond == Closed
    ensures Selected(4, dump[i]) <==> dump[i].cond == ExpOpen
    ensures Selected(5, dump[i]) <==> dump[i].cond == ImpOpen
  {
  }

  /** The target zone has the condition, write pointer and data that were dumped; the write pointer
      of a full zone is not defined. */
  ghost predicate Matches(s: Snapshot, z: Zone, file: seq<Byte>, i: nat)
    requires |s.media| == |file| && i < |s.cond| && i < |s.wp| && z.start + z.capacity <= |file|
    requires z.kind != Cnv && z.cond != Full ==> z.wp <= |file|
  {
    && (z.kind != Cnv ==> s.cond[i] == z.cond && (z.cond != Full ==> s.wp[i] == z.wp))
    && (z.kind == Cnv || z.cond == Full ==> forall p :: z.start <= p < z.start + z.capacity ==> s.media[p] == file[p])
    && (z.kind != Cnv && z.cond != Full ==> forall p :: z.start <= p < z.wp ==> s.media[p] == file[p])
  }

  /** What the turn of a zone leaves: as `Matches`, but for an IMP_OPEN zone without data. */
  ghost predicate TurnedOut(s: Snapshot, z: Zone, file: seq<Byte>, i: nat)
    requires |s.media| == |file| && i < |s.cond| && i < |s.wp| && z.start + z.capacity <= |file|
    requires z.kind != Cnv && z.cond != Full ==> z.wp <= |file|
  {
    && !Stuck(z)
    && (z.kind != Cnv ==> s.cond[i] == EndCond(z) && (z.cond != Full ==> s.wp[i] == z.wp))
    && (z.kind == Cnv || z.cond == Full ==> forall p :: z.start <= p < z.start + z.capacity ==> s.media[p] == file[p])
    && (z.kind != Cnv && z.cond != Full ==> forall p :: z.start <= p < z.wp ==> s.media[p] == file[p])
  }

  ghost predicate Unchanged(s: Snapshot, was: Snapshot, z: Zone, i: nat)
    requires |s.media| == |was.media| && i < |s.cond| == |was.cond| && i < |s.wp| == |was.wp|
    requires z.start + z.len <= |s.media|
  {
    s.cond[i] == was.cond[i] && s.wp[i] == was.wp[i]
    && forall p :: z.start <= p < z.start + z.len ==> s.media[p] == was.media[p]
  }

  ghost predicate Fits(s: Snapshot, dump: seq<Zone>, file: seq<Byte>) {
    && DumpOk(dump) && |s.media| == |file| && |s.cond| == |s.wp| == |dump|
    && (forall i :: 0 <= i < |dump| ==> dump[i].start + dump[i].len <= |file|)
    && (forall i :: 0 <= i < |dump| ==> (dump[i].kind == Cnv <==> s.cond[i] == NotWp))
  }

  /** The dump range; `was` is the target before the restore. */
  datatype Job = Job(dump: seq<Zone>, file: seq<Byte>, zstart: nat, zend: nat, was: Snapshot)
  {
    predicate InRange(y: nat) {
      zstart <= y < zend
    }

    /** Zones that the restore leaves alone, among them those dumped as empty, which pass 1 does not
        reset, are not active. */
    ghost predicate Ready()
      requires |was.cond| == |dump|
    {
      forall y :: 0 <= y < |dump| && (!InRange(y) || dump[y].cond == Empty) ==> !IsActive(was.cond[y])
    }

    ghost predicate Valid() {
      zstart <= zend <= |dump| && Fits(was, dump, file) && Ready()
    }

    /** Zone `y` has had its turn when pass `pass` has reached zone `i`. */
    predicate Done(pass: nat, i: nat, y: nat)
      requires y < |dump|
    {
      PassOf(dump[y]) < pass || (PassOf(dump[y]) == pass && y < i)
    }
  }

  ghost predicate ZoneProgress(j: Job, s: Snapshot, pass: nat, i: nat, y: nat)
    requires j.Valid() && Fits(s, j.dump, j.file) && y < |j.dump|
  {
    if !j.InRange(y) || PassOf(j.dump[y]) == 0 then Unchanged(s, j.was, j.dump[y], y)
    else if j.Done(pass, i, y) then (DataBound(j, s, y); TurnedOut(s, j.dump[y], j.file, y))
    else j.dump[y].kind != Cnv ==> s.cond[y] == Empty
  }

  lemma DataBound(j: Job, s: Snapshot, y: nat)
    requires j.Valid() && Fits(s, j.dump, j.file) && y < |j.dump|
    ensures j.dump[y].start + j.dump[y].capacity <= |j.file|
    ensures j.dump[y].kind != Cnv && j.dump[y].cond != Full ==> j.dump[y].wp <= |j.file|
  {
    DataInZone(j.dump, y);
  }

  ghost predicate Progress(j: Job, s: Snapshot, pass: nat, i: nat) {
    j.Valid() && Fits(s, j.dump, j.file) && forall y :: 0 <= y < |j.dump| ==> ZoneProgress(j, s, pass, i, y)
  }

  /** Restoring one zone advances the pass; the data of the other zones lies elsewhere. */
  lemma ProgressStep(j: Job, s: Snapshot, t: Snapshot, pass: nat, i: nat)
    requires Progress(j, s, pass, i) && j.InRange(i) && PassOf(j.dump[i]) == pass > 0 && !Stuck(j.dump[i])
    requires Fits(t, j.dump, j.file) && Restored(t, s, j.dump[i], j.file, i)
    ensures Progress(j, t, pass, i + 1)
  {
    DataInZone(j.dump, i);
    var next := i + 1;
    forall y | 0 <= y < |j.dump| ensures ZoneProgress(j, t, pass, next, y) {
      DataInZone(j.dump, y);
      assert ZoneProgress(j, s, pass, i, y);
      if y < i {
        assert j.dump[y].start + j.dump[y].len <= j.dump[i].start;
      } else if y > i {
        assert j.dump[i].start + j.dump[i].len <= j.dump[y].start;
      }
    }
  }

  lemma ProgressSkip(j: Job, s: Snapshot, pass: nat, i: nat)
    requires Progress(j, s, pass, i) && i < |j.dump| && PassOf(j.dump[i]) != pass
    ensures Progress(j, s, pass, i + 1)
  {
    var next := i + 1;
    forall y | 0 <= y < |j.dump| ensures ZoneProgress(j, s, pass, next, y) {
      assert ZoneProgress(j, s, pass, i, y);
    }
  }

  lemma NextPass(j: Job, s: Snapshot, pass: nat)
    requires Progress(j, s, pass, j.zend)
    ensures Progress(j, s, pass + 1, j.zstart)
  {
    var next := pass + 1;
    forall y | 0 <= y < |j.dump| ensures ZoneProgress(j, s, next, j.zstart, y) {
      assert ZoneProgress(j, s, pass, j.zend, y);
    }
  }

  // ---------- resources ----------

  /** While full and closed zones are restored no target zone is open. */
  lemma NoneOpenYet(j: Job, s: Snapshot, pass: nat, i: nat, y: nat)
    requires Progress(j, s, pass, i) && 2 <= pass <= 3 && y < |j.dump|
    ensures !IsOpen(s.cond[y]) && (pass == 2 ==> !IsActive(s.cond[y]))
  {
    assert ZoneProgress(j, s, pass, i, y);
  }

  /** The target is never more open or active than the dump, counting zone `i` as restored. */
  lemma NeverAhead(j: Job, s: Snapshot, pass: nat, i: nat, y: nat)
    requires Progress(j, s, pass, i) && pass >= 2 && y < |j.dump|
    ensures IsOpen(s.cond[y]) ==> IsOpen(j.dump[y].cond)
    ensures IsActive(s.cond[y]) ==> IsActive(j.dump[y].cond)
  {
    assert ZoneProgress(j, s, pass, i, y);
  }

  /** Resource safety: when a zone's turn comes, the target has an open and an active zone to spare. */
  lemma SpareZone(tgt: Target, j: Job, s: Snapshot, pass: nat, i: nat)
    requires Progress(j, s, pass, i) && tgt.LimitsOk(Conds(j.dump))
    requires 2 <= pass <= 5 && i < |j.dump| && j.InRange(i) && PassOf(j.dump[i]) == pass && j.dump[i].kind != Cnv
    ensures s.cond[i] == Empty && tgt.LimitsOk(s.cond[i := ImpOpen])
  {
    hide Progress;
    var a, b := s.cond, Conds(j.dump);
    ShowProgress(j, s, pass, i);
    var c := a[i := b[i]];
    forall y | 0 <= y < |a| ensures (IsOpen(c[y]) ==> IsOpen(b[y])) && (IsActive(c[y]) ==> IsActive(b[y])) {
      NeverAhead(j, s, pass, i, y);
    }
    DominatedCounts(c, b);
    CountsUpdate(a, i, b[i]);
    CountsUpdate(a, i, ImpOpen);
    if pass <= 3 {
      forall y | 0 <= y < |a| ensures !IsOpen(a[y]) && (pass == 2 ==> !IsActive(a[y])) {
        NoneOpenYet(j, s, pass, i, y);
      }
      NoneOpen(a);
      if pass == 2 {
        NoneActive(a);
      }
    }
  }

  lemma ShowProgress(j: Job, s: Snapshot, pass: nat, i: nat)
    requires Progress(j, s, pass, i)
    ensures j.Valid() && Fits(s, j.dump, j.file)
    ensures i < |j.dump| && j.InRange(i) && PassOf(j.dump[i]) == pass > 0 && j.dump[i].kind != Cnv ==>
              s.cond[i] == Empty
  {
    if i < |j.dump| { assert ZoneProgress(j, s, pass, i, i); }
  }

  // ---------- the restore ----------

  ghost predicate Running(tgt: Target, j: Job, pass: nat, i: nat)
    reads tgt
  {
    Prepared(tgt, j.dump, j.file) && tgt.LimitsOk(Conds(j.dump)) && Progress(j, Snap(tgt), pass, i)
  }

  lemma FitsNow(tgt: Target, j: Job)
    requires Prepared(tgt, j.dump, j.file)
    ensures Fits(Snap(tgt), j.dump, j.file)
  {
  }

  /** The turn of one zone in its pass. */
  method RestoreTurn(tgt: Target, pass: nat, dump: seq<Zone>, file: seq<Byte>, i: nat, ghost j: Job) returns (ok: bool)
    requires 2 <= pass <= 5 && i < |dump| && Prepared(tgt, dump, file) && PassOf(dump[i]) == pass
    requires j.dump == dump && j.file == file && j.InRange(i)
    modifies tgt
    ensures Prepared(tgt, dump, file)
    ensures old(Running(tgt, j, pass, i)) ==>
              if Stuck(dump[i]) then !ok && Progress(j, Snap(tgt), pass, i) else ok && Running(tgt, j, pass, i + 1)
  {
    hide Progress, OpenCount, ActiveCount, Restored, Fits;
    ghost var running, s := Running(tgt, j, pass, i), Snap(tgt);
    if running && dump[i].kind != Cnv {
      SpareZone(tgt, j, s, pass, i);
    }
    ok := RestoreOneZone(tgt, dump, file, i);
    if running && !Stuck(dump[i]) {
      FitsNow(tgt, j);
      ProgressStep(j, s, Snap(tgt), pass, i);
    }
  }

  /** One of the passes 2 to 5. */
  method RestorePass(tgt: Target, pass: nat, dump: seq<Zone>, file: seq<Byte>, zstart: nat, zend: nat, ghost j: Job)
    returns (ok: bool)
    requires 2 <= pass <= 5 && zstart <= zend <= |dump| && Prepared(tgt, dump, file)
    requires j.dump == dump && j.file == file && j.zstart == zstart && j.zend == zend
    modifies tgt
    ensures Prepared(tgt, dump, file)
    ensures old(Running(tgt, j, pass, zstart)) ==>
              var stop := FirstStuck(dump, zstart, zend);
              && (ok <==> pass != 3 || stop == zend)
              && if ok then Running(tgt, j, pass + 1, zstart) else Progress(j, Snap(tgt), 3, stop)
  {
    hide Progress, OpenCount, ActiveCount, Restored, Fits, FirstStuck, SameZone;
    ghost var running := Running(tgt, j, pass, zstart);
    ghost var stop := FirstStuck(dump, zstart, zend);
    ok := true;
    for i := zstart to zend
      invariant Prepared(tgt, dump, file) && (running && pass == 3 ==> i <= stop)
      invariant running ==> ok && Running(tgt, j, pass, i)
    {
      SelectedOnce(dump, i, pass);
      if Selected(pass, dump[i]) {
        ok := RestoreTurn(tgt, pass, dump, file, i, j);
        if !ok {
          return;
        }
      } else if running {
        ProgressSkip(j, Snap(tgt), pass, i);
      }
    }
    if running {
      NextPass(j, Snap(tgt), pass);
    }
  }

  /** Where pass 1 is when it has reached zone `i`. */
  ghost predicate ResetProgress(j: Job, s: Snapshot, i: nat) {
    && j.Valid() && Fits(s, j.dump, j.file) && s.media == j.was.media
    && forall y :: 0 <= y < |j.dump| ==>
         if j.InRange(y) && y < i && PassOf(j.dump[y]) != 0 && j.dump[y].kind != Cnv then s.cond[y] == Empty
         else s.cond[y] == j.was.cond[y] && s.wp[y] == j.was.wp[y]
  }

  lemma ResetStarts(j: Job)
    requires j.Valid()
    ensures ResetProgress(j, j.was, j.zstart)
  {
  }

  /** Zone `i` was reset if its turn comes, and left alone if not. */
  lemma ResetStep(j: Job, s: Snapshot, t: Snapshot, i: nat)
    requires ResetProgress(j, s, i) && j.InRange(i)
    requires var z := j.dump[i];
      t == if PassOf(z) == 0 || z.kind == Cnv then s
           else Snapshot(s.cond[i := Empty], s.wp[i := z.start], s.media)
    ensures ResetProgress(j, t, i + 1)
  {
  }

  lemma ResetDone(j: Job, s: Snapshot)
    requires ResetProgress(j, s, j.zend)
    ensures Progress(j, s, 2, j.zstart)
  {
    forall y | 0 <= y < |j.dump| ensures ZoneProgress(j, s, 2, j.zstart, y) {
    }
  }

  method ResetOneZone(tgt: Target, dump: seq<Zone>, file: seq<Byte>, i: nat) returns (ok: bool)
    requires Prepared(tgt, dump, file) && i < |dump| && tgt.cond[i] != ReadOnly && tgt.cond[i] != Offline
    modifies tgt
    ensures Prepared(tgt, dump, file) && ok
    ensures var z := dump[i];
      Snap(tgt) == if PassOf(z) == 0 || z.kind == Cnv then old(Snap(tgt))
                   else Snapshot(old(tgt.cond)[i := Empty], old(tgt.wp)[i := z.start], old(tgt.media))
  {
    hide OpenCount, ActiveCount;
    ok := true;
    SelectedOnce(dump, i, 2);
    if IsSeq(dump[i]) && dump[i].cond != Empty {
      ok := tgt.Reset(i);
    }
  }

  /** Pass 1: resets the sequential zones of the range that were not dumped as empty. */
  method ResetPass(tgt: Target, dump: seq<Zone>, file: seq<Byte>, zstart: nat, zend: nat, ghost j: Job)
    returns (ok: bool)
    requires Prepared(tgt, dump, file) && zstart <= zend <= |dump|
    requires forall i :: 0 <= i < |dump| ==> tgt.cond[i] != ReadOnly && tgt.cond[i] != Offline
    requires j.dump == dump && j.file == file && j.zstart == zstart && j.zend == zend && j.was == Snap(tgt)
    modifies tgt
    ensures Prepared(tgt, dump, file) && ok
    ensures j.Valid() ==> Progress(j, Snap(tgt), 2, zstart)
  {
    hide Progress, OpenCount, ActiveCount, ResetProgress, Fits, DumpOk;
    ok := true;
    if j.Valid() {
      ResetStarts(j);
    }
    for i := zstart to zend
      invariant Prepared(tgt, dump, file) && ok
      invariant forall y :: 0 <= y < |dump| ==> tgt.cond[y] != ReadOnly && tgt.cond[y] != Offline
      invariant j.Valid() ==> ResetProgress(j, Snap(tgt), i)
    {
      ghost var s := Snap(tgt);
      ok := ResetOneZone(tgt, dump, file, i);
      if j.Valid() {
        ResetStep(j, s, Snap(tgt), i);
      }
    }
    if j.Valid() {
      ResetDone(j, Snap(tgt));
    }
  }

  /** The checks of `zbd_load_zone_info` and of the data file size. */
  method LoadCheck(tgt: Target, dump: seq<Zone>, file: seq<Byte>) returns (ok: bool)
    requires tgt.Valid()
    ensures ok <==> LoadOk(tgt, dump, file)
  {
    if |dump| != |tgt.zones| || |file| != |tgt.media| {
      return false;
    }
    var nrOpen, nrActive := 0, 0;
    for i := 0 to |dump|
      invariant nrOpen == OpenCount(Conds(dump)[..i]) && nrActive == ActiveCount(Conds(dump)[..i])
      invariant forall y :: 0 <= y < i ==> SameZone(dump[y], tgt.zones[y]) && tgt.cond[y] != ReadOnly
                                           && (tgt.cond[y] == Offline ==> dump[y].cond == Offline)
    {
      if !SameZone(dump[i], tgt.zones[i]) || tgt.cond[i] == ReadOnly
         || (tgt.cond[i] == Offline && dump[i].cond != Offline) {
        return false;
      }
      assert Conds(dump)[..i + 1][..i] == Conds(dump)[..i];
      if IsOpen(dump[i].cond) {
        nrOpen := nrOpen + 1;
      }
      if IsActive(dump[i].cond) {
        nrActive := nrActive + 1;
      }
    }
    assert Conds(dump)[..|dump|] == Conds(dump);
    ok := (tgt.maxOpen == 0 || nrOpen <= tgt.maxOpen) && (tgt.maxActive == 0 || nrActive <= tgt.maxActive);
  }

  /** What the restore leaves of zone `y`. Zones outside the range and zones dumped as EMPTY, which
      pass 1 does not reset, are as before. If a zone is stuck, the restore stops at the first one in
      pass 3: that one, the later CLOSED zones and all open zones are left EMPTY. So is an IMP_OPEN zone
      without data. All other zones are as they were dumped. */
  ghost predicate Outcome(j: Job, s: Snapshot, y: nat)
    requires j.Valid() && Fits(s, j.dump, j.file) && y < |j.dump|
  {
    var z, stop := j.dump[y], FirstStuck(j.dump, j.zstart, j.zend);
    DataBound(j, s, y);
    if !j.InRange(y) || z.cond == Empty then Unchanged(s, j.was, z, y)
    else if EndCond(z) == Empty || (stop < j.zend && !j.Done(3, stop, y)) then s.cond[y] == Empty && s.wp[y] == z.start
    else Matches(s, z, j.file, y)
  }

  /** Every zone of the range is as it was dumped. */
  ghost predicate RangeMatches(j: Job, s: Snapshot)
    requires j.Valid() && Fits(s, j.dump, j.file)
  {
    forall y :: j.zstart <= y < j.zend ==> (DataBound(j, s, y); Matches(s, j.dump[y], j.file, y))
  }

  /** What a caller can check beforehand: no CLOSED or IMP_OPEN zone of the range is without data, and
      its zones dumped as EMPTY are empty on the target. */
  ghost predicate Restorable(j: Job)
    requires j.Valid()
  {
    forall y :: j.zstart <= y < j.zend ==>
      && !Stuck(j.dump[y]) && EndCond(j.dump[y]) == j.dump[y].cond
      && (j.dump[y].cond == Empty ==> j.was.cond[y] == Empty)
  }

  ghost predicate EmptyAtStart(dump: seq<Zone>, s: Snapshot) {
    |s.cond| == |s.wp| == |dump| && forall i :: 0 <= i < |dump| && s.cond[i] == Empty ==> s.wp[i] == dump[i].start
  }

  lemma OutcomeOf(j: Job, s: Snapshot, y: nat)
    requires j.zstart <= j.zend <= |j.dump|
    requires var stop := FirstStuck(j.dump, j.zstart, j.zend);
      if stop == j.zend then Progress(j, s, 6, j.zstart) else Progress(j, s, 3, stop)
    requires EmptyAtStart(j.dump, s) && y < |j.dump|
    ensures Outcome(j, s, y)
  {
    var stop := FirstStuck(j.dump, j.zstart, j.zend);
    DataBound(j, s, y);
    if stop == j.zend {
      assert ZoneProgress(j, s, 6, j.zstart, y);
    } else {
      assert ZoneProgress(j, s, 3, stop, y);
    }
  }

  /** The range ends up as it was dumped if and only if it was restorable. */
  lemma RangeMatchesExactly(j: Job, s: Snapshot)
    requires j.Valid() && Fits(s, j.dump, j.file)
    requires EmptyAtStart(j.dump, s) && EmptyAtStart(j.dump, j.was)
    requires forall y :: 0 <= y < |j.dump| ==> Outcome(j, s, y)
    ensures RangeMatches(j, s) <==> Restorable(j)
  {
    var stop := FirstStuck(j.dump, j.zstart, j.zend);
    forall y | j.zstart <= y < j.zend
      ensures stop == j.zend ==>
                (DataBound(j, s, y); Matches(s, j.dump[y], j.file, y) <==>
                   EndCond(j.dump[y]) == j.dump[y].cond && (j.dump[y].cond == Empty ==> j.was.cond[y] == Empty))
    {
      assert Outcome(j, s, y);
    }
    if stop < j.zend {
      assert Outcome(j, s, stop);
    }
  }

  lemma Outcomes(j: Job, s: Snapshot)
    requires j.Valid() && Fits(s, j.dump, j.file) && EmptyAtStart(j.dump, s) && EmptyAtStart(j.dump, j.was)
    requires var stop := FirstStuck(j.dump, j.zstart, j.zend);
      if stop == j.zend then Progress(j, s, 6, j.zstart) else Progress(j, s, 3, stop)
    ensures forall y :: 0 <= y < |j.dump| ==> Outcome(j, s, y)
    ensures RangeMatches(j, s) <==> Restorable(j)
  {
    hide Progress, Outcome, RangeMatches, Restorable, FirstStuck, Fits, DumpOk;
    forall y | 0 <= y < |j.dump| ensures Outcome(j, s, y) {
      OutcomeOf(j, s, y);
    }
    RangeMatchesExactly(j, s);
  }

  /** The passes 2 to 5. */
  method RestorePasses(tgt: Target, dump: seq<Zone>, file: seq<Byte>, zstart: nat, zend: nat, ghost j: Job)
    returns (ok: bool)
    requires zstart <= zend <= |dump| && Prepared(tgt, dump, file)
    requires j.dump == dump && j.file == file && j.zstart == zstart && j.zend == zend
    modifies tgt
    ensures Prepared(tgt, dump, file)
    ensures old(Running(tgt, j, 2, zstart)) ==>
              var stop := FirstStuck(dump, zstart, zend);
              && (ok <==> stop == zend)
              && if ok then Progress(j, Snap(tgt), 6, zstart) else Progress(j, Snap(tgt), 3, stop)
  {
    hide Progress, OpenCount, ActiveCount, FirstStuck, DumpOk;
    ghost var running, stop := Running(tgt, j, 2, zstart), FirstStuck(dump, zstart, zend);
    ok := true;
    for pass := 2 to 6
      invariant Prepared(tgt, dump, file) && ok
      invariant running ==> Running(tgt, j, pass, zstart) && (pass > 3 ==> stop == zend)
    {
      ok := RestorePass(tgt, pass, dump, file, zstart, zend, j);
      if !ok {
        return;
      }
    }
  }

  /** `zbd_restore`. A dump that fails the checks leaves the target alone. Otherwise, if the zones that
      are not restored are not active, no limit is ever exceeded and every write is at its zone's write
      pointer: the restore succeeds if and only if no zone of the range is CLOSED without data, and
      whether it does or not each zone ends up as `Outcome` says. */
  method ZbdRestore(tgt: Target, dump: seq<Zone>, file: seq<Byte>, zstart: nat, zend: nat) returns (ok: bool)
    requires tgt.Valid() && DumpOk(dump) && zstart <= zend <= |dump|
    modifies tgt
    ensures tgt.Valid()
    ensures !old(LoadOk(tgt, dump, file)) ==> !ok && unchanged(tgt)
    ensures var j := Job(dump, file, zstart, zend, old(Snap(tgt)));
      old(LoadOk(tgt, dump, file)) && j.Ready() ==>
        && (ok <==> forall y :: zstart <= y < zend ==> !Stuck(dump[y]))
        && j.Valid() && Fits(Snap(tgt), dump, file)
        && (forall y :: 0 <= y < |dump| ==> Outcome(j, Snap(tgt), y))
        && (RangeMatches(j, Snap(tgt)) <==> Restorable(j))
  {
    hide Progress, OpenCount, ActiveCount, Outcome, RangeMatches, Restorable;
    ghost var j := Job(dump, file, zstart, zend, Snap(tgt));
    ok := LoadCheck(tgt, dump, file);
    if !ok {
      return;
    }
    FitsNow(tgt, j);
    ok := ResetPass(tgt, dump, file, zstart, zend, j);
    ok := RestorePasses(tgt, dump, file, zstart, zend, j);
    if j.Valid() {
      FitsNow(tgt, j);
      Outcomes(j, Snap(tgt));
    }
  }

  // ---------- one pass in index order ----------

  /** Zones of the dump from `zstart` up to `i` that are open (active) once restored. */
  function OpenBefore(dump: seq<Zone>, zstart: nat, i: nat): nat
    requires zstart <= i <= |dump|
  {
    if i == zstart then 0 else OpenBefore(dump, zstart, i - 1) + if IsOpen(EndCond(dump[i - 1])) then 1 else 0
  }

  function ActiveBefore(dump: seq<Zone>, zstart: nat, i: nat): nat
    requires zstart <= i <= |dump|
  {
    if i == zstart then 0 else ActiveBefore(dump, zstart, i - 1) + if IsActive(EndCond(dump[i - 1])) then 1 else 0
  }

  /** When a single pass over the zones in index order would do (a limit of 0 is none): no zone is
      stuck, no FULL or CLOSED zone comes when the open zones before it fill the open limit, and no FULL
      one when the active zones before it fill the active limit. */
  predicate OrderOk(dump: seq<Zone>, zstart: nat, zend: nat, maxOpen: nat, maxActive: nat)
    requires zstart <= zend <= |dump|
  {
    forall i :: zstart <= i < zend ==> OrderOkAt(dump, zstart, i, maxOpen, maxActive)
  }

  predicate OrderOkAt(dump: seq<Zone>, zstart: nat, i: nat, maxOpen: nat, maxActive: nat)
    requires zstart <= i < |dump|
  {
    var z := dump[i];
    && !Stuck(z)
    && (z.kind != Cnv && (z.cond == Full || z.cond == Closed) ==> maxOpen == 0 || OpenBefore(dump, zstart, i) < maxOpen)
    && (z.kind != Cnv && z.cond == Full ==> maxActive == 0 || ActiveBefore(dump, zstart, i) < maxActive)
  }

  /** The zones before `i`, with zone `i` itself, are not more open or active than the whole dump. */
  lemma {:induction false} BeforeWithin(dump: seq<Zone>, zstart: nat, i: nat, n: nat)
    requires zstart <= i < n <= |dump|
    ensures OpenBefore(dump, zstart, i) + (if IsOpen(dump[i].cond) then 1 else 0) <= OpenCount(Conds(dump)[..n])
    ensures ActiveBefore(dump, zstart, i) + (if IsActive(dump[i].cond) then 1 else 0) <= ActiveCount(Conds(dump)[..n])
    decreases n
  {
    var conds := Conds(dump);
    assert conds[..n][..n - 1] == conds[..n - 1];
    if i < n - 1 {
      BeforeWithin(dump, zstart, i, n - 1);
    } else if zstart < i {
      BeforeWithin(dump, zstart, i - 1, i);
    }
  }

  /** The turn of zone `i` works exactly if it is not stuck and, unless it stays EMPTY, can be opened. */
  lemma TurnFits(tgt: Target, dump: seq<Zone>, zstart: nat, i: nat)
    requires zstart <= i < |dump| && tgt.LimitsOk(Conds(dump)) && DumpOk(dump) && dump[i].kind != Cnv
    ensures var z, open, active := dump[i], OpenBefore(dump, zstart, i), ActiveBefore(dump, zstart, i);
      (z.cond == Empty || EndCond(z) == Empty
       || (!Stuck(z) && (tgt.maxOpen == 0 || open < tgt.maxOpen) && (tgt.maxActive == 0 || active < tgt.maxActive)))
      <==> OrderOkAt(dump, zstart, i, tgt.maxOpen, tgt.maxActive)
  {
    BeforeWithin(dump, zstart, i, |dump|);
    assert Conds(dump)[..|dump|] == Conds(dump);
  }

  /** Where the single pass is: the zones still to be restored are EMPTY, and the counts are those of
      the zones restored so far. */
  ghost predicate InOrder(j: Job, s: Snapshot, i: nat) {
    && j.Valid() && Fits(s, j.dump, j.file) && j.zstart <= i <= j.zend
    && (forall y :: i <= y < j.zend && j.dump[y].kind != Cnv && j.dump[y].cond != Empty ==> s.cond[y] == Empty)
    && OpenCount(s.cond) == OpenBefore(j.dump, j.zstart, i)
    && ActiveCount(s.cond) == ActiveBefore(j.dump, j.zstart, i)
  }

  lemma OrderStarts(j: Job, s: Snapshot)
    requires Progress(j, s, 2, j.zstart)
    ensures InOrder(j, s, j.zstart)
  {
    forall y | 0 <= y < |j.dump| ensures !IsOpen(s.cond[y]) && !IsActive(s.cond[y]) {
      NoneOpenYet(j, s, 2, j.zstart, y);
    }
    NoneOpen(s.cond);
    NoneActive(s.cond);
    forall y | j.zstart <= y < j.zend && j.dump[y].kind != Cnv && j.dump[y].cond != Empty ensures s.cond[y] == Empty {
      assert ZoneProgress(j, s, 2, j.zstart, y);
    }
  }

  lemma OrderStep(j: Job, s: Snapshot, t: Snapshot, i: nat)
    requires InOrder(j, s, i) && i < j.zend && Fits(t, j.dump, j.file)
    requires if j.dump[i].cond == Empty then t == s else Restored(t, s, j.dump[i], j.file, i)
    ensures InOrder(j, t, i + 1)
  {
    if j.dump[i].kind != Cnv && j.dump[i].cond != Empty {
      CountsUpdate(s.cond, i, EndCond(j.dump[i]));
    }
  }

  /** Whether the target can open zone `i` follows from the counts. */
  lemma SpareInOrder(tgt: Target, j: Job, s: Snapshot, i: nat)
    requires InOrder(j, s, i) && i < j.zend && j.dump[i].kind != Cnv && j.dump[i].cond != Empty
    ensures s.cond[i] == Empty
    ensures tgt.LimitsOk(s.cond[i := ImpOpen]) <==>
              && (tgt.maxOpen == 0 || OpenBefore(j.dump, j.zstart, i) < tgt.maxOpen)
              && (tgt.maxActive == 0 || ActiveBefore(j.dump, j.zstart, i) < tgt.maxActive)
  {
    CountsUpdate(s.cond, i, ImpOpen);
  }

  method OrderTurn(tgt: Target, dump: seq<Zone>, file: seq<Byte>, i: nat, ghost j: Job) returns (ok: bool)
    requires i < |dump| && Prepared(tgt, dump, file) && dump[i].cond != Empty
    requires j.dump == dump && j.file == file && j.zstart <= i < j.zend <= |dump|
    modifies tgt
    ensures Prepared(tgt, dump, file)
    ensures old(InOrder(j, Snap(tgt), i)) && tgt.LimitsOk(Conds(dump)) ==>
              && (ok <==> OrderOkAt(dump, j.zstart, i, tgt.maxOpen, tgt.maxActive))
              && (ok ==> InOrder(j, Snap(tgt), i + 1))
  {
    hide OpenCount, ActiveCount, Restored, Fits, InOrder, OpenBefore, ActiveBefore;
    ghost var running, s := InOrder(j, Snap(tgt), i) && tgt.LimitsOk(Conds(dump)), Snap(tgt);
    if running && dump[i].kind != Cnv {
      TurnFits(tgt, dump, j.zstart, i);
      SpareInOrder(tgt, j, s, i);
    }
    ok := RestoreOneZone(tgt, dump, file, i);
    if running && ok {
      FitsNow(tgt, j);
      OrderStep(j, s, Snap(tgt), i);
    }
  }

  lemma OrderSkip(dump: seq<Zone>, zstart: nat, i: nat, maxOpen: nat, maxActive: nat)
    requires zstart <= i < |dump| && dump[i].cond == Empty
    ensures OrderOkAt(dump, zstart, i, maxOpen, maxActive)
  {
  }

  /** The single pass, over zones that were reset. */
  method OrderPass(tgt: Target, dump: seq<Zone>, file: seq<Byte>, zstart: nat, zend: nat, ghost j: Job)
    returns (ok: bool)
    requires zstart <= zend <= |dump| && Prepared(tgt, dump, file)
    requires j.dump == dump && j.file == file && j.zstart == zstart && j.zend == zend
    modifies tgt
    ensures Prepared(tgt, dump, file)
    ensures old(InOrder(j, Snap(tgt), zstart)) && tgt.LimitsOk(Conds(dump)) ==>
              (ok <==> OrderOk(dump, zstart, zend, tgt.maxOpen, tgt.maxActive))
  {
    hide OpenCount, ActiveCount, InOrder, OpenBefore, ActiveBefore, OrderOkAt, DumpOk, Fits;
    ghost var running := InOrder(j, Snap(tgt), zstart) && tgt.LimitsOk(Conds(dump));
    ok := true;
    for i := zstart to zend
      invariant Prepared(tgt, dump, file) && ok
      invariant running ==> InOrder(j, Snap(tgt), i) && OrderOk(dump, zstart, i, tgt.maxOpen, tgt.maxActive)
    {
      if dump[i].cond != Empty {
        ok := OrderTurn(tgt, dump, file, i, j);
        if !ok {
          return;
        }
      } else if running {
        OrderSkip(dump, zstart, i, tgt.maxOpen, tgt.maxActive);
        FitsNow(tgt, j);
        OrderStep(j, Snap(tgt), Snap(tgt), i);
      }
    }
  }

  /** What the comment on the passes guards against: the same restore with one pass in index order. It
      succeeds if and only if the zones come in an order that leaves the limits alone. */
  method RestoreInIndexOrder(tgt: Target, dump: seq<Zone>, file: seq<Byte>, zstart: nat, zend: nat) returns (ok: bool)
    requires tgt.Valid() && DumpOk(dump) && zstart <= zend <= |dump|
    modifies tgt
    ensures tgt.Valid()
    ensures old(LoadOk(tgt, dump, file)) && Job(dump, file, zstart, zend, old(Snap(tgt))).Ready() ==>
              (ok <==> OrderOk(dump, zstart, zend, tgt.maxOpen, tgt.maxActive))
  {
    hide Progress, OpenCount, ActiveCount, InOrder, OrderOk;
    ghost var j := Job(dump, file, zstart, zend, Snap(tgt));
    ok := LoadCheck(tgt, dump, file);
    if !ok {
      return;
    }
    FitsNow(tgt, j);
    ok := ResetPass(tgt, dump, file, zstart, zend, j);
    if j.Valid() {
      OrderStarts(j, Snap(tgt));
    }
    ok := OrderPass(tgt, dump, file, zstart, zend, j);
  }

  lemma OneOpen(dump: seq<Zone>)
    requires |dump| == 2 && dump[0].cond == ImpOpen && dump[1].cond == Full
    ensures OpenCount(Conds(dump)) == 1
  {
    assert Conds(dump) == [ImpOpen, Full] && [ImpOpen, Full][..1] == [ImpOpen] && [ImpOpen][..0] == [];
    assert OpenCount([ImpOpen]) == 1;
  }

  lemma FullAfterOpen(dump: seq<Zone>, maxActive: nat)
    requires |dump| == 2 && IsSeq(dump[1])
    requires dump[0].cond == ImpOpen && dump[0].start < dump[0].wp && dump[1].cond == Full
    ensures !OrderOk(dump, 0, 2, 1, maxActive)
  {
    assert OpenBefore(dump, 0, 0) == 0;
    assert !OrderOkAt(dump, 0, 1, 1, maxActive);
  }

  /** The order matters: with one open zone allowed, a zone dumped IMP_OPEN and one dumped FULL after it
      are within the limits, and none is stuck, but the single pass fails. */
  lemma IndexOrderFails(tgt: Target, dump: seq<Zone>)
    requires |dump| == 2 && tgt.maxOpen == 1 && tgt.maxActive == 0 && IsSeq(dump[1])
    requires dump[0].cond == ImpOpen && dump[0].start < dump[0].wp && dump[1].cond == Full
    ensures tgt.LimitsOk(Conds(dump)) && (forall y :: 0 <= y < 2 ==> !Stuck(dump[y]))
    ensures !OrderOk(dump, 0, 2, tgt.maxOpen, tgt.maxActive)
  {
    OneOpen(dump);
    FullAfterOpen(dump, tgt.maxActive);
    hide OrderOk, OpenCount;
  }

  // ---------- a closed zone without data ----------

  /** Two zones of two bytes, dumped as CLOSED without data and as EXP_OPEN with one byte. */
  function ClosedFirst(): seq<Zone> {
    [Zone(0, 2, 2, 0, Swr, Closed, false, false), Zone(2, 2, 2, 3, Swr, ExpOpen, false, false)]
  }

  lemma ClosedFirstFits(tgt: Target, file: seq<Byte>)
    requires tgt.maxOpen == tgt.maxActive == 0 && |file| == |tgt.media| == 4 && |tgt.cond| == |tgt.zones| == 2
    requires tgt.cond == [Empty, Empty] && forall i :: 0 <= i < 2 ==> SameZone(ClosedFirst()[i], tgt.zones[i])
    ensures DumpOk(ClosedFirst()) && LoadOk(tgt, ClosedFirst(), file)
    ensures Job(ClosedFirst(), file, 0, 2, Snap(tgt)).Ready()
  {
    hide OpenCount, ActiveCount;
  }

  lemma ClosedFirstOutcome(j: Job, s: Snapshot)
    requires j.Valid() && Fits(s, j.dump, j.file) && j.dump == ClosedFirst() && j.zstart == 0 && j.zend == 2
    requires Outcome(j, s, 0) && Outcome(j, s, 1)
    ensures s.cond == [Empty, Empty] && exists y :: 0 <= y < 2 && Stuck(j.dump[y])
  {
    assert Stuck(j.dump[0]) && FirstStuck(j.dump, 0, 2) == 0;
    hide DumpOk, Fits, Unchanged, Matches;
  }

  /** Restoring them stops at the first zone and leaves both EMPTY. */
  method ClosedWithoutDataStops(file: seq<Byte>) returns (tgt: Target, ok: bool)
    requires |file| == 4
    ensures tgt.Valid() && !ok && tgt.cond == [Empty, Empty]
  {
    hide OpenCount, ActiveCount, DumpOk, LoadOk, Outcome, RangeMatches, Restorable, FirstStuck, Fits;
    var zones := seq(2, i requires 0 <= i < 2 => ClosedFirst()[i].(cond := Empty));
    tgt := new Target(zones, 0, 0, 4);
    ClosedFirstFits(tgt, file);
    ghost var j := Job(ClosedFirst(), file, 0, 2, Snap(tgt));
    ok := ZbdRestore(tgt, ClosedFirst(), file, 0, 2);
    ClosedFirstOutcome(j, Snap(tgt));
  }

  // ---------- the dump ----------

  /** The descriptors that listing a device gives. */
  function Descriptors(src: Target): (dump: seq<Zone>)
    requires |src.cond| == |src.wp| == |src.zones|
    reads src
    ensures |dump| == |src.zones|
  {
    seq(|src.zones|, i requires 0 <= i < |src.zones| == |src.cond| == |src.wp| reads src =>
          src.zones[i].(cond := src.cond[i], wp := src.wp[i]))
  }

  /** `zbd_dump_one_zone`. */
  method DumpOneZone(src: Target, z: Zone, file: array<Byte>)
    requires z.start + z.capacity <= file.Length == |src.media|
    requires z.kind != Cnv && z.cond != Full ==> z.start <= z.wp <= file.Length
    modifies file
    ensures DataIs(file[..], old(file[..]), src.media, z.start,
                   if z.kind == Cnv || z.cond == Full then z.start + z.capacity else z.wp)
  {
    var ofst, end := z.start, DataEnd(z);
    while ofst < end
      invariant z.start <= ofst <= end && DataIs(file[..], old(file[..]), src.media, z.start, ofst)
    {
      var n := if ofst + DUMP_IO_SIZE > end then end - ofst else DUMP_IO_SIZE;
      CopyBytes(src.media[ofst..ofst + n], file, ofst);
      ofst := ofst + n;
    }
  }

  method CopyBytes(data: seq<Byte>, file: array<Byte>, ofst: nat)
    requires ofst + |data| <= file.Length
    modifies file
    ensures forall p :: 0 <= p < file.Length ==>
              file[p] == if ofst <= p < ofst + |data| then data[p - ofst] else old(file[p])
  {
    for i := 0 to |data|
      invariant forall p :: 0 <= p < file.Length ==>
                  file[p] == if ofst <= p < ofst + i then data[p - ofst] else old(file[p])
    {
      file[ofst + i] := data[i];
    }
  }

  /** The data of the zones from `zstart` up to `zend`, at their addresses in a file as large as the
      device. */
  method DumpZoneData(src: Target, dump: seq<Zone>, zstart: nat, zend: nat) returns (file: array<Byte>)
    requires DumpOk(dump) && zstart <= zend <= |dump|
    requires forall i :: 0 <= i < |dump| ==> dump[i].start + dump[i].len <= |src.media|
    ensures fresh(file) && file.Length == |src.media|
    ensures forall y :: zstart <= y < zend ==> DumpedZone(src, dump[y], file[..])
  {
    hide DumpOk;
    file := new Byte[|src.media|](p => 0);
    for i := zstart to zend
      invariant forall y :: zstart <= y < i ==> DumpedZone(src, dump[y], file[..])
    {
      DataInZone(dump, i);
      ghost var before := file[..];
      DumpOneZone(src, dump[i], file);
      forall y | zstart <= y <= i ensures DumpedZone(src, dump[y], file[..]) {
        if y < i { assert DumpedZone(src, dump[y], before); }
      }
    }
  }

  ghost predicate DumpedZone(src: Target, z: Zone, file: seq<Byte>)
    reads src
  {
    && |file| == |src.media|
    && (z.kind == Cnv || z.cond == Full ==>
          forall p :: z.start <= p < z.start + z.capacity && p < |file| ==> file[p] == src.media[p])
    && (z.kind != Cnv && z.cond != Full ==>
          forall p :: z.start <= p < z.wp && p < |file| ==> file[p] == src.media[p])
  }

  /** Dump then restore is a round trip: it succeeds if and only if no zone of the range is CLOSED
      without data, and then the zones of the range end up with the conditions, write pointers and data
      of the source, except for IMP_OPEN ones without data and those empty on the source only. */
  method DumpThenRestore(src: Target, tgt: Target, zstart: nat, zend: nat) returns (ok: bool)
    requires src.Valid() && tgt.Valid() && src != tgt && zstart <= zend <= |src.zones|
    requires DumpOk(Descriptors(src))
    modifies tgt
    ensures tgt.Valid()
    ensures !old(LoadOk(tgt, Descriptors(src), src.media)) ==> !ok && unchanged(tgt)
    ensures old(LoadOk(tgt, Descriptors(src), src.media))
            && Job(Descriptors(src), src.media, zstart, zend, old(Snap(tgt))).Ready() ==>
              && (ok <==> forall y :: zstart <= y < zend ==> !Stuck(Descriptors(src)[y]))
              && |tgt.media| == |src.media|
              && (ok ==> forall y :: zstart <= y < zend && Returns(src, old(tgt.cond), y) ==> SameData(src, tgt, y))
  {
    hide OpenCount, ActiveCount, RangeMatches, Restorable, FirstStuck;
    var dump := Descriptors(src);
    var file := DumpZoneData(src, dump, zstart, zend);
    ghost var j := Job(dump, file[..], zstart, zend, Snap(tgt));
    ok := ZbdRestore(tgt, dump, file[..], zstart, zend);
    if ok && j.Valid() && Fits(Snap(tgt), dump, file[..]) && forall y :: 0 <= y < |dump| ==> Outcome(j, Snap(tgt), y) {
      forall y | zstart <= y < zend && Returns(src, j.was.cond, y) ensures SameData(src, tgt, y) {
        assert Outcome(j, Snap(tgt), y) && DumpedZone(src, dump[y], file[..]);
      }
    }
  }

  /** Zone `y` of the source comes back: it is not IMP_OPEN without data, and EMPTY only if the target's
      zone was. */
  ghost predicate Returns(src: Target, was: seq<ZoneCond>, y: nat)
    requires y < |src.zones| == |src.cond| == |src.wp| == |was|
    reads src
  {
    (src.cond[y] == ImpOpen ==> src.wp[y] != src.zones[y].start) && (src.cond[y] == Empty ==> was[y] == Empty)
  }

  ghost predicate SameData(src: Target, tgt: Target, y: nat)
    requires y < |src.zones| == |src.cond| == |src.wp| && y < |tgt.cond| && y < |tgt.wp| && |tgt.media| == |src.media|
    reads src, tgt
  {
    && tgt.cond[y] == src.cond[y]
    && (src.zones[y].kind != Cnv && src.cond[y] != Full ==> tgt.wp[y] == src.wp[y])
    && (src.zones[y].kind == Cnv || src.cond[y] == Full ==>
          forall p :: src.zones[y].start <= p < src.zones[y].start + src.zones[y].capacity && p < |src.media| ==>
            tgt.media[p] == src.media[p])
    && (src.zones[y].kind != Cnv && src.cond[y] != Full ==>
          forall p :: src.zones[y].start <= p < src.wp[y] && p < |src.media| ==> tgt.media[p] == src.media[p])
  }
}
