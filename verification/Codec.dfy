/** The record format of one page: each record is a 4-byte key size, a 4-byte key, a 4-byte value
    size and the value bytes; zero words fill the rest of the 4096-byte page. */
module Codec {
  const BLOCK_SIZE: int := 4096
  const HEADER_SIZE: int := 12
  const MAX_KV_PER_BLOCK: int := BLOCK_SIZE / 16
  const MAX_VALUE_SIZE: int := 2048

  type Byte = b: int | 0 <= b < 256

  /** A record stands for a key and its value; the value is known by its size only. */
  datatype Record = Record(key: int, size: int)

  predicate ValidRecord(r: Record) {
    0 <= r.key < 0x8000_0000 && 4 <= r.size <= MAX_VALUE_SIZE && r.size % 4 == 0
  }

  function RecordBytes(r: Record): int {
    HEADER_SIZE + r.size
  }

  /** Bytes that a list of records takes on a page; also the offset just past it. */
  function Bytes(rs: seq<Record>): int {
    if rs == [] then 0 else Bytes(rs[..|rs| - 1]) + RecordBytes(rs[|rs| - 1])
  }

  ghost predicate AllValid(rs: seq<Record>) {
    forall i :: 0 <= i < |rs| ==> ValidRecord(rs[i])
  }

  /** The lists that `data2page` is given: they fit into one page. */
  ghost predicate FitsPage(rs: seq<Record>) {
    AllValid(rs) && Bytes(rs) <= BLOCK_SIZE
  }

  lemma BytesAppend(rs: seq<Record>, r: Record)
    ensures Bytes(rs + [r]) == Bytes(rs) + RecordBytes(r)
  {
    assert (rs + [r])[..|rs|] == rs;
  }

  lemma {:induction false} BytesConcat(xs: seq<Record>, ys: seq<Record>)
    ensures Bytes(xs + ys) == Bytes(xs) + Bytes(ys)
  {
    if ys == [] {
      assert xs + ys == xs;
    } else {
      var n := |ys| - 1;
      BytesConcat(xs, ys[..n]);
      assert xs + ys == (xs + ys[..n]) + [ys[n]];
      BytesAppend(xs + ys[..n], ys[n]);
    }
  }

  lemma MultipleOfFour(a: int, b: int)
    requires a % 4 == 0 && b % 4 == 0
    ensures (a + (HEADER_SIZE + b)) % 4 == 0
  {
  }

  lemma {:induction false} BytesBounds(rs: seq<Record>)
    requires AllValid(rs)
    ensures 16 * |rs| <= Bytes(rs)
    ensures Bytes(rs) % 4 == 0
  {
    if rs != [] {
      var n := |rs| - 1;
      BytesBounds(rs[..n]);
      assert ValidRecord(rs[n]);
      MultipleOfFour(Bytes(rs[..n]), rs[n].size);
    }
  }

  lemma BytesSplit(rs: seq<Record>, n: nat)
    requires AllValid(rs) && n <= |rs|
    ensures Bytes(rs) == Bytes(rs[..n]) + Bytes(rs[n..])
    ensures 0 <= Bytes(rs[..n]) <= Bytes(rs)
    ensures 0 <= Bytes(rs[n..])
  {
    assert rs == rs[..n] + rs[n..];
    BytesConcat(rs[..n], rs[n..]);
    BytesBounds(rs[..n]);
    BytesBounds(rs[n..]);
  }

  lemma BytesPrefix(rs: seq<Record>, n: nat)
    requires AllValid(rs) && n < |rs|
    ensures Bytes(rs[..n + 1]) == Bytes(rs[..n]) + RecordBytes(rs[n])
    ensures 0 <= Bytes(rs[..n]) < Bytes(rs[..n + 1]) <= Bytes(rs)
  {
    BytesSplit(rs, n);
    BytesSplit(rs, n + 1);
    assert rs[..n + 1][..n] == rs[..n];
  }

  /** A page never holds more records than the fixed arrays of the parse loops. */
  lemma RecordCountBound(rs: seq<Record>)
    requires FitsPage(rs)
    ensures |rs| <= MAX_KV_PER_BLOCK
  {
    BytesBounds(rs);
  }

  // ---------- 32-bit little-endian integers ----------

  function IntBytes(v: int): (bs: seq<Byte>)
    requires 0 <= v < 0x8000_0000
    ensures |bs| == 4 && IntAt(bs, 0) == v
    ensures bs[0] as int + 256 * bs[1] as int + 65536 * bs[2] as int + 16777216 * bs[3] as int == v
  {
    var v1 := v / 256;
    var v2 := v1 / 256;
    [v % 256, v1 % 256, v2 % 256, v2 / 256]
  }

  function IntAt(p: seq<Byte>, a: int): int
    requires 0 <= a <= |p| - 4
  {
    var b0: int, b1: int, b2: int, b3: int := p[a], p[a + 1], p[a + 2], p[a + 3];
    var u := b0 + 256 * b1 + 65536 * b2 + 16777216 * b3;
    if u < 0x8000_0000 then u else u - 0x1_0000_0000
  }

  // ---------- what a page holds ----------

  ghost predicate RecordAt(p: seq<Byte>, a: int, r: Record) {
    && 0 <= a && a + RecordBytes(r) <= |p| && 0 <= r.size
    && IntAt(p, a) == 4 && IntAt(p, a + 4) == r.key && IntAt(p, a + 8) == r.size
  }

  /** The stop test of the parse loops: too close to the end for a record, or no key size of 4. The
      address is tested first, so nothing is read past the page. */
  predicate AtEnd(p: seq<Byte>, a: int)
    requires |p| == BLOCK_SIZE && 0 <= a
  {
    a > BLOCK_SIZE - 16 || IntAt(p, a) != 4
  }

  ghost predicate PrefixHolds(p: seq<Byte>, rs: seq<Record>, n: nat)
    requires n <= |rs|
  {
    forall i {:trigger RecordAt(p, Bytes(rs[..i]), rs[i])} :: 0 <= i < n ==> RecordAt(p, Bytes(rs[..i]), rs[i])
  }

  /** The page carries exactly these records, whatever its payload bytes are. */
  ghost predicate PageHolds(p: seq<Byte>, rs: seq<Record>) {
    && |p| == BLOCK_SIZE && FitsPage(rs) && 0 <= Bytes(rs)
    && PrefixHolds(p, rs, |rs|)
    && AtEnd(p, Bytes(rs))
  }

  /** At the offset of record `n` the parse loop does not stop and reads exactly that record;
      after the last one it stops. */
  lemma ParseStep(p: seq<Byte>, rs: seq<Record>, n: nat)
    requires PageHolds(p, rs) && n <= |rs|
    ensures 0 <= Bytes(rs[..n]) <= BLOCK_SIZE
    ensures AtEnd(p, Bytes(rs[..n])) <==> n == |rs|
    ensures n < |rs| ==> RecordAt(p, Bytes(rs[..n]), rs[n])
    ensures n < |rs| ==> Bytes(rs[..n + 1]) == Bytes(rs[..n]) + RecordBytes(rs[n])
  {
    if n < |rs| {
      BytesPrefix(rs, n);
      assert RecordAt(p, Bytes(rs[..n]), rs[n]);
      assert ValidRecord(rs[n]);
    } else {
      assert rs[..n] == rs;
    }
  }

  /** The parse loop as a function of the page bytes alone; a malformed size ends it. */
  function Decode(p: seq<Byte>, a: int): seq<Record>
    requires |p| == BLOCK_SIZE && 0 <= a
    decreases BLOCK_SIZE - a
  {
    if AtEnd(p, a) || IntAt(p, a + 8) < 0 then []
    else [Record(IntAt(p, a + 4), IntAt(p, a + 8))] + Decode(p, a + HEADER_SIZE + IntAt(p, a + 8))
  }

  lemma DecodeStep(p: seq<Byte>, a: int, r: Record, rest: seq<Record>)
    requires |p| == BLOCK_SIZE && RecordAt(p, a, r) && a <= BLOCK_SIZE - 16
    requires Decode(p, a + RecordBytes(r)) == rest
    ensures Decode(p, a) == [r] + rest
  {
  }

  /** Round trip: whatever the payload bytes are, parsing gives back the records written. */
  lemma {:induction false} DecodeRecovers(p: seq<Byte>, rs: seq<Record>, n: nat, a: int)
    requires PageHolds(p, rs) && n <= |rs| && a == Bytes(rs[..n])
    ensures 0 <= a && Decode(p, a) == rs[n..]
    decreases |rs| - n
  {
    ParseStep(p, rs, n);
    if n < |rs| {
      var r := rs[n];
      DecodeRecovers(p, rs, n + 1, a + RecordBytes(r));
      DecodeStep(p, a, r, rs[n + 1..]);
      assert rs[n..] == [r] + rs[n + 1..];
    }
  }

  /** So a page determines its records. */
  lemma PageDeterminesRecords(p: seq<Byte>, rs: seq<Record>, ss: seq<Record>)
    requires PageHolds(p, rs) && PageHolds(p, ss)
    ensures rs == ss
  {
    DecodeRecovers(p, rs, 0, 0);
    DecodeRecovers(p, ss, 0, 0);
  }

  /** The bytes of the page: each record starts just past the one before, with the words 4, key and size,
      least significant byte first. */
  lemma PageBytes(p: seq<Byte>, rs: seq<Record>, n: nat)
    requires PageHolds(p, rs) && n < |rs|
    ensures var a := Bytes(rs[..n]);
      && 0 <= a && a + 12 + rs[n].size <= 4096 == |p|
      && Bytes(rs[..n + 1]) == a + 12 + rs[n].size
      && p[a] == 4 && p[a + 1] == p[a + 2] == p[a + 3] == 0
      && p[a + 4] as int + 256 * p[a + 5] as int + 65536 * p[a + 6] as int + 16777216 * p[a + 7] as int == rs[n].key
      && p[a + 8] as int + 256 * p[a + 9] as int + 65536 * p[a + 10] as int + 16777216 * p[a + 11] as int == rs[n].size
  {
    ParseStep(p, rs, n);
    ParseStep(p, rs, n + 1);
    assert ValidRecord(rs[n]);
  }

  // ---------- data2page ----------

  method PutInt(page: array<Byte>, a: int, v: int)
    requires 0 <= a && a + 4 <= page.Length && 0 <= v < 0x8000_0000
    modifies page
    ensures IntAt(page[..], a) == v
    ensures v == 0 ==> forall i :: a <= i < a + 4 ==> page[i] == 0
    ensures page[..a] == old(page[..a]) && page[a + 4..] == old(page[a + 4..])
  {
    var bs := IntBytes(v);
    page[a], page[a + 1], page[a + 2], page[a + 3] := bs[0], bs[1], bs[2], bs[3];
  }

  /** The copied value: `memcpy` takes whatever follows the size in memory, so any bytes at all. */
  method PutPayload(page: array<Byte>, a: int, n: int)
    requires 0 <= a && 0 <= n && a + n <= page.Length
    modifies page
    ensures page[..a] == old(page[..a]) && page[a + n..] == old(page[a + n..])
  {
    for j := 0 to n
      invariant page[..a] == old(page[..a]) && page[a + n..] == old(page[a + n..])
    {
      page[a + j] := *;
    }
  }

  lemma IntAtStable(p: seq<Byte>, q: seq<Byte>, a: int, n: int)
    requires 0 <= a <= n - 4 && n <= |p| == |q| && p[..n] == q[..n]
    ensures IntAt(p, a) == IntAt(q, a)
  {
    assert forall i :: a <= i < a + 4 ==> p[i] == p[..n][i] == q[..n][i] == q[i];
  }

  lemma RecordStable(p: seq<Byte>, q: seq<Byte>, a: int, r: Record, n: int)
    requires RecordAt(p, a, r) && a + RecordBytes(r) <= n <= |p| == |q| && p[..n] == q[..n]
    ensures RecordAt(q, a, r)
  {
    IntAtStable(p, q, a, n);
    IntAtStable(p, q, a + 4, n);
    IntAtStable(p, q, a + 8, n);
  }

  lemma OffsetBelow(rs: seq<Record>, i: nat, n: nat)
    requires AllValid(rs) && i < n <= |rs|
    ensures Bytes(rs[..i]) + RecordBytes(rs[i]) <= Bytes(rs[..n])
  {
    BytesPrefix(rs, i);
    BytesSplit(rs[..n], i + 1);
    assert rs[..n][..i + 1] == rs[..i + 1];
  }

  lemma PrefixStable(p: seq<Byte>, q: seq<Byte>, rs: seq<Record>, n: nat)
    requires AllValid(rs) && n <= |rs| && PrefixHolds(p, rs, n)
    requires |p| == |q| && 0 <= Bytes(rs[..n]) <= |p|
    requires p[..Bytes(rs[..n])] == q[..Bytes(rs[..n])]
    ensures PrefixHolds(q, rs, n)
  {
    forall i | 0 <= i < n ensures RecordAt(q, Bytes(rs[..i]), rs[i]) {
      assert RecordAt(p, Bytes(rs[..i]), rs[i]);
      OffsetBelow(rs, i, n);
      RecordStable(p, q, Bytes(rs[..i]), rs[i], Bytes(rs[..n]));
    }
  }

  method PutRecord(page: array<Byte>, a: int, r: Record)
    requires ValidRecord(r) && 0 <= a && a + RecordBytes(r) <= page.Length
    modifies page
    ensures RecordAt(page[..], a, r)
    ensures page[..a] == old(page[..a])
  {
    PutInt(page, a, 4);
    ghost var p1 := page[..];
    PutInt(page, a + 4, r.key);
    ghost var p2 := page[..];
    PutInt(page, a + 8, r.size);
    ghost var p3 := page[..];
    PutPayload(page, a + 12, r.size);
    assert p2[..a + 4] == p1[..a + 4];
    assert p3[..a + 8] == p2[..a + 8];
    assert page[..][..a + 12] == p3[..a + 12];
    IntAtStable(p1, p2, a, a + 4);
    IntAtStable(p2, p3, a, a + 8);
    IntAtStable(p2, p3, a + 4, a + 8);
    IntAtStable(p3, page[..], a, a + 12);
    IntAtStable(p3, page[..], a + 4, a + 12);
    IntAtStable(p3, page[..], a + 8, a + 12);
    assert page[..a] == p3[..a] == p2[..a] == p1[..a];
  }

  method PutRecords(page: array<Byte>, rs: seq<Record>) returns (addr: int)
    requires FitsPage(rs) && page.Length == BLOCK_SIZE
    modifies page
    ensures addr == Bytes(rs) && PrefixHolds(page[..], rs, |rs|)
  {
    addr := 0;
    for i := 0 to |rs|
      invariant addr == Bytes(rs[..i]) && 0 <= addr
      invariant PrefixHolds(page[..], rs, i)
    {
      BytesPrefix(rs, i);
      ghost var before := page[..];
      PutRecord(page, addr, rs[i]);
      assert page[..][..addr] == before[..addr];
      PrefixStable(before, page[..], rs, i);
      addr := addr + RecordBytes(rs[i]);
    }
    assert rs[..|rs|] == rs;
  }

  method PadPage(page: array<Byte>, start: int)
    requires page.Length == BLOCK_SIZE && 0 <= start <= BLOCK_SIZE && start % 4 == 0
    modifies page
    ensures page[..start] == old(page[..start])
    ensures AtEnd(page[..], start)
    ensures forall i :: start <= i < BLOCK_SIZE ==> page[i] == 0
  {
    var addr := start;
    while addr < BLOCK_SIZE
      invariant start <= addr <= BLOCK_SIZE && addr % 4 == 0
      invariant page[..start] == old(page[..start])
      invariant addr > start ==> IntAt(page[..], start) == 0
      invariant forall i :: start <= i < addr ==> page[i] == 0
    {
      ghost var before := page[..];
      PutInt(page, addr, 0);
      assert page[..][..addr] == before[..addr];
      assert forall i :: start <= i < addr ==> page[i] == page[..][..addr][i] == before[..addr][i];
      if addr > start {
        IntAtStable(before, page[..], start, addr);
      }
      assert page[..start] == page[..][..addr][..start] == before[..addr][..start];
      addr := addr + 4;
    }
  }

  /** `data2page`: packs the records into one page, for the parse loops to find again. */
  method Data2Page(rs: seq<Record>) returns (page: array<Byte>)
    requires FitsPage(rs)
    ensures fresh(page) && PageHolds(page[..], rs)
    ensures page.Length == 4096 && forall i :: Bytes(rs) <= i < 4096 ==> page[i] == 0
  {
    page := new Byte[BLOCK_SIZE];
    BytesBounds(rs);
    var addr := PutRecords(page, rs);
    ghost var filled := page[..];
    PadPage(page, addr);
    assert rs[..|rs|] == rs;
    PrefixStable(filled, page[..], rs, |rs|);
  }
}
