/** How an update and garbage collection repack records into pages: records are added to the
    current page in order, and the page is flushed when the next record would not fit. */
module Packing {
  import opened Codec

  /** The pages flushed while `rest` is added to the current page `batch`. */
  function Pack(batch: seq<Record>, rest: seq<Record>): seq<seq<Record>>
    decreases |rest|
  {
    if rest == [] then
      if batch == [] then [] else [batch]
    else if Bytes(batch) + RecordBytes(rest[0]) > BLOCK_SIZE then
      [batch] + Pack([rest[0]], rest[1..])
    else
      Pack(batch + [rest[0]], rest[1..])
  }

  function Flatten(pages: seq<seq<Record>>): seq<Record> {
    if pages == [] then [] else pages[0] + Flatten(pages[1..])
  }

  ghost predicate AllFit(pages: seq<seq<Record>>) {
    forall i :: 0 <= i < |pages| ==> FitsPage(pages[i])
  }

  lemma ValidAppend(batch: seq<Record>, rest: seq<Record>)
    requires AllValid(batch) && AllValid(rest) && rest != []
    ensures AllValid(batch + [rest[0]]) && AllValid([rest[0]]) && AllValid(rest[1..])
    ensures Bytes([rest[0]]) == RecordBytes(rest[0]) <= BLOCK_SIZE
    ensures Bytes(batch + [rest[0]]) == Bytes(batch) + RecordBytes(rest[0])
  {
    assert [] + [rest[0]] == [rest[0]];
    BytesAppend([], rest[0]);
    BytesAppend(batch, rest[0]);
  }

  lemma PackStep(batch: seq<Record>, r: Record, rest: seq<Record>)
    ensures Pack(batch, [r] + rest)
         == if Bytes(batch) + RecordBytes(r) > BLOCK_SIZE then [batch] + Pack([r], rest)
            else Pack(batch + [r], rest)
  {
    assert ([r] + rest)[1..] == rest;
  }

  /** Records that fit into one page are never split. */
  lemma {:induction false} PackOnePage(batch: seq<Record>, rest: seq<Record>)
    requires FitsPage(batch + rest)
    ensures Pack(batch, rest) == if batch + rest == [] then [] else [batch + rest]
    decreases |rest|
  {
    if rest == [] {
      assert batch + rest == batch;
    } else {
      var n := |batch|;
      BytesPrefix(batch + rest, n);
      assert (batch + rest)[..n] == batch && (batch + rest)[..n + 1] == batch + [rest[0]];
      assert rest == [rest[0]] + rest[1..];
      assert (batch + [rest[0]]) + rest[1..] == batch + ([rest[0]] + rest[1..]);
      PackOnePage(batch + [rest[0]], rest[1..]);
    }
  }

  /** Packing loses nothing, keeps the order, and writes only nonempty pages that fit. */
  lemma {:induction false} PackSound(batch: seq<Record>, rest: seq<Record>)
    requires FitsPage(batch) && AllValid(rest)
    ensures Flatten(Pack(batch, rest)) == batch + rest
    ensures AllFit(Pack(batch, rest))
    ensures forall i :: 0 <= i < |Pack(batch, rest)| ==> Pack(batch, rest)[i] != []
    decreases |rest|
  {
    if rest == [] {
      assert batch + rest == batch;
    } else {
      ValidAppend(batch, rest);
      if Bytes(batch) + RecordBytes(rest[0]) > BLOCK_SIZE {
        PackSound([rest[0]], rest[1..]);
        assert batch + rest == batch + ([rest[0]] + rest[1..]);
        assert Pack(batch, rest)[1..] == Pack([rest[0]], rest[1..]);
      } else {
        PackSound(batch + [rest[0]], rest[1..]);
        assert batch + rest == (batch + [rest[0]]) + rest[1..];
      }
    }
  }

  lemma OverfullPrefix(page: seq<Record>, s: seq<Record>, batch: seq<Record>, r: Record)
    requires FitsPage(page) && AllValid(s)
    requires Bytes(batch) + RecordBytes(r) > BLOCK_SIZE
    ensures !(s + batch + [r] <= page)
  {
    var n := |s| + |batch| + 1;
    if s + batch + [r] <= page {
      assert page[..n] == (s + batch) + [r];
      BytesSplit(page, n);
      BytesAppend(s + batch, r);
      BytesConcat(s, batch);
      BytesBounds(s);
    }
  }

  /** A page of a split cannot reach past `batch`: it would hold all of `batch` and the next record. */
  lemma FirstPageStops(s: seq<Record>, batch: seq<Record>, r: Record, rest: seq<Record>,
                       page: seq<Record>, others: seq<Record>)
    requires AllValid(s) && FitsPage(page)
    requires page + others == s + batch + [r] + rest
    requires Bytes(batch) + RecordBytes(r) > BLOCK_SIZE
    ensures |page| <= |s + batch|
    ensures others == (s + batch)[|page|..] + [r] + rest
  {
    var front := s + batch;
    if |page| > |front| {
      assert (page + others)[..|front| + 1] == front + [r];
      OverfullPrefix(page, s, batch, r);
    } else {
      assert others == (page + others)[|page|..];
    }
  }

  /** Greedy stays ahead: even a split that still has to place some earlier records `s` needs at
      least as many pages as packing has left. */
  lemma {:induction false} PackStaysAhead(s: seq<Record>, batch: seq<Record>, rest: seq<Record>,
                                          split: seq<seq<Record>>)
    requires AllValid(s) && AllValid(batch) && AllValid(rest) && AllFit(split)
    requires Flatten(split) == s + batch + rest
    ensures |Pack(batch, rest)| <= |split|
    decreases |rest|
  {
    if rest == [] {
      if batch != [] { assert |s + batch + rest| > 0; }
    } else {
      var r := rest[0];
      ValidAppend(batch, rest);
      assert rest == [r] + rest[1..];
      assert s + batch + rest == s + batch + [r] + rest[1..];
      if Bytes(batch) + RecordBytes(r) > BLOCK_SIZE {
        assert split != [];
        FirstPageStops(s, batch, r, rest[1..], split[0], Flatten(split[1..]));
        PackStaysAhead((s + batch)[|split[0]|..], [r], rest[1..], split[1..]);
      } else {
        assert s + batch + [r] + rest[1..] == s + (batch + [r]) + rest[1..];
        PackStaysAhead(s, batch + [r], rest[1..], split);
      }
    }
  }

  /** Optimality: no way to cut the records, in order, into pages that fit uses fewer pages. */
  lemma PackIsOptimal(rs: seq<Record>, split: seq<seq<Record>>)
    requires AllValid(rs) && AllFit(split) && Flatten(split) == rs
    ensures |Pack([], rs)| <= |split|
  {
    assert [] + [] + rs == rs;
    PackStaysAhead([], [], rs, split);
  }

  // ---------- the records of one page after an update or delete ----------

  /** The records an update of key `k` keeps: size 0 deletes the key. */
  function Changed(rs: seq<Record>, k: int, v: int): seq<Record> {
    if rs == [] then []
    else (if rs[0].key != k then [rs[0]] else if v != 0 then [Record(k, v)] else [])
         + Changed(rs[1..], k, v)
  }

  lemma {:induction false} ChangedConcat(xs: seq<Record>, ys: seq<Record>, k: int, v: int)
    ensures Changed(xs + ys, k, v) == Changed(xs, k, v) + Changed(ys, k, v)
  {
    if xs == [] {
      assert xs + ys == ys;
    } else {
      assert (xs + ys)[1..] == xs[1..] + ys;
      ChangedConcat(xs[1..], ys, k, v);
    }
  }

  lemma {:induction false} ChangedOther(rs: seq<Record>, k: int, v: int)
    requires forall i :: 0 <= i < |rs| ==> rs[i].key != k
    ensures Changed(rs, k, v) == rs
  {
    if rs != [] {
      ChangedOther(rs[1..], k, v);
    }
  }

  ghost predicate DistinctKeys(rs: seq<Record>) {
    forall i, j :: 0 <= i < j < |rs| ==> rs[i].key != rs[j].key
  }

  lemma ChangedSplit(rs: seq<Record>, i: nat, v: int)
    requires DistinctKeys(rs) && i < |rs|
    ensures Changed(rs, rs[i].key, v)
         == rs[..i] + (if v != 0 then [Record(rs[i].key, v)] else []) + rs[i + 1..]
  {
    var k := rs[i].key;
    assert rs == rs[..i] + ([rs[i]] + rs[i + 1..]);
    ChangedConcat(rs[..i], [rs[i]] + rs[i + 1..], k, v);
    ChangedConcat([rs[i]], rs[i + 1..], k, v);
    ChangedOther(rs[..i], k, v);
    ChangedOther(rs[i + 1..], k, v);
  }

  lemma FlattenThree(a: seq<Record>, b: seq<Record>, c: seq<Record>)
    ensures Flatten([a, b, c]) == a + b + c
  {
    assert [a, b, c][1..] == [b, c] && [b, c][1..] == [c] && [c][1..] == [];
    assert Flatten([c]) == c;
    assert Flatten([b, c]) == b + c;
  }

  lemma ThreePages(a: seq<Record>, r: Record, c: seq<Record>)
    requires FitsPage(a) && ValidRecord(r) && FitsPage(c)
    ensures AllValid(a + [r] + c) && |Pack([], a + [r] + c)| <= 3
  {
    FlattenThree(a, [r], c);
    assert [] + [r] == [r];
    BytesAppend([], r);
    PackIsOptimal(a + [r] + c, [a, [r], c]);
  }

  /** One page is rewritten as at most three pages. */
  lemma UpdateWritesAtMostThree(rs: seq<Record>, i: nat, v: int)
    requires FitsPage(rs) && DistinctKeys(rs) && i < |rs| && ValidRecord(Record(rs[i].key, v))
    ensures AllValid(Changed(rs, rs[i].key, v))
    ensures |Pack([], Changed(rs, rs[i].key, v))| <= 3
  {
    var r := Record(rs[i].key, v);
    ChangedSplit(rs, i, v);
    BytesSplit(rs, i);
    BytesSplit(rs, i + 1);
    ThreePages(rs[..i], r, rs[i + 1..]);
  }

  lemma RestFits(rs: seq<Record>, i: nat)
    requires FitsPage(rs) && i < |rs|
    ensures FitsPage(rs[..i] + rs[i + 1..])
  {
    BytesPrefix(rs, i);
    BytesSplit(rs, i + 1);
    BytesConcat(rs[..i], rs[i + 1..]);
  }

  /** ... and as at most one if the key is deleted. */
  lemma DeleteWritesAtMostOne(rs: seq<Record>, i: nat)
    requires FitsPage(rs) && DistinctKeys(rs) && i < |rs|
    ensures FitsPage(Changed(rs, rs[i].key, 0))
    ensures |Pack([], Changed(rs, rs[i].key, 0))| == if |rs| == 1 then 0 else 1
  {
    var left := rs[..i] + rs[i + 1..];
    ChangedSplit(rs, i, 0);
    assert rs[..i] + [] + rs[i + 1..] == left == [] + left;
    RestFits(rs, i);
    PackOnePage([], left);
  }

  /** Three pages do happen: 2028, 4 and 2028 bytes of values with the middle one grown to 2048. */
  lemma ThreePagesReached()
    ensures var rs := [Record(0, 2028), Record(1, 4), Record(2, 2028)];
      FitsPage(rs) && DistinctKeys(rs) && |Pack([], Changed(rs, 1, 2048))| == 3
  {
    var a, b, c, d := Record(0, 2028), Record(1, 4), Record(2, 2028), Record(1, 2048);
    assert Bytes([]) == 0 && Pack([c], []) == [[c]];
    hide Bytes, Pack, Changed;
    assert [a] == [] + [a] && [a, b] == [a] + [b] && [a, b, c] == [a, b] + [c] && [d] == [] + [d];
    BytesAppend([], a);
    BytesAppend([a], b);
    BytesAppend([a, b], c);
    BytesAppend([], d);
    ChangedSplit([a, b, c], 1, 2048);
    assert [a, b, c][..1] + [d] + [a, b, c][2..] == [a] + ([d] + ([c] + []));
    PackStep([], a, [d] + ([c] + []));
    PackStep([a], d, [c] + []);
    PackStep([d], c, []);
  }
}
