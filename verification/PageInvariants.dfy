/** What every run of page accesses keeps: read-back, the reserve byte, the page size cache, the header. */
module PageInvariants {
  import opened Bytes
  import opened ByteFile
  import opened PageFile
  import opened PageStore

  /** Nothing written yet: any file refines the empty page map. */
  function Untouched<K>(f: File): Logical<K> {
    Logical(map[], |f.store|)
  }

  /**
   The page map over whole runs, from any file: the length agrees, and each written page, read
   under the key it was last written with, shows its last written bytes.
   */
  lemma PageMapRefinement<K(!new)>(c: Codec<K>, P: nat, f: File, ops: seq<Op<K>>, k: nat, reader: K, writer: K)
    requires Inverse(c) && P >= MIN_PAGE && AllAligned(P, ops)
    ensures var l := LogicalRun(c, P, Untouched(f), ops);
            var f' := RunOps(c, P, f, ops);
            var o := ReadPageAt(c, P, f', k, reader, writer);
            && |f'.store| == l.length
            && (k in l.pages && l.pages[k].key == reader ==>
                  && Shows(c, P, o.data, k, l.pages[k])
                  && (o.ok <==> k == 0 ==> c.accepts(writer, l.pages[0].bytes[RESERVE_AT])))
  {
    RunKeeps(c, P, f, Untouched(f), ops);
    var l := LogicalRun(c, P, Untouched(f), ops);
    if k in l.pages && l.pages[k].key == reader {
      ReadShows(c, P, RunOps(c, P, f, ops), l, k, reader, writer);
    }
  }

  /** A codec that gives back exactly what it was given, and makes no demand on the header. */
  ghost predicate Exact<K(!new)>(c: Codec<K>) {
    && (forall key: K, x: seq<byte>, y: seq<byte> :: c.same(key, x, y) ==> x == y)
    && (forall key: K, size: byte :: c.accepts(key, size))
  }

  lemma ShownExactly<K(!new)>(c: Codec<K>, P: nat, data: seq<byte>, k: nat, w: Written<K>)
    requires Exact(c) && Shows(c, P, data, k, w)
    ensures data == w.bytes
  {
    assert data == data[..HeadOf(k)] + data[HeadOf(k)..];
    assert w.bytes == w.bytes[..HeadOf(k)] + w.bytes[HeadOf(k)..];
  }

  /** With an exact codec every read of a written page succeeds with exactly its last written bytes. */
  lemma ExactStore<K(!new)>(c: Codec<K>, P: nat, f: File, ops: seq<Op<K>>, k: nat, reader: K, writer: K)
    requires Inverse(c) && Exact(c) && P >= MIN_PAGE && AllAligned(P, ops)
    ensures var l := LogicalRun(c, P, Untouched(f), ops);
            var f' := RunOps(c, P, f, ops);
            && |f'.store| == l.length
            && (k in l.pages && l.pages[k].key == reader ==>
                  var o := ReadPageAt(c, P, f', k, reader, writer);
                  o.ok && o.data == l.pages[k].bytes)
  {
    PageMapRefinement(c, P, f, ops, k, reader, writer);
    var l := LogicalRun(c, P, Untouched(f), ops);
    if k in l.pages && l.pages[k].key == reader {
      ShownExactly(c, P, ReadPageAt(c, P, RunOps(c, P, f, ops), k, reader, writer).data, k, l.pages[k]);
    }
  }

  // ---- Reserve byte ----

  /** Page 0 carries a reserve byte its own key accepts. */
  ghost predicate ReserveOk<K>(c: Codec<K>, P: nat, l: Logical<K>)
    requires P >= MIN_PAGE && PagesSized(P, l)
  {
    0 in l.pages ==> c.accepts(l.pages[0].key, l.pages[0].bytes[RESERVE_AT])
  }

  predicate Touches<K>(op: Op<K>, from: nat, to: nat) {
    op.WriteHeader? && op.at < to && from < op.at + |op.bytes|
  }

  lemma {:induction false} ReserveKept<K>(c: Codec<K>, P: nat, l: Logical<K>, ops: seq<Op<K>>)
    requires P >= MIN_PAGE && AllAligned(P, ops) && PagesSized(P, l) && ReserveOk(c, P, l)
    requires forall i :: 0 <= i < |ops| ==> !Touches(ops[i], RESERVE_AT, RESERVE_AT + 1)
    ensures ReserveOk(c, P, LogicalRun(c, P, l, ops))
  {
    if ops != [] {
      ReserveKept(c, P, l, ops[..|ops| - 1]);
    }
  }

  // ---- Page size cache ----

  /** The cached page size is the big-endian field at byte 16 of the file, with 1 standing for 65536. */
  predicate CacheAgrees(f: File) {
    && |f.store| >= 100
    && f.pageSize == if f.store[16] == 0 && f.store[17] == 1 then 65536
                     else 256 * (f.store[16] as int) + f.store[17] as int
  }

  /**
   Whether the cache must agree after a run: page 0 has been accessed successfully, and since then
   no page 0 write has thrown, no small write has touched bytes 16 and 17 and the file was not emptied.
   */
  function Synced<K>(c: Codec<K>, P: nat, f: File, ops: seq<Op<K>>): bool {
    if ops == [] then false
    else
      var n := |ops| - 1;
      var before := Synced(c, P, f, ops[..n]);
      var ok := Apply(c, P, RunOps(c, P, f, ops[..n]), ops[n]).ok;
      match ops[n]
      case WritePage(k, _, _, _) => if k == 0 then ok else before
      case ReadPage(k, _, _) => before || (k == 0 && ok)
      case Truncate(pages) => before && pages > 0
      case WriteHeader(_, _) => before && !Touches(ops[n], 16, 18)
      case ReadHeader(_, _) => before
  }

  /** Whether access i of a run succeeds. */
  predicate Succeeds<K>(c: Codec<K>, P: nat, f: File, ops: seq<Op<K>>, i: nat)
    requires i < |ops|
  {
    Apply(c, P, RunOps(c, P, f, ops[..i]), ops[i]).ok
  }

  /** Access i reads or writes page 0 without a throw. */
  predicate OpensHeader<K>(c: Codec<K>, P: nat, f: File, ops: seq<Op<K>>, i: nat)
    requires i < |ops|
  {
    ((ops[i].WritePage? && ops[i].k == 0) || (ops[i].ReadPage? && ops[i].k == 0)) && Succeeds(c, P, f, ops, i)
  }

  /** Access i is a page 0 write that throws, a truncation to nothing or a small write to bytes 16 and 17. */
  predicate Unsettles<K>(c: Codec<K>, P: nat, f: File, ops: seq<Op<K>>, i: nat)
    requires i < |ops|
  {
    || (ops[i].WritePage? && ops[i].k == 0 && !Succeeds(c, P, f, ops, i))
    || (ops[i].Truncate? && ops[i].pages == 0)
    || (ops[i].WriteHeader? && ops[i].at < 18 && 16 < ops[i].at + |ops[i].bytes|)
  }

  ghost predicate SyncedSince<K>(c: Codec<K>, P: nat, f: File, ops: seq<Op<K>>, i: nat) {
    && i < |ops| && OpensHeader(c, P, f, ops, i)
    && forall j :: i < j < |ops| ==> !Unsettles(c, P, f, ops, j)
  }

  lemma SyncedPrefix<K>(c: Codec<K>, P: nat, f: File, ops: seq<Op<K>>, i: nat)
    requires i < |ops| - 1
    ensures SyncedSince(c, P, f, ops, i)
       <==> SyncedSince(c, P, f, ops[..|ops| - 1], i) && !Unsettles(c, P, f, ops, |ops| - 1)
  {
    var before := ops[..|ops| - 1];
    forall j | 0 <= j < |ops| - 1
      ensures OpensHeader(c, P, f, before, j) == OpensHeader(c, P, f, ops, j)
      ensures Unsettles(c, P, f, before, j) == Unsettles(c, P, f, ops, j)
    {
      assert before[..j] == ops[..j];
    }
  }

  lemma {:induction false} SyncedWitness<K>(c: Codec<K>, P: nat, f: File, ops: seq<Op<K>>) returns (i: nat)
    requires Synced(c, P, f, ops)
    ensures SyncedSince(c, P, f, ops, i)
  {
    var n := |ops| - 1;
    if OpensHeader(c, P, f, ops, n) {
      i := n;
    } else {
      i := SyncedWitness(c, P, f, ops[..n]);
      SyncedPrefix(c, P, f, ops, i);
    }
  }

  lemma {:induction false} SyncedFrom<K>(c: Codec<K>, P: nat, f: File, ops: seq<Op<K>>, i: nat)
    requires SyncedSince(c, P, f, ops, i)
    ensures Synced(c, P, f, ops)
  {
    if i < |ops| - 1 {
      SyncedPrefix(c, P, f, ops, i);
      SyncedFrom(c, P, f, ops[..|ops| - 1], i);
    }
  }

  /** The condition spelled out: page 0 was opened at some point and nothing unsettled the cache after it. */
  lemma SyncedIff<K>(c: Codec<K>, P: nat, f: File, ops: seq<Op<K>>)
    ensures Synced(c, P, f, ops) <==> exists i :: SyncedSince(c, P, f, ops, i)
  {
    if Synced(c, P, f, ops) {
      var _ := SyncedWitness(c, P, f, ops);
    }
    forall i | SyncedSince(c, P, f, ops, i) ensures Synced(c, P, f, ops) {
      SyncedFrom(c, P, f, ops, i);
    }
  }

  /** An encoder keeps lengths whenever it succeeds. */
  ghost predicate EncodesToLength<K>(c: Codec<K>, page: seq<byte>, n: nonce, writer: K)
    requires |page| >= MIN_PAGE
  {
    && (c.encode(writer, page[HEADER..], n).Some? ==> |c.encode(writer, page[HEADER..], n).value| == |page| - HEADER)
    && (c.encode(writer, page[0..], n).Some? ==> |c.encode(writer, page[0..], n).value| == |page|)
  }

  lemma WriteSyncs<K>(c: Codec<K>, P: nat, f: File, k: nat, page: seq<byte>, n: nonce, writer: K)
    requires |page| == P >= MIN_PAGE && EncodesToLength(c, page, n, writer)
    ensures var o := WritePageAt(c, P, f, k, page, n, writer);
            (k == 0 && o.ok) || (k > 0 && CacheAgrees(f)) ==> CacheAgrees(o.file)
  {
    WriteOutcome(c, P, f, k, page, n, writer);
    OffsetPositive(k, P);
  }

  lemma ReadSyncs<K>(c: Codec<K>, P: nat, f: File, k: nat, reader: K, writer: K)
    requires P >= MIN_PAGE
    ensures var o := ReadPageAt(c, P, f, k, reader, writer);
            CacheAgrees(f) || (k == 0 && o.ok) ==> CacheAgrees(o.file)
  {
    OffsetPositive(k, P);
  }

  /** Over every run, the cache holds the stored field whenever nothing has unsettled it. */
  lemma {:induction false} CacheAgreement<K(!new)>(c: Codec<K>, P: nat, f: File, ops: seq<Op<K>>)
    requires Inverse(c) && P >= MIN_PAGE && AllAligned(P, ops)
    ensures Synced(c, P, f, ops) ==> CacheAgrees(RunOps(c, P, f, ops))
  {
    if ops != [] {
      var n := |ops| - 1;
      CacheAgreement(c, P, f, ops[..n]);
      var g := RunOps(c, P, f, ops[..n]);
      match ops[n]
      case WritePage(k, page, nonce, writer) => WriteSyncs(c, P, g, k, page, nonce, writer);
      case ReadPage(k, reader, writer) => ReadSyncs(c, P, g, k, reader, writer);
      case Truncate(pages) => OffsetPositive(pages, P);
      case WriteHeader(_, _) =>
      case ReadHeader(_, _) =>
    }
  }

  /**
   A page 0 write that throws has already replaced the cache: afterwards it agrees with the stored
   header exactly when the rejected page carries the stored page size field.
   */
  lemma RejectedWriteCache<K>(c: Codec<K>, P: nat, f: File, page: seq<byte>, n: nonce, writer: K)
    requires |page| == P >= MIN_PAGE && |f.store| >= 100
    requires !Accepted(c, 0, page, n, writer)
    ensures var o := WritePageAt(c, P, f, 0, page, n, writer);
            && !o.ok && o.file.store == f.store
            && (CacheAgrees(o.file) <==> page[16] == f.store[16] && page[17] == f.store[17])
  {
    OffsetPositive(0, P);
  }

  // ---- Header transparency ----

  /** After every run a small access inside the first 100 bytes sees the logical header of page 0. */
  lemma HeaderTransparency<K(!new)>(c: Codec<K>, P: nat, f: File, ops: seq<Op<K>>, size: nat, at: nat)
    requires Inverse(c) && P >= MIN_PAGE && AllAligned(P, ops) && at + size <= 100
    ensures var l := LogicalRun(c, P, Untouched(f), ops);
            var f' := RunOps(c, P, f, ops);
            0 in l.pages ==>
              Apply(c, P, f', Op<K>.ReadHeader(size, at)) == Outcome(f', l.pages[0].bytes[at..at + size], true)
  {
    RunKeeps(c, P, f, Untouched(f), ops);
    if 0 in LogicalRun(c, P, Untouched(f), ops).pages {
      ReadHeaderShows(c, P, RunOps(c, P, f, ops), LogicalRun(c, P, Untouched(f), ops), size, at);
    }
  }

  ghost predicate KeepsLengthOf<K>(c: Codec<K>, reader: K, P: nat) {
    forall page: seq<byte> :: |page| == P - HEADER ==> |c.decode(reader, page).page| == |page|
  }

  /** What a page 0 read returns, in terms of the first page of the store. */
  lemma PageZeroRead<K>(c: Codec<K>, P: nat, f: File, reader: K, writer: K)
    requires KeepsLengthOf(c, reader, P) && P >= MIN_PAGE && |f.store| >= P
    ensures var o := ReadPageAt(c, P, f, 0, reader, writer);
            var d := c.decode(reader, f.store[..P][HEADER..]);
            && |o.data| == P && o.data == f.store[..P][..HEADER] + d.page
            && (o.ok <==> d.ok && c.accepts(writer, f.store[..P][..HEADER][RESERVE_AT]))
  {
    OffsetPositive(0, P);
    assert Slot(f.store, 0, P) == f.store[..P];
    ReadOutcome(c, P, f, 0, reader, writer);
    var o := ReadPageAt(c, P, f, 0, reader, writer);
    assert o.data == o.data[..HEADER] + o.data[HEADER..];
  }

  /** Overwriting header bytes changes exactly those bytes of what a page 0 read returns. */
  lemma HeaderWriteThenPageRead<K(!new)>(c: Codec<K>, P: nat, f: File, bytes: seq<byte>, at: nat, reader: K, writer: K)
    requires KeepsLength(c) && P >= MIN_PAGE && at + |bytes| <= 100 && |f.store| >= P
    ensures var o := ReadPageAt(c, P, f, 0, reader, writer);
            var o' := ReadPageAt(c, P, Apply(c, P, f, Op<K>.WriteHeader(bytes, at)).file, 0, reader, writer);
            && |o.data| == P && o'.data == Patch(o.data, bytes, at)
            && (o.ok ==> (o'.ok <==> c.accepts(writer, o'.data[20])))
  {
    HeaderPatch(f.store, P, bytes, at);
    PageZeroRead(c, P, f, reader, writer);
    PageZeroRead(c, P, f.(store := WriteBytes(f.store, bytes, at)), reader, writer);
  }
}
