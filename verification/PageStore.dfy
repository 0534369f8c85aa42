/**
 The transforming file as a page map. Over every run of page-aligned accesses the stored bytes
 refine a map from page numbers to the bytes last written and the key they were written under.
 */
module PageStore {
  import opened Bytes
  import opened ByteFile
  import opened PageFile

  datatype Op<K> =
    | WritePage(k: nat, page: seq<byte>, n: nonce, writer: K)
    | ReadPage(k: nat, reader: K, writer: K)
    | Truncate(pages: nat)
    | WriteHeader(bytes: seq<byte>, at: nat)
    | ReadHeader(size: nat, at: nat)

  /** Whole pages of one size; small accesses inside the database header. */
  predicate Aligned<K>(P: nat, op: Op<K>) {
    match op
    case WritePage(_, page, _, _) => |page| == P
    case ReadPage(_, _, _) => true
    case Truncate(_) => true
    case WriteHeader(bytes, at) => at + |bytes| <= HEADER
    case ReadHeader(size, at) => at + size <= HEADER
  }

  predicate AllAligned<K>(P: nat, ops: seq<Op<K>>) {
    forall i :: 0 <= i < |ops| ==> Aligned(P, ops[i])
  }

  /** k * P, as k pages one after the other. */
  function Offset(k: nat, P: nat): nat {
    if k == 0 then 0 else Offset(k - 1, P) + P
  }

  lemma {:induction false} OffsetIsProduct(k: nat, P: nat)
    ensures Offset(k, P) == k * P
  {
    if k > 0 {
      OffsetIsProduct(k - 1, P);
    }
  }

  lemma {:induction false} OffsetsApart(j: nat, k: nat, P: nat)
    requires j < k
    ensures Offset(j, P) + P <= Offset(k, P)
  {
    if j < k - 1 {
      OffsetsApart(j, k - 1, P);
    }
  }

  lemma OffsetPositive(k: nat, P: nat)
    ensures k == 0 ==> Offset(k, P) == 0
    ensures k > 0 ==> Offset(k, P) >= P
  {
    if k > 0 {
      OffsetsApart(0, k, P);
    }
  }

  function ReadPageAt<K>(c: Codec<K>, P: nat, f: File, k: nat, reader: K, writer: K): Outcome {
    ReadFile(c, MainDb, reader, writer, f, P, Offset(k, P))
  }

  function WritePageAt<K>(c: Codec<K>, P: nat, f: File, k: nat, page: seq<byte>, n: nonce, writer: K): Outcome {
    WriteFile(c, MainDb, writer, f, page, Offset(k, P), n)
  }

  /** Header accesses are below the page threshold, so no codec is involved. */
  function Apply<K>(c: Codec<K>, P: nat, f: File, op: Op<K>): Outcome {
    match op
    case WritePage(k, page, n, writer) => WritePageAt(c, P, f, k, page, n, writer)
    case ReadPage(k, reader, writer) => ReadPageAt(c, P, f, k, reader, writer)
    case Truncate(pages) => ResizeFile(f, Offset(pages, P))
    case WriteHeader(bytes, at) => Outcome(f.(store := WriteBytes(f.store, bytes, at)), bytes, true)
    case ReadHeader(size, at) =>
      var raw := ReadBytes(f.store, size, at);
      Outcome(f, raw.bytes, raw.ok)
  }

  /** The byte-level access an aligned access is; header accesses work under any key. */
  function ToAccess<K>(P: nat, op: Op<K>, key: K, n: nonce): Access<K> {
    match op
    case WritePage(k, page, nonce, writer) => Write(page, Offset(k, P), nonce, writer)
    case ReadPage(k, reader, writer) => Read(P, Offset(k, P), reader, writer)
    case Truncate(pages) => Resize(Offset(pages, P))
    case WriteHeader(bytes, at) => Write(bytes, at, n, key)
    case ReadHeader(size, at) => Read(size, at, key, key)
  }

  lemma ApplyIsStep<K>(c: Codec<K>, P: nat, f: File, op: Op<K>, key: K, n: nonce)
    requires Aligned(P, op)
    ensures Apply(c, P, f, op) == Step(c, MainDb, f, ToAccess(P, op, key, n))
  {
  }

  function RunOps<K>(c: Codec<K>, P: nat, f: File, ops: seq<Op<K>>): File {
    if ops == [] then f
    else Apply(c, P, RunOps(c, P, f, ops[..|ops| - 1]), ops[|ops| - 1]).file
  }

  function ToAccesses<K>(P: nat, ops: seq<Op<K>>, key: K, n: nonce): seq<Access<K>> {
    if ops == [] then []
    else ToAccesses(P, ops[..|ops| - 1], key, n) + [ToAccess(P, ops[|ops| - 1], key, n)]
  }

  /** A run of aligned accesses is a run of the byte-level file. */
  lemma {:induction false} RunOpsIsRun<K>(c: Codec<K>, P: nat, f: File, ops: seq<Op<K>>, key: K, n: nonce)
    requires AllAligned(P, ops)
    ensures RunOps(c, P, f, ops) == Run(c, MainDb, f, ToAccesses(P, ops, key, n))
  {
    if ops != [] {
      var m := |ops| - 1;
      RunOpsIsRun(c, P, f, ops[..m], key, n);
      ApplyIsStep(c, P, RunOps(c, P, f, ops[..m]), ops[m], key, n);
      var before := ToAccesses(P, ops[..m], key, n);
      assert ToAccesses(P, ops, key, n)[..|before|] == before;
    }
  }

  // ---- The page map ----

  /** What was last written to a page, and the key it was encoded under. */
  datatype Written<K> = Written(bytes: seq<byte>, key: K)

  datatype Logical<K> = Logical(pages: map<nat, Written<K>>, length: nat)

  /** Whether a page write gets past the reserve check and the encoder; independent of the file. */
  predicate Accepted<K>(c: Codec<K>, k: nat, page: seq<byte>, n: nonce, writer: K)
    requires |page| >= MIN_PAGE
  {
    && (k == 0 ==> c.accepts(writer, page[RESERVE_AT]))
    && c.encode(writer, page[(if k == 0 then HEADER else 0)..], n).Some?
  }

  function Max(a: nat, b: nat): nat {
    if a < b then b else a
  }

  ghost predicate PagesSized<K>(P: nat, l: Logical<K>) {
    forall k :: k in l.pages ==> |l.pages[k].bytes| == P
  }

  function Below<K>(m: map<nat, Written<K>>, n: nat): (r: map<nat, Written<K>>)
    ensures forall k :: k in r <==> k in m && k < n
    ensures forall k :: k in r ==> r[k] == m[k]
  {
    map k | k in m && k < n :: m[k]
  }

  function LogicalStep<K>(c: Codec<K>, P: nat, l: Logical<K>, op: Op<K>): (l': Logical<K>)
    requires P >= MIN_PAGE && Aligned(P, op) && PagesSized(P, l)
    ensures PagesSized(P, l')
  {
    match op
    case WritePage(k, page, n, writer) =>
      if Accepted(c, k, page, n, writer)
      then Logical(l.pages[k := Written(page, writer)], Max(l.length, Offset(k, P) + P))
      else l
    case ReadPage(_, _, _) => l
    case Truncate(pages) => Logical(Below(l.pages, pages), Offset(pages, P))
    case WriteHeader(bytes, at) =>
      Logical(if 0 in l.pages then l.pages[0 := l.pages[0].(bytes := Patch(l.pages[0].bytes, bytes, at))] else l.pages,
              if bytes == [] then l.length else Max(l.length, at + |bytes|))
    case ReadHeader(_, _) => l
  }

  function LogicalRun<K>(c: Codec<K>, P: nat, l: Logical<K>, ops: seq<Op<K>>): (l': Logical<K>)
    requires P >= MIN_PAGE && AllAligned(P, ops) && PagesSized(P, l)
    ensures PagesSized(P, l')
  {
    if ops == [] then l
    else LogicalStep(c, P, LogicalRun(c, P, l, ops[..|ops| - 1]), ops[|ops| - 1])
  }

  /** A truncation forgets exactly the pages cut off, a header write changes exactly those bytes of page 0. */
  lemma OthersAreRemembered<K>(c: Codec<K>, P: nat, l: Logical<K>, pages: nat, bytes: seq<byte>, at: nat)
    requires P >= MIN_PAGE && PagesSized(P, l) && at + |bytes| <= 100
    ensures var l' := LogicalStep(c, P, l, Truncate(pages));
            && l'.length == pages * P
            && (forall k :: k in l'.pages <==> k in l.pages && k < pages)
            && (forall k :: k in l'.pages ==> l'.pages[k] == l.pages[k])
    ensures var l' := LogicalStep(c, P, l, WriteHeader(bytes, at));
            && l'.pages.Keys == l.pages.Keys
            && (forall k :: k in l.pages && k > 0 ==> l'.pages[k] == l.pages[k])
            && (0 in l.pages ==>
                  var (w, w') := (l.pages[0], l'.pages[0]);
                  && w'.key == w.key && |w'.bytes| == |w.bytes|
                  && forall i :: 0 <= i < P ==>
                       w'.bytes[i] == if at <= i < at + |bytes| then bytes[i - at] else w.bytes[i])
  {
    OffsetIsProduct(pages, P);
  }

  /** Runs go event by event. */
  lemma RunsAppend<K>(c: Codec<K>, P: nat, f: File, l: Logical<K>, ops: seq<Op<K>>, op: Op<K>)
    requires P >= MIN_PAGE && AllAligned(P, ops) && Aligned(P, op) && PagesSized(P, l)
    ensures RunOps(c, P, f, []) == f && LogicalRun(c, P, l, []) == l
    ensures RunOps(c, P, f, ops + [op]) == Apply(c, P, RunOps(c, P, f, ops), op).file
    ensures LogicalRun(c, P, l, ops + [op]) == LogicalStep(c, P, LogicalRun(c, P, l, ops), op)
  {
    assert (ops + [op])[..|ops|] == ops;
  }

  // ---- Refinement ----

  function HeadOf(k: nat): nat {
    if k == 0 then HEADER else 0
  }

  ghost predicate DecodesTo<K>(c: Codec<K>, key: K, stored: seq<byte>, body: seq<byte>) {
    var d := c.decode(key, stored);
    d.ok && |d.page| == |body| && c.same(key, body, d.page)
  }

  /** These stored bytes are that page: its header bytes, then a body that decodes under its key. */
  ghost predicate Holds<K>(c: Codec<K>, P: nat, stored: seq<byte>, k: nat, w: Written<K>) {
    && |stored| == |w.bytes| == P >= MIN_PAGE
    && stored[..HeadOf(k)] == w.bytes[..HeadOf(k)]
    && DecodesTo(c, w.key, stored[HeadOf(k)..], w.bytes[HeadOf(k)..])
  }

  function Slot(store: seq<byte>, k: nat, P: nat): seq<byte>
    requires Offset(k, P) + P <= |store|
  {
    store[Offset(k, P)..Offset(k, P) + P]
  }

  ghost predicate HoldsAt<K>(c: Codec<K>, P: nat, store: seq<byte>, k: nat, w: Written<K>) {
    Offset(k, P) + P <= |store| && Holds(c, P, Slot(store, k, P), k, w)
  }

  ghost predicate Refines<K>(c: Codec<K>, P: nat, store: seq<byte>, l: Logical<K>) {
    && |store| == l.length
    && forall k :: k in l.pages ==> HoldsAt(c, P, store, k, l.pages[k])
  }

  /** Rewriting bytes outside page j's slot leaves page j in place. */
  lemma SlotUntouched<K>(c: Codec<K>, P: nat, store: seq<byte>, store': seq<byte>, j: nat, w: Written<K>)
    requires HoldsAt(c, P, store, j, w) && Offset(j, P) + P <= |store'|
    requires Slot(store', j, P) == Slot(store, j, P)
    ensures HoldsAt(c, P, store', j, w)
  {
  }

  lemma EncodedHolds<K(!new)>(c: Codec<K>, P: nat, k: nat, page: seq<byte>, n: nonce, writer: K)
    requires Inverse(c) && |page| == P >= MIN_PAGE && Accepted(c, k, page, n, writer)
    ensures var h := HeadOf(k);
            Holds(c, P, page[..h] + c.encode(writer, page[h..], n).value, k, Written(page, writer))
  {
    var h := HeadOf(k);
    var stored := page[..h] + c.encode(writer, page[h..], n).value;
    assert stored[h..] == c.encode(writer, page[h..], n).value;
  }

  /** A page-sized buffer at a page offset: the write goes through exactly when it is accepted. */
  lemma WriteOutcome<K>(c: Codec<K>, P: nat, f: File, k: nat, page: seq<byte>, n: nonce, writer: K)
    requires |page| == P >= MIN_PAGE
    ensures var o := WritePageAt(c, P, f, k, page, n, writer);
            && o.ok == Accepted(c, k, page, n, writer)
            && (!o.ok ==> o.file.store == f.store)
            && (o.ok ==>
                  var stored := page[..HeadOf(k)] + c.encode(writer, page[HeadOf(k)..], n).value;
                  o.file.store == WriteBytes(f.store, stored, Offset(k, P)))
  {
    OffsetPositive(k, P);
  }

  /** A write that goes through is remembered with its key, one that throws is not; other pages stay. */
  lemma WriteIsRemembered<K>(c: Codec<K>, P: nat, f: File, l: Logical<K>, k: nat, page: seq<byte>, n: nonce, writer: K)
    requires |page| == P >= MIN_PAGE && PagesSized(P, l)
    ensures var l' := LogicalStep(c, P, l, WritePage(k, page, n, writer));
            if WritePageAt(c, P, f, k, page, n, writer).ok
            then l'.pages == l.pages[k := Written(page, writer)] && l'.length == Max(l.length, Offset(k, P) + P)
            else l' == l
  {
    WriteOutcome(c, P, f, k, page, n, writer);
  }

  lemma SlotElsewhere(P: nat, store: seq<byte>, stored: seq<byte>, k: nat, j: nat)
    requires |stored| == P && j != k && Offset(j, P) + P <= |store|
    ensures |WriteBytes(store, stored, Offset(k, P))| >= |store|
    ensures Slot(WriteBytes(store, stored, Offset(k, P)), j, P) == Slot(store, j, P)
  {
    if j < k { OffsetsApart(j, k, P); } else { OffsetsApart(k, j, P); }
    WriteElsewhere(store, stored, Offset(k, P), P, Offset(j, P));
  }

  /** Replacing one slot keeps all others. */
  lemma OtherSlotsKept<K>(c: Codec<K>, P: nat, store: seq<byte>, stored: seq<byte>, k: nat, j: nat, w: Written<K>)
    requires |stored| == P && j != k && HoldsAt(c, P, store, j, w)
    ensures HoldsAt(c, P, WriteBytes(store, stored, Offset(k, P)), j, w)
  {
    SlotElsewhere(P, store, stored, k, j);
    SlotUntouched(c, P, store, WriteBytes(store, stored, Offset(k, P)), j, w);
  }

  lemma SlotWritten<K>(c: Codec<K>, P: nat, store: seq<byte>, stored: seq<byte>, k: nat, w: Written<K>)
    requires |stored| == P && Holds(c, P, stored, k, w)
    ensures HoldsAt(c, P, WriteBytes(store, stored, Offset(k, P)), k, w)
  {
    WriteThenRead(store, stored, Offset(k, P));
  }

  lemma WriteKeeps<K(!new)>(c: Codec<K>, P: nat, f: File, l: Logical<K>, k: nat, page: seq<byte>, n: nonce, writer: K)
    requires Inverse(c) && |page| == P >= MIN_PAGE
    requires PagesSized(P, l) && Refines(c, P, f.store, l)
    ensures var op := WritePage(k, page, n, writer);
            Refines(c, P, Apply(c, P, f, op).file.store, LogicalStep(c, P, l, op))
  {
    WriteOutcome(c, P, f, k, page, n, writer);
    if Accepted(c, k, page, n, writer) {
      EncodedHolds(c, P, k, page, n, writer);
      var stored := page[..HeadOf(k)] + c.encode(writer, page[HeadOf(k)..], n).value;
      SlotWritten(c, P, f.store, stored, k, Written(page, writer));
      forall j | j in l.pages && j != k
        ensures HoldsAt(c, P, WriteBytes(f.store, stored, Offset(k, P)), j, l.pages[j])
      {
        OtherSlotsKept(c, P, f.store, stored, k, j, l.pages[j]);
      }
    }
  }

  lemma TruncateKeeps<K>(c: Codec<K>, P: nat, f: File, l: Logical<K>, pages: nat)
    requires P >= MIN_PAGE && PagesSized(P, l) && Refines(c, P, f.store, l)
    ensures var op := Truncate(pages);
            Refines(c, P, Apply(c, P, f, op).file.store, LogicalStep(c, P, l, op))
  {
    var store' := ResizeBytes(f.store, Offset(pages, P));
    var l' := LogicalStep(c, P, l, Truncate(pages));
    forall j | j in l'.pages
      ensures HoldsAt(c, P, store', j, l'.pages[j])
    {
      OffsetsApart(j, pages, P);
      SlotUntouched(c, P, f.store, store', j, l.pages[j]);
    }
  }

  /** A small write into the header of a file that has one, seen from the first P bytes. */
  lemma HeaderPatch(store: seq<byte>, P: nat, bytes: seq<byte>, at: nat)
    requires HEADER <= P <= |store| && at + |bytes| <= HEADER
    ensures var s := WriteBytes(store, bytes, at);
            && |s| == |store|
            && s[..P][..HEADER] == Patch(store[..P][..HEADER], bytes, at)
            && s[..P][HEADER..] == store[..P][HEADER..]
  {
    var s := WriteBytes(store, bytes, at);
    forall i | 0 <= i < P
      ensures s[..P][i] == if at <= i < at + |bytes| then bytes[i - at] else store[..P][i]
    {
      WrittenByte(store, bytes, at, i);
    }
    var (x, y) := (s[..P], store[..P]);
    assert forall i :: 0 <= i < P - HEADER ==> x[HEADER..][i] == x[HEADER + i] && y[HEADER..][i] == y[HEADER + i];
  }

  lemma HeadOfPatch(page: seq<byte>, bytes: seq<byte>, at: nat)
    requires HEADER <= |page| && at + |bytes| <= HEADER
    ensures Patch(page, bytes, at)[..HEADER] == Patch(page[..HEADER], bytes, at)
    ensures Patch(page, bytes, at)[HEADER..] == page[HEADER..]
  {
  }

  lemma PatchedHolds<K>(c: Codec<K>, P: nat, store: seq<byte>, w: Written<K>, bytes: seq<byte>, at: nat)
    requires P >= MIN_PAGE && at + |bytes| <= HEADER && HoldsAt(c, P, store, 0, w)
    ensures HoldsAt(c, P, WriteBytes(store, bytes, at), 0, w.(bytes := Patch(w.bytes, bytes, at)))
  {
    OffsetPositive(0, P);
    assert Slot(store, 0, P) == store[..P];
    assert Slot(WriteBytes(store, bytes, at), 0, P) == WriteBytes(store, bytes, at)[..P];
    HeaderPatch(store, P, bytes, at);
    HeadOfPatch(w.bytes, bytes, at);
  }

  lemma HeaderKeeps<K>(c: Codec<K>, P: nat, f: File, l: Logical<K>, bytes: seq<byte>, at: nat)
    requires P >= MIN_PAGE && at + |bytes| <= HEADER
    requires PagesSized(P, l) && Refines(c, P, f.store, l)
    ensures var op := WriteHeader(bytes, at);
            Refines(c, P, Apply(c, P, f, op).file.store, LogicalStep(c, P, l, op))
  {
    var store' := WriteBytes(f.store, bytes, at);
    var l' := LogicalStep(c, P, l, WriteHeader(bytes, at));
    forall j | j in l'.pages
      ensures HoldsAt(c, P, store', j, l'.pages[j])
    {
      OffsetPositive(j, P);
      if j == 0 {
        PatchedHolds(c, P, f.store, l.pages[0], bytes, at);
      } else {
        WriteElsewhere(f.store, bytes, at, P, Offset(j, P));
        SlotUntouched(c, P, f.store, store', j, l.pages[j]);
      }
    }
  }

  /** Every aligned access keeps the stored bytes a refinement of the page map. */
  lemma StepKeeps<K(!new)>(c: Codec<K>, P: nat, f: File, l: Logical<K>, op: Op<K>)
    requires Inverse(c) && P >= MIN_PAGE && Aligned(P, op)
    requires PagesSized(P, l) && Refines(c, P, f.store, l)
    ensures Refines(c, P, Apply(c, P, f, op).file.store, LogicalStep(c, P, l, op))
  {
    match op
    case WritePage(k, page, n, writer) => WriteKeeps(c, P, f, l, k, page, n, writer);
    case ReadPage(_, _, _) =>
    case Truncate(pages) => TruncateKeeps(c, P, f, l, pages);
    case WriteHeader(bytes, at) => HeaderKeeps(c, P, f, l, bytes, at);
    case ReadHeader(_, _) =>
  }

  /** Over every run the file refines the page map, and is as long as the map says. */
  lemma {:induction false} RunKeeps<K(!new)>(c: Codec<K>, P: nat, f: File, l: Logical<K>, ops: seq<Op<K>>)
    requires Inverse(c) && P >= MIN_PAGE && AllAligned(P, ops)
    requires PagesSized(P, l) && Refines(c, P, f.store, l)
    ensures Refines(c, P, RunOps(c, P, f, ops).store, LogicalRun(c, P, l, ops))
  {
    if ops != [] {
      var n := |ops| - 1;
      RunKeeps(c, P, f, l, ops[..n]);
      StepKeeps(c, P, RunOps(c, P, f, ops[..n]), LogicalRun(c, P, l, ops[..n]), ops[n]);
    }
  }

  // ---- Reads ----

  /** What a caller may see for a page: its header, and a body as much the same as the codec promises. */
  ghost predicate Shows<K>(c: Codec<K>, P: nat, data: seq<byte>, k: nat, w: Written<K>) {
    && |data| == |w.bytes| == P >= MIN_PAGE
    && data[..HeadOf(k)] == w.bytes[..HeadOf(k)]
    && c.same(w.key, w.bytes[HeadOf(k)..], data[HeadOf(k)..])
  }

  /** What a page read does: past the end it throws, with what is there and zeros in the buffer. */
  lemma ReadOutcome<K>(c: Codec<K>, P: nat, f: File, k: nat, reader: K, writer: K)
    requires P >= MIN_PAGE
    ensures var o := ReadPageAt(c, P, f, k, reader, writer);
            && o.file.store == f.store
            && (Offset(k, P) + P > |f.store| ==>
                  !o.ok && o.file == f && o.data == ReadBytes(f.store, P, Offset(k, P)).bytes)
            && (Offset(k, P) + P <= |f.store| ==>
                  var raw := Slot(f.store, k, P);
                  var d := c.decode(reader, raw[HeadOf(k)..]);
                  && |o.data| == HeadOf(k) + |d.page|
                  && o.data[..HeadOf(k)] == raw[..HeadOf(k)] && o.data[HeadOf(k)..] == d.page
                  && (o.ok <==> d.ok && (k == 0 ==> c.accepts(writer, raw[..HEADER][RESERVE_AT]))))
  {
    OffsetPositive(k, P);
    if Offset(k, P) + P <= |f.store| {
      assert ReadBytes(f.store, P, Offset(k, P)).bytes == Slot(f.store, k, P);
    }
  }

  /** A page read under the key it was written with shows its last written bytes. */
  lemma ReadShows<K>(c: Codec<K>, P: nat, f: File, l: Logical<K>, k: nat, reader: K, writer: K)
    requires P >= MIN_PAGE && PagesSized(P, l) && Refines(c, P, f.store, l)
    requires k in l.pages && l.pages[k].key == reader
    ensures var o := ReadPageAt(c, P, f, k, reader, writer);
            && Shows(c, P, o.data, k, l.pages[k])
            && o.file.store == f.store
            && (o.ok <==> k == 0 ==> c.accepts(writer, l.pages[0].bytes[RESERVE_AT]))
  {
    assert HoldsAt(c, P, f.store, k, l.pages[k]);
    ReadOutcome(c, P, f, k, reader, writer);
    assert k == 0 ==> l.pages[0].bytes[RESERVE_AT] == l.pages[0].bytes[..HEADER][RESERVE_AT];
  }

  lemma HeaderSlice(s: seq<byte>, P: nat, size: nat, at: nat)
    requires HEADER <= P <= |s| && at + size <= HEADER
    ensures s[0..P][..HEADER][at..at + size] == s[at..at + size]
    ensures s[..HEADER][at..at + size] == s[at..at + size]
  {
    SliceOfSlice(s, 0, P, 0, HEADER);
    SliceOfSlice(s, 0, HEADER, at, at + size);
  }

  /** A small read inside the first 100 bytes sees the logical header of page 0. */
  lemma ReadHeaderShows<K>(c: Codec<K>, P: nat, f: File, l: Logical<K>, size: nat, at: nat)
    requires P >= MIN_PAGE && at + size <= HEADER
    requires PagesSized(P, l) && Refines(c, P, f.store, l) && 0 in l.pages
    ensures Apply(c, P, f, Op<K>.ReadHeader(size, at)) == Outcome(f, l.pages[0].bytes[at..at + size], true)
  {
    var w := l.pages[0];
    assert HoldsAt(c, P, f.store, 0, w);
    OffsetPositive(0, P);
    HeaderSlice(f.store, P, size, at);
    HeaderSlice(w.bytes, P, size, at);
  }

  /** A header byte of the stored file is the logical one. */
  lemma StoredHeaderByte<K>(c: Codec<K>, P: nat, store: seq<byte>, w: Written<K>, i: nat)
    requires HoldsAt(c, P, store, 0, w) && i < HEADER
    ensures |store| >= P >= HEADER && store[i] == w.bytes[i]
  {
    OffsetPositive(0, P);
    assert Slot(store, 0, P)[..HEADER][i] == store[i];
    assert w.bytes[..HEADER][i] == w.bytes[i];
  }
}
