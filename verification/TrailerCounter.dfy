/** The counter kept in an encrypted page's IV across read-then-write-back cycles. */
module TrailerCounter {
  import opened Bytes
  import opened ByteFile
  import opened PageFile
  import opened PageStore
  import opened Crypt
  import opened CryptRuns

  /** The little-endian counter: the last 4 of the 12 IV bytes, 24 to 20 bytes before the end. */
  function Counter(page: seq<byte>): nat
    requires |page| >= RESERVE_SIZE
  {
    Le(Iv(page)[8..])
  }

  lemma CounterBytes(page: seq<byte>)
    requires |page| >= 32
    ensures Counter(page) == Le(page[|page| - 24..|page| - 20])
  {
    assert Iv(page)[8..] == page[|page| - 24..|page| - 20];
  }

  /** One more, wrapping around at 2^32. */
  function Bump(count: nat): nat {
    if count + 1 == WRAP then 0 else count + 1
  }

  function CountUp(count: nat, steps: nat): nat {
    if steps == 0 then count else Bump(CountUp(count, steps - 1))
  }

  lemma BumpIsModular(x: nat)
    requires x < WRAP
    ensures (x + 1) % WRAP == Bump(x)
  {
  }

  lemma NextModulo(x: nat)
    ensures (x + 1) % WRAP == Bump(x % WRAP)
  {
  }

  lemma {:induction false} CountUpIsModular(count: nat, steps: nat)
    requires count < WRAP
    ensures CountUp(count, steps) == (count + steps) % WRAP
  {
    if steps > 0 {
      CountUpIsModular(count, steps - 1);
      NextModulo(count + steps - 1);
    }
  }

  /** Reading page k and, if that succeeds, writing back what was read. */
  function Cycle(a: Aead, P: nat, f: File, k: nat, enc: Encryptor, n: nonce): Outcome {
    var r := ReadPageAt(CryptCodec(a), P, f, k, enc, enc);
    if r.ok then WritePageAt(CryptCodec(a), P, r.file, k, r.data, n, enc) else r
  }

  /** The file after a cycle per nonce, and how many of them wrote the page. */
  datatype Cycled = Cycled(file: File, writes: nat)

  function Cycles(a: Aead, P: nat, f: File, k: nat, enc: Encryptor, ns: seq<nonce>): Cycled {
    if ns == [] then Cycled(f, 0)
    else
      var before := Cycles(a, P, f, k, enc, ns[..|ns| - 1]);
      var o := Cycle(a, P, before.file, k, enc, ns[|ns| - 1]);
      Cycled(o.file, before.writes + if o.ok then 1 else 0)
  }

  lemma CyclesAppend(a: Aead, P: nat, f: File, k: nat, enc: Encryptor, ns: seq<nonce>, n: nonce)
    ensures Cycles(a, P, f, k, enc, []) == Cycled(f, 0)
    ensures var before := Cycles(a, P, f, k, enc, ns);
            var o := Cycle(a, P, before.file, k, enc, n);
            Cycles(a, P, f, k, enc, ns + [n]) == Cycled(o.file, before.writes + if o.ok then 1 else 0)
  {
    assert (ns + [n])[..|ns|] == ns;
  }

  lemma IncrementBumps(b: seq<byte>)
    requires |b| == 4
    ensures Le(Increment(b)) == Bump(Le(b))
  {
    var x := Le(b);
    LeBound(b);
    BumpIsModular(x);
    LeRoundTrip(x + 1);
  }

  /** Encoding advances the counter by one. */
  lemma EncodingCounts(a: Aead, enc: Encryptor, page: seq<byte>, n: nonce)
    requires Sound(a) && enc.cipher.Some? && EncodePage(a, enc, page, n).Some?
    ensures var stored := EncodePage(a, enc, page, n).value;
            |stored| == |page| && Counter(stored) == Bump(Counter(page))
  {
    EncodedLayout(a, enc, page, n);
    IncrementBumps(Iv(page)[8..]);
    assert NextIv(Iv(page), n)[8..] == Increment(Iv(page)[8..]);
  }

  /** Decoding leaves the trailer as it was stored, the counter included. */
  lemma DecodingKeepsCounter(a: Aead, enc: Encryptor, stored: seq<byte>)
    requires Sound(a) && enc.cipher.Some? && |stored| >= RESERVE_SIZE
    ensures var page := DecodePage(a, enc, stored).page;
            |page| == |stored| && Counter(page) == Counter(stored)
  {
    var page := DecodePage(a, enc, stored).page;
    assert page[TrailerAt(page)..] == stored[TrailerAt(stored)..];
    assert Iv(page) == page[TrailerAt(page)..][..12];
    assert Iv(stored) == stored[TrailerAt(stored)..][..12];
  }

  lemma CounterOfTail(page: seq<byte>, h: nat)
    requires h + RESERVE_SIZE <= |page|
    ensures Counter(page[h..]) == Counter(page)
  {
    assert Iv(page[h..]) == Iv(page);
  }

  /** Page k is stored under enc as something equal to w outside the IV and the tag. */
  ghost predicate Keeps(a: Aead, P: nat, store: seq<byte>, k: nat, w: Written<Encryptor>) {
    P >= MIN_PAGE && exists bytes :: ReadsBack(bytes, w) && HoldsAt(CryptCodec(a), P, store, k, Written(bytes, w.key))
  }

  lemma ReadsBackTransitive(x: seq<byte>, y: seq<byte>, w: Written<Encryptor>)
    requires ReadsBack(y, w) && ReadsBack(x, Written(y, w.key))
    ensures ReadsBack(x, w)
  {
  }

  lemma ReadKeepsCounter(a: Aead, P: nat, f: File, k: nat, enc: Encryptor)
    requires Sound(a) && enc.cipher.Some? && P >= MIN_PAGE && Offset(k, P) + P <= |f.store|
    ensures var r := ReadPageAt(CryptCodec(a), P, f, k, enc, enc);
            |r.data| == P && r.file.store == f.store && Counter(r.data) == Counter(Slot(f.store, k, P))
  {
    var (h, raw) := (HeadOf(k), Slot(f.store, k, P));
    DecodingKeepsCounter(a, enc, raw[h..]);
    ReadOutcome(CryptCodec(a), P, f, k, enc, enc);
    CounterOfTail(raw, h);
    CounterOfTail(ReadPageAt(CryptCodec(a), P, f, k, enc, enc).data, h);
  }

  lemma EncodedCounter(a: Aead, k: nat, page: seq<byte>, n: nonce, enc: Encryptor)
    requires Sound(a) && enc.cipher.Some? && |page| >= MIN_PAGE
    requires EncodePage(a, enc, page[HeadOf(k)..], n).Some?
    ensures var stored := page[..HeadOf(k)] + EncodePage(a, enc, page[HeadOf(k)..], n).value;
            |stored| == |page| && Counter(stored) == Bump(Counter(page))
  {
    var h := HeadOf(k);
    EncodingCounts(a, enc, page[h..], n);
    var stored := page[..h] + EncodePage(a, enc, page[h..], n).value;
    assert stored[h..] == EncodePage(a, enc, page[h..], n).value;
    CounterOfTail(page, h);
    CounterOfTail(stored, h);
  }

  /** A read of a kept page returns w outside the IV and the tag. */
  lemma KeptReadsBack(a: Aead, P: nat, f: File, k: nat, w: Written<Encryptor>)
    requires Sound(a) && |w.bytes| == P && Keeps(a, P, f.store, k, w)
    ensures ReadsBack(ReadPageAt(CryptCodec(a), P, f, k, w.key, w.key).data, w)
  {
    var c := CryptCodec(a);
    var bytes :| ReadsBack(bytes, w) && HoldsAt(c, P, f.store, k, Written(bytes, w.key));
    var l := Logical(map[k := Written(bytes, w.key)], |f.store|);
    ReadShows(c, P, f, l, k, w.key, w.key);
    var data := ReadPageAt(c, P, f, k, w.key, w.key).data;
    ShownReadsBack(a, P, data, k, l.pages[k]);
    ReadsBackTransitive(data, bytes, w);
  }

  /** Writing back such bytes keeps the page. */
  lemma WriteBackKeeps(a: Aead, P: nat, f: File, k: nat, w: Written<Encryptor>, data: seq<byte>, n: nonce)
    requires Sound(a) && |w.bytes| == P && Keeps(a, P, f.store, k, w) && ReadsBack(data, w)
    requires Accepted(CryptCodec(a), k, data, n, w.key)
    ensures Keeps(a, P, WritePageAt(CryptCodec(a), P, f, k, data, n, w.key).file.store, k, w)
  {
    var c := CryptCodec(a);
    CryptCodecInverse(a);
    WriteOutcome(c, P, f, k, data, n, w.key);
    EncodedHolds(c, P, k, data, n, w.key);
    var stored := data[..HeadOf(k)] + c.encode(w.key, data[HeadOf(k)..], n).value;
    SlotWritten(c, P, f.store, stored, k, Written(data, w.key));
  }

  /** The store after a cycle: unchanged, or with what was read encoded again into slot k. */
  lemma CycleOutcome(a: Aead, P: nat, f: File, k: nat, enc: Encryptor, n: nonce)
    requires P >= MIN_PAGE && |ReadPageAt(CryptCodec(a), P, f, k, enc, enc).data| == P
    requires ReadPageAt(CryptCodec(a), P, f, k, enc, enc).file.store == f.store
    ensures var o := Cycle(a, P, f, k, enc, n);
            var data := ReadPageAt(CryptCodec(a), P, f, k, enc, enc).data;
            && (o.ok <==> ReadPageAt(CryptCodec(a), P, f, k, enc, enc).ok && Accepted(CryptCodec(a), k, data, n, enc))
            && (!o.ok ==> o.file.store == f.store)
            && (o.ok ==>
                  && Accepted(CryptCodec(a), k, data, n, enc)
                  && o.file.store == WriteBytes(f.store,
                       data[..HeadOf(k)] + EncodePage(a, enc, data[HeadOf(k)..], n).value, Offset(k, P)))
  {
    var r := ReadPageAt(CryptCodec(a), P, f, k, enc, enc);
    WriteOutcome(CryptCodec(a), P, r.file, k, r.data, n, enc);
  }

  /** A write-back that goes through: one more on the counter, the page kept. */
  lemma WriteBackAdvances(a: Aead, P: nat, f: File, k: nat, w: Written<Encryptor>, data: seq<byte>, n: nonce)
    requires Sound(a) && w.key.cipher.Some? && |w.bytes| == P && Keeps(a, P, f.store, k, w)
    requires ReadsBack(data, w) && Accepted(CryptCodec(a), k, data, n, w.key)
    requires Offset(k, P) + P <= |f.store|
    ensures var stored := data[..HeadOf(k)] + EncodePage(a, w.key, data[HeadOf(k)..], n).value;
            var store' := WriteBytes(f.store, stored, Offset(k, P));
            && SameOutside(f.store, store', Offset(k, P), P) && Keeps(a, P, store', k, w)
            && Counter(Slot(store', k, P)) == Bump(Counter(data))
  {
    EncodedCounter(a, k, data, n, w.key);
    var stored := data[..HeadOf(k)] + EncodePage(a, w.key, data[HeadOf(k)..], n).value;
    WriteThenRead(f.store, stored, Offset(k, P));
    WriteStaysInside(f.store, stored, Offset(k, P));
    WriteBackKeeps(a, P, f, k, w, data, n);
    WriteOutcome(CryptCodec(a), P, f, k, data, n, w.key);
  }

  /** How the counter and the page look after an outcome, compared with the file before. */
  ghost predicate Advanced(a: Aead, P: nat, store: seq<byte>, store': seq<byte>, k: nat, w: Written<Encryptor>,
                           writes: nat)
  {
    && P >= MIN_PAGE && SameOutside(store, store', Offset(k, P), P)
    && Keeps(a, P, store', k, w)
    && Counter(Slot(store', k, P)) == CountUp(Counter(Slot(store, k, P)), writes)
  }

  lemma CycleCounts(a: Aead, P: nat, f: File, k: nat, w: Written<Encryptor>, n: nonce)
    requires Sound(a) && w.key.cipher.Some? && |w.bytes| == P && Keeps(a, P, f.store, k, w)
    ensures var o := Cycle(a, P, f, k, w.key, n);
            Advanced(a, P, f.store, o.file.store, k, w, if o.ok then 1 else 0)
  {
    KeptReadsBack(a, P, f, k, w);
    ReadKeepsCounter(a, P, f, k, w.key);
    CycleOutcome(a, P, f, k, w.key, n);
    if Cycle(a, P, f, k, w.key, n).ok {
      WriteBackAdvances(a, P, f, k, w, ReadPageAt(CryptCodec(a), P, f, k, w.key, w.key).data, n);
    }
  }

  lemma AdvancedOnce(a: Aead, P: nat, s0: seq<byte>, s1: seq<byte>, s2: seq<byte>, k: nat, w: Written<Encryptor>,
                     m: nat, n: nat)
    requires Advanced(a, P, s0, s1, k, w, m) && Advanced(a, P, s1, s2, k, w, n) && n <= 1
    ensures Advanced(a, P, s0, s2, k, w, m + n)
  {
    var c := Counter(Slot(s1, k, P));
    assert CountUp(c, 0) == c && CountUp(c, 1) == Bump(c);
  }

  lemma {:induction false} CyclesAdvance(a: Aead, P: nat, f: File, k: nat, w: Written<Encryptor>, ns: seq<nonce>)
    requires Sound(a) && w.key.cipher.Some? && |w.bytes| == P && Keeps(a, P, f.store, k, w)
    ensures var r := Cycles(a, P, f, k, w.key, ns);
            Advanced(a, P, f.store, r.file.store, k, w, r.writes)
  {
    if ns != [] {
      var n := |ns| - 1;
      CyclesAdvance(a, P, f, k, w, ns[..n]);
      var before := Cycles(a, P, f, k, w.key, ns[..n]);
      CycleCounts(a, P, before.file, k, w, ns[n]);
      var o := Cycle(a, P, before.file, k, w.key, ns[n]);
      AdvancedOnce(a, P, f.store, before.file.store, o.file.store, k, w, before.writes, if o.ok then 1 else 0);
    }
  }

  lemma AdvancedMeans(a: Aead, P: nat, store: seq<byte>, store': seq<byte>, k: nat, w: Written<Encryptor>, writes: nat)
    returns (wraps: nat)
    requires Advanced(a, P, store, store', k, w, writes)
    ensures Counter(Slot(store', k, P)) < WRAP
    ensures Counter(Slot(store', k, P)) + wraps * WRAP == Counter(Slot(store, k, P)) + writes
  {
    var count := Counter(Slot(store, k, P));
    LeBound(Iv(Slot(store, k, P))[8..]);
    CountUpIsModular(count, writes);
    wraps := (count + writes) / WRAP;
  }

  /**
   Any number of read-then-write-back cycles: the counter has advanced by exactly the number of
   writes modulo 2^32, the page is unchanged outside the IV and the tag, and the rest of the file
   is untouched.
   */
  lemma CounterAdvances(a: Aead, P: nat, f: File, k: nat, w: Written<Encryptor>, ns: seq<nonce>) returns (wraps: nat)
    requires Sound(a) && w.key.cipher.Some? && |w.bytes| == P && Keeps(a, P, f.store, k, w)
    ensures var r := Cycles(a, P, f, k, w.key, ns);
            && SameOutside(f.store, r.file.store, Offset(k, P), P)
            && Keeps(a, P, r.file.store, k, w)
            && Counter(Slot(r.file.store, k, P)) < WRAP
            && Counter(Slot(r.file.store, k, P)) + wraps * WRAP == Counter(Slot(f.store, k, P)) + r.writes
  {
    CyclesAdvance(a, P, f, k, w, ns);
    var r := Cycles(a, P, f, k, w.key, ns);
    wraps := AdvancedMeans(a, P, f.store, r.file.store, k, w, r.writes);
  }

  lemma OtherSlotSame(P: nat, s: seq<byte>, s': seq<byte>, k: nat, j: nat)
    requires SameOutside(s, s', Offset(k, P), P) && j != k && Offset(j, P) + P <= |s|
    ensures |s'| == |s| && Slot(s', j, P) == Slot(s, j, P)
  {
    if j < k { OffsetsApart(j, k, P); } else { OffsetsApart(k, j, P); }
    SameElsewhere(s, s', Offset(k, P), P, Offset(j, P), P);
  }

  /** Cycles on one page leave every other page's slot as it was. */
  lemma OtherPagesUntouched(a: Aead, P: nat, f: File, k: nat, w: Written<Encryptor>, ns: seq<nonce>, j: nat)
    requires Sound(a) && w.key.cipher.Some? && |w.bytes| == P && Keeps(a, P, f.store, k, w)
    requires j != k && Offset(j, P) + P <= |f.store|
    ensures var store := Cycles(a, P, f, k, w.key, ns).file.store;
            |store| == |f.store| && Slot(store, j, P) == Slot(f.store, j, P)
  {
    CyclesAdvance(a, P, f, k, w, ns);
    OtherSlotSame(P, f.store, Cycles(a, P, f, k, w.key, ns).file.store, k, j);
  }

  lemma {:induction false} WritesGrow(a: Aead, P: nat, f: File, k: nat, enc: Encryptor, ns: seq<nonce>, i: nat)
    requires i <= |ns|
    ensures Cycles(a, P, f, k, enc, ns[..i]).writes <= Cycles(a, P, f, k, enc, ns).writes
  {
    if i < |ns| {
      WritesGrow(a, P, f, k, enc, ns[..|ns| - 1], i);
      assert ns[..|ns| - 1][..i] == ns[..i];
    } else {
      assert ns[..i] == ns;
    }
  }

  lemma CountersDiffer(start: nat, m: nat, n: nat, c: nat, d: nat, p: nat, q: nat)
    requires m < n < WRAP && c + p * WRAP == start + m && d + q * WRAP == start + n
    ensures c != d
  {
  }

  /**
   Over fewer than 2^32 write-backs no IV of a page is used twice, whatever the nonces: also when
   the random source returns the same bytes every time.
   */
  lemma IvsNeverRepeat(a: Aead, P: nat, f: File, k: nat, w: Written<Encryptor>, ns: seq<nonce>, i: nat, j: nat)
    requires Sound(a) && w.key.cipher.Some? && |w.bytes| == P && Keeps(a, P, f.store, k, w)
    requires i <= |ns| && j <= |ns| && Cycles(a, P, f, k, w.key, ns).writes < WRAP
    requires Cycles(a, P, f, k, w.key, ns[..i]).writes < Cycles(a, P, f, k, w.key, ns[..j]).writes
    ensures var s := Cycles(a, P, f, k, w.key, ns[..i]).file.store;
            var s' := Cycles(a, P, f, k, w.key, ns[..j]).file.store;
            && Offset(k, P) + P <= |s| == |s'|
            && Iv(Slot(s, k, P)) != Iv(Slot(s', k, P))
  {
    var p := CounterAdvances(a, P, f, k, w, ns[..i]);
    var q := CounterAdvances(a, P, f, k, w, ns[..j]);
    WritesGrow(a, P, f, k, w.key, ns, j);
    var (r, r') := (Cycles(a, P, f, k, w.key, ns[..i]), Cycles(a, P, f, k, w.key, ns[..j]));
    CountersDiffer(Counter(Slot(f.store, k, P)), r.writes, r'.writes,
                   Counter(Slot(r.file.store, k, P)), Counter(Slot(r'.file.store, k, P)), p, q);
  }

  // ---- Writes that are not preceded by a read ----

  lemma BumpsAgree(x: nat, y: nat)
    requires x < WRAP && y < WRAP && Bump(x) == Bump(y)
    ensures x == y
  {
  }

  lemma IncrementsAgree(b: seq<byte>, c: seq<byte>)
    requires |b| == 4 && |c| == 4
    ensures Increment(b) == Increment(c) <==> Le(b) == Le(c)
  {
    IncrementBumps(b);
    IncrementBumps(c);
    LeBound(b);
    LeBound(c);
    if Increment(b) == Increment(c) {
      BumpsAgree(Le(b), Le(c));
    }
  }

  lemma NextIvsAgree(iv: ivbytes, iv': ivbytes, n: nonce, n': nonce)
    ensures NextIv(iv, n) == NextIv(iv', n') <==> n == n' && Le(iv[8..]) == Le(iv'[8..])
  {
    var (x, y) := (NextIv(iv, n), NextIv(iv', n'));
    assert x[..8] == n && y[..8] == n';
    assert x[8..] == Increment(iv[8..]) && y[8..] == Increment(iv'[8..]);
    IncrementsAgree(iv[8..], iv'[8..]);
  }

  /** The IV a page write stores: fresh bytes and the counter of the caller's buffer, not of the file. */
  lemma StoredIv(a: Aead, P: nat, f: File, k: nat, page: seq<byte>, n: nonce, enc: Encryptor)
    requires Sound(a) && enc.cipher.Some? && |page| == P >= MIN_PAGE
    requires Accepted(CryptCodec(a), k, page, n, enc)
    ensures var store := WritePageAt(CryptCodec(a), P, f, k, page, n, enc).file.store;
            Offset(k, P) + P <= |store| && Iv(Slot(store, k, P)) == NextIv(Iv(page), n)
  {
    var h := HeadOf(k);
    var body := EncodePage(a, enc, page[h..], n).value;
    var stored := page[..h] + body;
    EncodedLayout(a, enc, page[h..], n);
    assert stored[h..] == body && Iv(stored) == Iv(stored[h..]);
    assert Iv(page[h..]) == Iv(page);
    WriteOutcome(CryptCodec(a), P, f, k, page, n, enc);
    WriteThenRead(f.store, stored, Offset(k, P));
  }

  /**
   Two page writes, at any time and to any file, store the same IV if and only if the random bytes and the
   counters in the callers' buffers agree. The buffer never receives the counter that was stored, so
   writing it twice without a read in between repeats the IV exactly if the random bytes repeat.
   */
  lemma IvsRepeatIff(a: Aead, P: nat, enc: Encryptor, f: File, k: nat, page: seq<byte>, n: nonce,
                     f': File, k': nat, page': seq<byte>, n': nonce)
    requires Sound(a) && enc.cipher.Some? && |page| == |page'| == P >= MIN_PAGE
    requires Accepted(CryptCodec(a), k, page, n, enc) && Accepted(CryptCodec(a), k', page', n', enc)
    ensures var store := WritePageAt(CryptCodec(a), P, f, k, page, n, enc).file.store;
            var store' := WritePageAt(CryptCodec(a), P, f', k', page', n', enc).file.store;
            && Offset(k, P) + P <= |store| && Offset(k', P) + P <= |store'|
            && (Iv(Slot(store, k, P)) == Iv(Slot(store', k', P)) <==> n == n' && Counter(page) == Counter(page'))
  {
    StoredIv(a, P, f, k, page, n, enc);
    StoredIv(a, P, f', k', page', n', enc);
    NextIvsAgree(Iv(page), Iv(page'), n, n');
  }
}
