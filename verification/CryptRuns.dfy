/**
 Whole runs of an encrypted database file: page accesses and pragmas in any order, re-encryption
 phases included. Each page remembers the encryptor it was last written under.
 */
module CryptRuns {
  import opened Bytes
  import opened ByteFile
  import opened PageFile
  import opened PageStore
  import opened PageInvariants
  import opened Crypt
  import opened CryptConfig

  datatype Event =
    | Configure(command: Command)
    | WritePage(k: nat, page: seq<byte>, n: nonce)
    | ReadPage(k: nat)
    | Truncate(pages: nat)
    | WriteHeader(bytes: seq<byte>, at: nat)
    | ReadHeader(size: nat, at: nat)

  datatype Store = Store(config: Config, file: File)

  /** The page access an event makes: reads under the read side, writes under the write side. */
  function Keyed(cfg: Config, e: Event): Op<Encryptor>
    requires !e.Configure?
  {
    match e
    case WritePage(k, page, n) => Op.WritePage(k, page, n, cfg.Writer())
    case ReadPage(k) => Op.ReadPage(k, cfg.current, cfg.Writer())
    case Truncate(pages) => Op.Truncate(pages)
    case WriteHeader(bytes, at) => Op.WriteHeader(bytes, at)
    case ReadHeader(size, at) => Op.ReadHeader(size, at)
  }

  predicate Fits(P: nat, e: Event) {
    match e
    case WritePage(_, page, _) => |page| == P
    case WriteHeader(bytes, at) => at + |bytes| <= HEADER
    case ReadHeader(size, at) => at + size <= HEADER
    case _ => true
  }

  predicate AllFit(P: nat, es: seq<Event>) {
    forall i :: 0 <= i < |es| ==> Fits(P, es[i])
  }

  function StoreStep(a: Aead, kdf: Kdf, P: nat, s: Store, e: Event): Store {
    if e.Configure? then s.(config := Pragma(kdf, s.config, e.command).0)
    else s.(file := Apply(CryptCodec(a), P, s.file, Keyed(s.config, e)).file)
  }

  /** What an event is answered with: a pragma's reply, or the buffer and whether the access returned. */
  datatype Answer = Replied(reply: Reply) | Accessed(data: seq<byte>, ok: bool)

  function AnswerTo(a: Aead, kdf: Kdf, P: nat, s: Store, e: Event): Answer {
    if e.Configure? then Replied(Pragma(kdf, s.config, e.command).1)
    else
      var o := Apply(CryptCodec(a), P, s.file, Keyed(s.config, e));
      Accessed(o.data, o.ok)
  }

  function StoreRun(a: Aead, kdf: Kdf, P: nat, s: Store, es: seq<Event>): Store {
    if es == [] then s
    else StoreStep(a, kdf, P, StoreRun(a, kdf, P, s, es[..|es| - 1]), es[|es| - 1])
  }

  /** The answers of a run, one for each event. */
  function Answers(a: Aead, kdf: Kdf, P: nat, s: Store, es: seq<Event>): seq<Answer> {
    if es == [] then []
    else
      var n := |es| - 1;
      Answers(a, kdf, P, s, es[..n]) + [AnswerTo(a, kdf, P, StoreRun(a, kdf, P, s, es[..n]), es[n])]
  }

  /** The page map alongside: which bytes, and under which encryptor. */
  function MapStep(a: Aead, P: nat, l: Logical<Encryptor>, cfg: Config, e: Event): (l': Logical<Encryptor>)
    requires P >= MIN_PAGE && Fits(P, e) && PagesSized(P, l)
    ensures PagesSized(P, l')
  {
    if e.Configure? then l else LogicalStep(CryptCodec(a), P, l, Keyed(cfg, e))
  }

  function MapRun(a: Aead, kdf: Kdf, P: nat, s: Store, l: Logical<Encryptor>, es: seq<Event>): (l': Logical<Encryptor>)
    requires P >= MIN_PAGE && AllFit(P, es) && PagesSized(P, l)
    ensures PagesSized(P, l')
  {
    if es == [] then l
    else
      var n := |es| - 1;
      MapStep(a, P, MapRun(a, kdf, P, s, l, es[..n]), StoreRun(a, kdf, P, s, es[..n]).config, es[n])
  }

  /** The page accesses of a run, each with the settings in force when it was made. */
  function Trace(a: Aead, kdf: Kdf, P: nat, s: Store, es: seq<Event>): (ops: seq<Op<Encryptor>>)
    ensures AllFit(P, es) ==> AllAligned(P, ops)
  {
    if es == [] then []
    else
      var n := |es| - 1;
      var before := Trace(a, kdf, P, s, es[..n]);
      if es[n].Configure? then before
      else before + [Keyed(StoreRun(a, kdf, P, s, es[..n]).config, es[n])]
  }

  /** The accesses of a run, replayed as keyed page accesses, give its file and its page map. */
  lemma {:induction false} TraceReplays(a: Aead, kdf: Kdf, P: nat, s: Store, l: Logical<Encryptor>, es: seq<Event>)
    requires P >= MIN_PAGE && AllFit(P, es) && PagesSized(P, l)
    ensures RunOps(CryptCodec(a), P, s.file, Trace(a, kdf, P, s, es)) == StoreRun(a, kdf, P, s, es).file
    ensures LogicalRun(CryptCodec(a), P, l, Trace(a, kdf, P, s, es)) == MapRun(a, kdf, P, s, l, es)
  {
    if es != [] {
      var n := |es| - 1;
      TraceReplays(a, kdf, P, s, l, es[..n]);
      if !es[n].Configure? {
        assert Trace(a, kdf, P, s, es)[..|Trace(a, kdf, P, s, es)| - 1] == Trace(a, kdf, P, s, es[..n]);
      }
    }
  }

  /** The settings after a run are those its pragmas alone produce. */
  function Commands(es: seq<Event>): seq<Command> {
    if es == [] then []
    else Commands(es[..|es| - 1]) + if es[|es| - 1].Configure? then [es[|es| - 1].command] else []
  }

  lemma {:induction false} SettingsFollowPragmas(a: Aead, kdf: Kdf, P: nat, s: Store, es: seq<Event>)
    ensures StoreRun(a, kdf, P, s, es).config == CryptConfig.Configure(kdf, s.config, Commands(es))
  {
    if es != [] {
      var n := |es| - 1;
      SettingsFollowPragmas(a, kdf, P, s, es[..n]);
      if es[n].Configure? {
        assert Commands(es)[..|Commands(es)| - 1] == Commands(es[..n]);
      } else {
        assert Commands(es) == Commands(es[..n]);
      }
    }
  }

  /** The page size cache over runs with pragmas in between. */
  lemma CacheOverRuns(a: Aead, kdf: Kdf, P: nat, s: Store, es: seq<Event>)
    requires Sound(a) && P >= MIN_PAGE && AllFit(P, es)
    ensures Synced(CryptCodec(a), P, s.file, Trace(a, kdf, P, s, es)) ==> CacheAgrees(StoreRun(a, kdf, P, s, es).file)
  {
    CryptCodecInverse(a);
    TraceReplays(a, kdf, P, s, Untouched(s.file), es);
    CacheAgreement(CryptCodec(a), P, s.file, Trace(a, kdf, P, s, es));
  }

  ghost predicate Tracks(a: Aead, P: nat, s: Store, l: Logical<Encryptor>) {
    P >= MIN_PAGE && PagesSized(P, l) && Refines(CryptCodec(a), P, s.file.store, l)
  }

  /** No run of accesses, pragmas and phases ever loses track of a page. */
  lemma {:induction false} RunTracks(a: Aead, kdf: Kdf, P: nat, s: Store, l: Logical<Encryptor>, es: seq<Event>)
    requires Sound(a) && AllFit(P, es) && Tracks(a, P, s, l)
    ensures Tracks(a, P, StoreRun(a, kdf, P, s, es), MapRun(a, kdf, P, s, l, es))
  {
    if es != [] {
      var n := |es| - 1;
      RunTracks(a, kdf, P, s, l, es[..n]);
      var (s', l') := (StoreRun(a, kdf, P, s, es[..n]), MapRun(a, kdf, P, s, l, es[..n]));
      if !es[n].Configure? {
        CryptCodecInverse(a);
        StepKeeps(CryptCodec(a), P, s'.file, l', Keyed(s'.config, es[n]));
      }
    }
  }

  // ---- Reading back ----

  function ReadAt(a: Aead, P: nat, s: Store, k: nat): Outcome {
    ReadPageAt(CryptCodec(a), P, s.file, k, s.config.current, s.config.Writer())
  }

  /** Data equal to the bytes of a page except for the IV and the tag; equal without a cipher. */
  ghost predicate ReadsBack(data: seq<byte>, w: Written<Encryptor>) {
    var P := |w.bytes|;
    && |data| == P >= MIN_PAGE
    && data[..P - 32] == w.bytes[..P - 32]
    && data[P - 4..] == w.bytes[P - 4..]
    && (w.key.cipher.None? ==> data == w.bytes)
  }

  lemma PrefixAcross(x: seq<byte>, y: seq<byte>, h: nat, t: nat)
    requires h <= t <= |x| == |y| && x[..h] == y[..h] && x[h..][..t - h] == y[h..][..t - h]
    ensures x[..t] == y[..t]
  {
    assert x[..t] == x[..h] + x[h..][..t - h];
    assert y[..t] == y[..h] + y[h..][..t - h];
  }

  lemma SuffixWithin(x: seq<byte>, y: seq<byte>, h: nat, u: nat)
    requires h <= u <= |x| == |y| && x[h..][u - h..] == y[h..][u - h..]
    ensures x[u..] == y[u..]
  {
    assert x[u..] == x[h..][u - h..];
  }

  lemma ShownReadsBack(a: Aead, P: nat, data: seq<byte>, k: nat, w: Written<Encryptor>)
    requires Shows(CryptCodec(a), P, data, k, w)
    ensures ReadsBack(data, w)
  {
    var h := HeadOf(k);
    if w.key.cipher.None? {
      assert data == data[..h] + data[h..] && w.bytes == w.bytes[..h] + w.bytes[h..];
    } else {
      PrefixAcross(data, w.bytes, h, P - 32);
      SuffixWithin(data, w.bytes, h, P - 4);
    }
  }

  /** A read of page k returns w's bytes, and throws only for a bad reserve byte on page 0. */
  ghost predicate Served(a: Aead, P: nat, s: Store, k: nat, w: Written<Encryptor>) {
    && ReadsBack(ReadAt(a, P, s, k).data, w)
    && (ReadAt(a, P, s, k).ok <==> k == 0 ==> CheckReserveSize(s.config.Writer(), w.bytes[RESERVE_AT]))
  }

  lemma OnePageMap(a: Aead, P: nat, store: seq<byte>, k: nat, w: Written<Encryptor>)
    requires HoldsAt(CryptCodec(a), P, store, k, w)
    ensures P >= MIN_PAGE && PagesSized(P, Logical(map[k := w], |store|))
    ensures Refines(CryptCodec(a), P, store, Logical(map[k := w], |store|))
  {
  }

  lemma ReadsBackRekeyed(data: seq<byte>, w: Written<Encryptor>, enc: Encryptor)
    requires ReadsBack(data, w.(key := enc)) && (w.key.cipher.None? ==> enc.cipher.None?)
    ensures ReadsBack(data, w)
  {
  }

  /** Stored bytes that are page w under the read side's settings are read back as w. */
  lemma HeldIsServed(a: Aead, P: nat, s: Store, k: nat, w: Written<Encryptor>)
    requires HoldsAt(CryptCodec(a), P, s.file.store, k, w.(key := s.config.current))
    requires w.key.cipher.None? ==> s.config.current.cipher.None?
    ensures Served(a, P, s, k, w)
  {
    var now := w.(key := s.config.current);
    OnePageMap(a, P, s.file.store, k, now);
    ReadShows(CryptCodec(a), P, s.file, Logical(map[k := now], |s.file.store|), k, now.key, s.config.Writer());
    ShownReadsBack(a, P, ReadAt(a, P, s, k).data, k, now);
    ReadsBackRekeyed(ReadAt(a, P, s, k).data, w, now.key);
  }

  lemma TrackedIsServed(a: Aead, P: nat, s: Store, l: Logical<Encryptor>, k: nat)
    requires Tracks(a, P, s, l) && k in l.pages && Alike(l.pages[k].key, s.config.current)
    ensures Served(a, P, s, k, l.pages[k])
  {
    HeldIsServed(a, P, s, k, l.pages[k]);
  }

  /**
   The encrypted store over whole runs from any file: as long as the page map, and each page last
   written under settings that act like those reads use now is read back.
   */
  lemma EncryptedStore(a: Aead, kdf: Kdf, P: nat, s: Store, es: seq<Event>, k: nat)
    requires Sound(a) && P >= MIN_PAGE && AllFit(P, es)
    ensures var l := MapRun(a, kdf, P, s, Untouched(s.file), es);
            var s' := StoreRun(a, kdf, P, s, es);
            && |s'.file.store| == l.length
            && (k in l.pages && Alike(l.pages[k].key, s'.config.current) ==> Served(a, P, s', k, l.pages[k]))
  {
    RunTracks(a, kdf, P, s, Untouched(s.file), es);
    var l := MapRun(a, kdf, P, s, Untouched(s.file), es);
    if k in l.pages && Alike(l.pages[k].key, StoreRun(a, kdf, P, s, es).config.current) {
      TrackedIsServed(a, P, StoreRun(a, kdf, P, s, es), l, k);
    }
  }

  /** Every page is written under settings that act like these. */
  ghost predicate Settled(l: Logical<Encryptor>, enc: Encryptor) {
    forall k :: k in l.pages ==> Alike(l.pages[k].key, enc)
  }

  predicate NoPragmas(es: seq<Event>) {
    forall i :: 0 <= i < |es| ==> !es[i].Configure?
  }

  lemma {:induction false} FixedSettings(a: Aead, kdf: Kdf, P: nat, s: Store, l: Logical<Encryptor>, es: seq<Event>)
    requires P >= MIN_PAGE && AllFit(P, es) && PagesSized(P, l) && NoPragmas(es)
    requires Settled(l, s.config.Writer())
    ensures StoreRun(a, kdf, P, s, es).config == s.config
    ensures Settled(MapRun(a, kdf, P, s, l, es), s.config.Writer())
  {
    if es != [] {
      FixedSettings(a, kdf, P, s, l, es[..|es| - 1]);
    }
  }

  /** Outside a phase and with the settings left alone, the file is a plain page map. */
  lemma PlainPageMap(a: Aead, kdf: Kdf, P: nat, s: Store, es: seq<Event>, k: nat)
    requires Sound(a) && P >= MIN_PAGE && AllFit(P, es) && NoPragmas(es) && !s.config.transform
    ensures var l := MapRun(a, kdf, P, s, Untouched(s.file), es);
            var s' := StoreRun(a, kdf, P, s, es);
            |s'.file.store| == l.length && (k in l.pages ==> Served(a, P, s', k, l.pages[k]))
  {
    FixedSettings(a, kdf, P, s, Untouched(s.file), es);
    EncryptedStore(a, kdf, P, s, es, k);
  }

  /** Closed and opened again, under settings that act like those a page was written under, it is read back. */
  lemma Reopened(a: Aead, kdf: Kdf, P: nat, s: Store, es: seq<Event>, cfg: Config, k: nat)
    requires Sound(a) && P >= MIN_PAGE && AllFit(P, es)
    ensures var l := MapRun(a, kdf, P, s, Untouched(s.file), es);
            var reopened := Store(cfg, File(StoreRun(a, kdf, P, s, es).file.store, 0));
            k in l.pages && Alike(l.pages[k].key, cfg.current) ==> Served(a, P, reopened, k, l.pages[k])
  {
    RunTracks(a, kdf, P, s, Untouched(s.file), es);
    var l := MapRun(a, kdf, P, s, Untouched(s.file), es);
    if k in l.pages && Alike(l.pages[k].key, cfg.current) {
      TrackedIsServed(a, P, Store(cfg, File(StoreRun(a, kdf, P, s, es).file.store, 0)), l, k);
    }
  }

  /** Page 0 stored encrypted carries reserve byte 32, on every run that leaves byte 20 to page writes. */
  lemma {:induction false} ReserveByte(a: Aead, kdf: Kdf, P: nat, s: Store, l: Logical<Encryptor>, es: seq<Event>)
    requires P >= MIN_PAGE && AllFit(P, es) && PagesSized(P, l) && ReserveOk(CryptCodec(a), P, l)
    requires forall i :: 0 <= i < |es| ==> !(es[i].WriteHeader? && es[i].at <= 20 < es[i].at + |es[i].bytes|)
    ensures var l' := MapRun(a, kdf, P, s, l, es);
            && ReserveOk(CryptCodec(a), P, l')
            && (0 in l'.pages && l'.pages[0].key.cipher.Some? ==> l'.pages[0].bytes[20] == 32)
  {
    if es != [] {
      ReserveByte(a, kdf, P, s, l, es[..|es| - 1]);
    }
  }

  /** The same of the file itself: byte 20 of a page 0 stored encrypted is 32. */
  lemma StoredReserveByte(a: Aead, kdf: Kdf, P: nat, s: Store, l: Logical<Encryptor>, es: seq<Event>)
    requires Sound(a) && AllFit(P, es) && Tracks(a, P, s, l) && ReserveOk(CryptCodec(a), P, l)
    requires forall i :: 0 <= i < |es| ==> !(es[i].WriteHeader? && es[i].at <= 20 < es[i].at + |es[i].bytes|)
    ensures var l' := MapRun(a, kdf, P, s, l, es);
            var store := StoreRun(a, kdf, P, s, es).file.store;
            0 in l'.pages && l'.pages[0].key.cipher.Some? ==> |store| >= P && store[20] == 32
  {
    ReserveByte(a, kdf, P, s, l, es);
    RunTracks(a, kdf, P, s, l, es);
    var l' := MapRun(a, kdf, P, s, l, es);
    if 0 in l'.pages {
      StoredHeaderByte(CryptCodec(a), P, StoreRun(a, kdf, P, s, es).file.store, l'.pages[0], RESERVE_AT);
    }
  }

  /** The cache invariant needs its condition: a rejected page 0 leaves its own page size behind. */
  lemma RejectedWriteUnsettlesCache(a: Aead, enc: Encryptor, n: nonce)
    requires enc.cipher.Some?
    ensures var f := File(Zeros(512)[16 := 2], 512);
            var o := WritePageAt(CryptCodec(a), 512, f, 0, Zeros(512)[16 := 4], n, enc);
            CacheAgrees(f) && !o.ok && o.file.store == f.store && !CacheAgrees(o.file)
  {
    var page := Zeros(512)[16 := 4];
    assert page[RESERVE_AT] == 0 && page[17] == 0;
    RejectedWriteCache(CryptCodec(a), 512, File(Zeros(512)[16 := 2], 512), page, n, enc);
  }

  // ---- Re-encryption ----

  const ENTER := Event.Configure(Command(TRANSFORMATION, "1"))
  const LEAVE := Event.Configure(Command(TRANSFORMATION, "0"))

  predicate StaysInside(es: seq<Event>) {
    forall i :: 0 <= i < |es| ==> !(es[i].Configure? && Leaves(es[i].command))
  }

  /** A command that changes what writes are encrypted with; rejected ones and unused keys do not. */
  predicate Resets(kdf: Kdf, cfg: Config, e: Event) {
    e.Configure? && !Alike(Pragma(kdf, cfg, e.command).0.Writer(), cfg.Writer())
  }

  predicate Writes(a: Aead, P: nat, cfg: Config, e: Event)
    requires P >= MIN_PAGE && Fits(P, e)
  {
    e.WritePage? && Accepted(CryptCodec(a), e.k, e.page, e.n, cfg.Writer())
  }

  /** The pages written through since the run began. */
  ghost function Rewritten(a: Aead, kdf: Kdf, P: nat, s: Store, es: seq<Event>): set<nat>
    requires P >= MIN_PAGE && AllFit(P, es)
  {
    if es == [] then {}
    else
      var n := |es| - 1;
      Rewritten(a, kdf, P, s, es[..n])
      + if Writes(a, P, StoreRun(a, kdf, P, s, es[..n]).config, es[n]) then {es[n].k} else {}
  }

  /** Those written through since the write side's settings last changed. */
  ghost function Renewed(a: Aead, kdf: Kdf, P: nat, s: Store, es: seq<Event>): set<nat>
    requires P >= MIN_PAGE && AllFit(P, es)
  {
    if es == [] then {}
    else
      var n := |es| - 1;
      if Resets(kdf, StoreRun(a, kdf, P, s, es[..n]).config, es[n]) then {}
      else Renewed(a, kdf, P, s, es[..n])
           + if Writes(a, P, StoreRun(a, kdf, P, s, es[..n]).config, es[n]) then {es[n].k} else {}
  }

  /** Event i writes page k and goes through. */
  ghost predicate WritesAt(a: Aead, kdf: Kdf, P: nat, s: Store, es: seq<Event>, i: nat, k: nat)
    requires P >= MIN_PAGE && AllFit(P, es) && i < |es|
  {
    es[i].WritePage? && es[i].k == k && AnswerTo(a, kdf, P, StoreRun(a, kdf, P, s, es[..i]), es[i]).ok
  }

  /** Event i is a pragma after which writes are encrypted differently. */
  ghost predicate ResetsAt(a: Aead, kdf: Kdf, P: nat, s: Store, es: seq<Event>, i: nat)
    requires i < |es|
  {
    && es[i].Configure?
    && !Alike(StoreRun(a, kdf, P, s, es[..i]).config.Writer(), StoreRun(a, kdf, P, s, es[..i + 1]).config.Writer())
  }

  ghost predicate RenewedSince(a: Aead, kdf: Kdf, P: nat, s: Store, es: seq<Event>, i: nat, k: nat)
    requires P >= MIN_PAGE && AllFit(P, es)
  {
    && i < |es| && WritesAt(a, kdf, P, s, es, i, k)
    && forall j :: i < j < |es| ==> !ResetsAt(a, kdf, P, s, es, j)
  }

  lemma LastEvent(a: Aead, kdf: Kdf, P: nat, s: Store, es: seq<Event>, k: nat)
    requires P >= MIN_PAGE && AllFit(P, es) && es != []
    ensures var (n, cfg) := (|es| - 1, StoreRun(a, kdf, P, s, es[..|es| - 1]).config);
            && (WritesAt(a, kdf, P, s, es, n, k) <==> Writes(a, P, cfg, es[n]) && es[n].k == k)
            && (ResetsAt(a, kdf, P, s, es, n) <==> Resets(kdf, cfg, es[n]))
  {
    var n := |es| - 1;
    assert es[..n + 1] == es;
    if es[n].WritePage? {
      var s' := StoreRun(a, kdf, P, s, es[..n]);
      WriteOutcome(CryptCodec(a), P, s'.file, es[n].k, es[n].page, es[n].n, s'.config.Writer());
    }
  }

  lemma EventsBefore(a: Aead, kdf: Kdf, P: nat, s: Store, es: seq<Event>, i: nat, k: nat)
    requires P >= MIN_PAGE && AllFit(P, es) && i < |es| - 1
    ensures WritesAt(a, kdf, P, s, es, i, k) == WritesAt(a, kdf, P, s, es[..|es| - 1], i, k)
    ensures ResetsAt(a, kdf, P, s, es, i) == ResetsAt(a, kdf, P, s, es[..|es| - 1], i)
  {
    assert es[..|es| - 1][..i] == es[..i] && es[..|es| - 1][..i + 1] == es[..i + 1];
  }

  lemma RenewedPrefix(a: Aead, kdf: Kdf, P: nat, s: Store, es: seq<Event>, i: nat, k: nat)
    requires P >= MIN_PAGE && AllFit(P, es) && i < |es| - 1
    ensures RenewedSince(a, kdf, P, s, es, i, k)
       <==> RenewedSince(a, kdf, P, s, es[..|es| - 1], i, k) && !ResetsAt(a, kdf, P, s, es, |es| - 1)
  {
    var before := es[..|es| - 1];
    EventsBefore(a, kdf, P, s, es, i, k);
    if RenewedSince(a, kdf, P, s, es, i, k) {
      forall j | i < j < |before| ensures !ResetsAt(a, kdf, P, s, before, j) {
        EventsBefore(a, kdf, P, s, es, j, k);
      }
    }
    if RenewedSince(a, kdf, P, s, before, i, k) && !ResetsAt(a, kdf, P, s, es, |es| - 1) {
      forall j | i < j < |es| ensures !ResetsAt(a, kdf, P, s, es, j) {
        if j < |before| {
          EventsBefore(a, kdf, P, s, es, j, k);
        }
      }
    }
  }

  /** Rewritten are the pages some write went through to. */
  lemma {:induction false} RewrittenIff(a: Aead, kdf: Kdf, P: nat, s: Store, es: seq<Event>, k: nat)
    requires P >= MIN_PAGE && AllFit(P, es)
    ensures k in Rewritten(a, kdf, P, s, es) <==> exists i: nat :: i < |es| && WritesAt(a, kdf, P, s, es, i, k)
  {
    if es != [] {
      var n := |es| - 1;
      RewrittenIff(a, kdf, P, s, es[..n], k);
      LastEvent(a, kdf, P, s, es, k);
      forall i: nat | i < n
        ensures WritesAt(a, kdf, P, s, es, i, k) == WritesAt(a, kdf, P, s, es[..n], i, k)
      {
        EventsBefore(a, kdf, P, s, es, i, k);
      }
    }
  }

  lemma {:induction false} RenewedWitness(a: Aead, kdf: Kdf, P: nat, s: Store, es: seq<Event>, k: nat) returns (i: nat)
    requires P >= MIN_PAGE && AllFit(P, es) && k in Renewed(a, kdf, P, s, es)
    ensures RenewedSince(a, kdf, P, s, es, i, k)
  {
    var n := |es| - 1;
    LastEvent(a, kdf, P, s, es, k);
    if WritesAt(a, kdf, P, s, es, n, k) {
      i := n;
    } else {
      i := RenewedWitness(a, kdf, P, s, es[..n], k);
      RenewedPrefix(a, kdf, P, s, es, i, k);
    }
  }

  lemma {:induction false} RenewedFrom(a: Aead, kdf: Kdf, P: nat, s: Store, es: seq<Event>, i: nat, k: nat)
    requires P >= MIN_PAGE && AllFit(P, es) && RenewedSince(a, kdf, P, s, es, i, k)
    ensures k in Renewed(a, kdf, P, s, es)
  {
    LastEvent(a, kdf, P, s, es, k);
    if i < |es| - 1 {
      RenewedPrefix(a, kdf, P, s, es, i, k);
      RenewedFrom(a, kdf, P, s, es[..|es| - 1], i, k);
    }
  }

  /** Renewed are those with such a write after which no pragma changed what writes are encrypted with. */
  lemma RenewedIff(a: Aead, kdf: Kdf, P: nat, s: Store, es: seq<Event>, k: nat)
    requires P >= MIN_PAGE && AllFit(P, es)
    ensures k in Renewed(a, kdf, P, s, es) <==> exists i :: RenewedSince(a, kdf, P, s, es, i, k)
  {
    if k in Renewed(a, kdf, P, s, es) {
      var _ := RenewedWitness(a, kdf, P, s, es, k);
    }
    forall i | RenewedSince(a, kdf, P, s, es, i, k) ensures k in Renewed(a, kdf, P, s, es) {
      RenewedFrom(a, kdf, P, s, es, i, k);
    }
  }

  /** The state of a phase: still transforming, reads unchanged, and whose key each page has. */
  ghost predicate Phase(s: Store, l: Logical<Encryptor>, before: Encryptor, rewritten: set<nat>, renewed: set<nat>) {
    && s.config.transform && s.config.current == before
    && (forall k :: k in l.pages && k !in rewritten ==> Alike(l.pages[k].key, before))
    && (forall k :: k in l.pages && k in renewed ==> Alike(l.pages[k].key, s.config.transformation))
  }

  lemma PhaseStep(a: Aead, kdf: Kdf, P: nat, s: Store, l: Logical<Encryptor>, e: Event, before: Encryptor,
                  rewritten: set<nat>, renewed: set<nat>)
    requires P >= MIN_PAGE && Fits(P, e) && PagesSized(P, l) && !(e.Configure? && Leaves(e.command))
    requires Phase(s, l, before, rewritten, renewed)
    ensures var own := if Writes(a, P, s.config, e) then {e.k} else {};
            Phase(StoreStep(a, kdf, P, s, e), MapStep(a, P, l, s.config, e), before,
                  rewritten + own, if Resets(kdf, s.config, e) then {} else renewed + own)
  {
  }

  lemma {:induction false} PhaseKept(a: Aead, kdf: Kdf, P: nat, s: Store, l: Logical<Encryptor>, es: seq<Event>)
    requires P >= MIN_PAGE && AllFit(P, es) && PagesSized(P, l) && StaysInside(es)
    requires s.config.transform && Settled(l, s.config.current)
    ensures Phase(StoreRun(a, kdf, P, s, es), MapRun(a, kdf, P, s, l, es), s.config.current,
                  Rewritten(a, kdf, P, s, es), Renewed(a, kdf, P, s, es))
  {
    if es != [] {
      var n := |es| - 1;
      PhaseKept(a, kdf, P, s, l, es[..n]);
      PhaseStep(a, kdf, P, StoreRun(a, kdf, P, s, es[..n]), MapRun(a, kdf, P, s, l, es[..n]), es[n], s.config.current,
                Rewritten(a, kdf, P, s, es[..n]), Renewed(a, kdf, P, s, es[..n]));
    }
  }

  /**
   Re-encryption is safe: inside a phase every page not yet rewritten is still read back; and once
   every page has been written since the write side's settings last changed, leaving the phase settles the
   file under the new settings and every page is read back.
   */
  lemma ReencryptionSafety(a: Aead, kdf: Kdf, P: nat, s: Store, l: Logical<Encryptor>, es: seq<Event>, k: nat)
    requires Sound(a) && AllFit(P, es) && StaysInside(es)
    requires Tracks(a, P, s, l) && !s.config.transform && Settled(l, s.config.current)
    ensures var inside := StoreRun(a, kdf, P, StoreStep(a, kdf, P, s, ENTER), es);
            var after := StoreStep(a, kdf, P, inside, LEAVE);
            var l' := MapRun(a, kdf, P, StoreStep(a, kdf, P, s, ENTER), l, es);
            && (k in l'.pages && k !in Rewritten(a, kdf, P, StoreStep(a, kdf, P, s, ENTER), es) ==>
                  Served(a, P, inside, k, l'.pages[k]))
            && (k in l'.pages && k in Renewed(a, kdf, P, StoreStep(a, kdf, P, s, ENTER), es) ==>
                  && Alike(l'.pages[k].key, inside.config.transformation)
                  && HoldsAt(CryptCodec(a), P, inside.file.store, k, l'.pages[k]))
            && (l'.pages.Keys <= Renewed(a, kdf, P, StoreStep(a, kdf, P, s, ENTER), es) ==>
                  && !after.config.transform && Settled(l', after.config.current) && Tracks(a, P, after, l')
                  && after.config.current == inside.config.transformation
                  && (k in l'.pages ==> Served(a, P, after, k, l'.pages[k])))
  {
    var entered := StoreStep(a, kdf, P, s, ENTER);
    PhaseKept(a, kdf, P, entered, l, es);
    RunTracks(a, kdf, P, entered, l, es);
    var inside := StoreRun(a, kdf, P, entered, es);
    var after := StoreStep(a, kdf, P, inside, LEAVE);
    var l' := MapRun(a, kdf, P, entered, l, es);
    if k in l'.pages && k !in Rewritten(a, kdf, P, entered, es) {
      TrackedIsServed(a, P, inside, l', k);
    }
    if k in l'.pages && l'.pages.Keys <= Renewed(a, kdf, P, entered, es) {
      TrackedIsServed(a, P, after, l', k);
    }
  }

  // ---- Page 0 inside a phase ----

  lemma {:induction false} PhaseMode(a: Aead, kdf: Kdf, P: nat, s: Store, es: seq<Event>)
    requires s.config.transform && StaysInside(es)
    ensures StoreRun(a, kdf, P, s, es).config.transform
    ensures StoreRun(a, kdf, P, s, es).config.current == s.config.current
  {
    if es != [] {
      PhaseMode(a, kdf, P, s, es[..|es| - 1]);
    }
  }

  /** While reads are plain and writes encrypted, page 0 is readable exactly if its stored byte 20 is 32. */
  lemma PlainHeaderRead(a: Aead, P: nat, s: Store)
    requires s.config.transform && s.config.current.cipher.None? && s.config.transformation.cipher.Some?
    requires P >= MIN_PAGE && |s.file.store| >= P
    ensures ReadAt(a, P, s, 0).ok <==> s.file.store[20] == 32
  {
    PageZeroRead(CryptCodec(a), P, s.file, s.config.current, s.config.Writer());
  }

  /** So throughout every phase from no cipher to one, once the cipher is set. */
  lemma PlainToEncryptedPhase(a: Aead, kdf: Kdf, P: nat, s: Store, es: seq<Event>)
    requires !s.config.transform && s.config.current.cipher.None? && StaysInside(es) && P >= MIN_PAGE
    ensures var inside := StoreRun(a, kdf, P, StoreStep(a, kdf, P, s, ENTER), es);
            inside.config.transformation.cipher.Some? && |inside.file.store| >= P ==>
              (ReadAt(a, P, inside, 0).ok <==> inside.file.store[20] == 32)
  {
    var entered := StoreStep(a, kdf, P, s, ENTER);
    PhaseMode(a, kdf, P, entered, es);
    var inside := StoreRun(a, kdf, P, entered, es);
    if inside.config.transformation.cipher.Some? && |inside.file.store| >= P {
      PlainHeaderRead(a, P, inside);
    }
  }

  /** An unencrypted page 0 with reserve byte 0, unreadable as soon as the new cipher is set. */
  lemma UnreadableHeader(a: Aead, kdf: Kdf)
    ensures var s := Store(Config(false, BLANK, BLANK), File(Zeros(512), 0));
            var es := [ENTER, Event.Configure(Command(CIPHER, "aes-256-gcm"))];
            ReadAt(a, 512, s, 0).ok && !ReadAt(a, 512, StoreRun(a, kdf, 512, s, es), 0).ok
  {
    var s := Store(Config(false, BLANK, BLANK), File(Zeros(512), 0));
    var es := [ENTER, Event.Configure(Command(CIPHER, "aes-256-gcm"))];
    PageZeroRead(CryptCodec(a), 512, s.file, BLANK, BLANK);
    assert es[..1] == [ENTER] && es[..1][..0] == [];
    var entered := StoreStep(a, kdf, 512, s, ENTER);
    assert StoreRun(a, kdf, 512, s, es[..1]) == entered == Store(Config(true, BLANK, BLANK), s.file);
    var ciphered := StoreStep(a, kdf, 512, entered, es[1]);
    assert StoreRun(a, kdf, 512, s, es) == ciphered;
    assert ciphered.config.transformation.cipher == Some(Aes256Gcm);
    PlainHeaderRead(a, 512, ciphered);
  }
}
