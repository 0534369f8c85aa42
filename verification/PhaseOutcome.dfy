/**
 Leaving a re-encryption phase: which pages are read back afterwards, and what becomes of the others.
 The code does not look whether the phase is complete, so this is decided by the settings each page
 was last written under and by the settings the phase ends with.
 */
module PhaseOutcome {
  import opened Bytes
  import opened PageFile
  import opened PageStore
  import opened Crypt
  import opened CryptConfig
  import opened CryptRuns

  // ---- One page in any state ----

  /** The reserve byte of page 0 passes the write side's check. */
  ghost predicate HeaderPasses(enc: Encryptor, k: nat, w: Written<Encryptor>)
    requires |w.bytes| >= MIN_PAGE
  {
    k == 0 ==> CheckReserveSize(enc, w.bytes[RESERVE_AT])
  }

  /** Read without a throw, as the bytes of w. */
  ghost predicate Returned(a: Aead, P: nat, s: Store, k: nat, w: Written<Encryptor>) {
    ReadAt(a, P, s, k).ok && ReadsBack(ReadAt(a, P, s, k).data, w)
  }

  /** What slot k stores is not taken for w under enc: it fails authentication or, with no cipher, differs. */
  ghost predicate Foreign(a: Aead, enc: Encryptor, P: nat, store: seq<byte>, k: nat, w: Written<Encryptor>) {
    && P >= MIN_PAGE && Offset(k, P) + P <= |store|
    && var stored := Slot(store, k, P);
       if enc.cipher.None? then !ReadsBack(stored, w) else !DecodePage(a, enc, stored[HeadOf(k)..]).ok
  }

  /** A tracked page read with no cipher set is returned exactly as stored, encrypted or not. */
  lemma PlainRead(a: Aead, P: nat, s: Store, l: Logical<Encryptor>, k: nat)
    requires Tracks(a, P, s, l) && k in l.pages && s.config.current.cipher.None?
    ensures Offset(k, P) + P <= |s.file.store| && ReadAt(a, P, s, k).data == Slot(s.file.store, k, P)
    ensures ReadAt(a, P, s, k).ok <==> HeaderPasses(s.config.Writer(), k, l.pages[k])
  {
    assert HoldsAt(CryptCodec(a), P, s.file.store, k, l.pages[k]);
    ReadOutcome(CryptCodec(a), P, s.file, k, s.config.current, s.config.Writer());
    var (h, data, raw) := (HeadOf(k), ReadAt(a, P, s, k).data, Slot(s.file.store, k, P));
    assert data == data[..h] + data[h..] && raw == raw[..h] + raw[h..];
    if k == 0 {
      assert raw[..HEADER][RESERVE_AT] == l.pages[0].bytes[..HEADER][RESERVE_AT] == l.pages[0].bytes[RESERVE_AT];
    }
  }

  /** Foreign pages are not returned: with a cipher the read throws. */
  lemma ForeignIsNotReturned(a: Aead, P: nat, s: Store, l: Logical<Encryptor>, k: nat)
    requires Tracks(a, P, s, l) && k in l.pages
    requires Foreign(a, s.config.current, P, s.file.store, k, l.pages[k])
    ensures !Returned(a, P, s, k, l.pages[k])
    ensures s.config.current.cipher.Some? ==> !ReadAt(a, P, s, k).ok
  {
    if s.config.current.cipher.None? {
      PlainRead(a, P, s, l, k);
    } else {
      ReadOutcome(CryptCodec(a), P, s.file, k, s.config.current, s.config.Writer());
    }
  }

  /** A tracked page that is not foreign under other settings is returned exactly under its own. */
  lemma ReturnedIff(a: Aead, P: nat, s: Store, l: Logical<Encryptor>, k: nat)
    requires Tracks(a, P, s, l) && k in l.pages
    requires Alike(l.pages[k].key, s.config.current)
             || Foreign(a, s.config.current, P, s.file.store, k, l.pages[k])
    ensures Returned(a, P, s, k, l.pages[k])
       <==> Alike(l.pages[k].key, s.config.current) && HeaderPasses(s.config.Writer(), k, l.pages[k])
  {
    if Alike(l.pages[k].key, s.config.current) {
      TrackedIsServed(a, P, s, l, k);
    } else {
      ForeignIsNotReturned(a, P, s, l, k);
    }
  }

  // ---- Who wrote a page last ----

  /** The write side's settings when page k was last written through, or those it came with. */
  ghost function LastWriter(a: Aead, kdf: Kdf, P: nat, s: Store, es: seq<Event>, before: Encryptor, k: nat): Encryptor
    requires P >= MIN_PAGE && AllFit(P, es)
  {
    if es == [] then before
    else
      var n := |es| - 1;
      var cfg := StoreRun(a, kdf, P, s, es[..n]).config;
      if Writes(a, P, cfg, es[n]) && es[n].k == k then cfg.Writer()
      else LastWriter(a, kdf, P, s, es[..n], before, k)
  }

  lemma {:induction false} PageHasLastWriter(a: Aead, kdf: Kdf, P: nat, s: Store, l: Logical<Encryptor>,
                                             es: seq<Event>, before: Encryptor, k: nat)
    requires P >= MIN_PAGE && AllFit(P, es) && PagesSized(P, l) && Settled(l, before)
    ensures var l' := MapRun(a, kdf, P, s, l, es);
            k in l'.pages ==> Alike(l'.pages[k].key, LastWriter(a, kdf, P, s, es, before, k))
    ensures k !in Rewritten(a, kdf, P, s, es) ==> LastWriter(a, kdf, P, s, es, before, k) == before
  {
    if es != [] {
      PageHasLastWriter(a, kdf, P, s, l, es[..|es| - 1], before, k);
    }
  }

  // ---- A whole phase ----

  /** The state after entering a phase, performing the events and leaving it. */
  function AfterPhase(a: Aead, kdf: Kdf, P: nat, s: Store, es: seq<Event>): Store {
    StoreStep(a, kdf, P, StoreRun(a, kdf, P, StoreStep(a, kdf, P, s, ENTER), es), LEAVE)
  }

  function MapAfterPhase(a: Aead, kdf: Kdf, P: nat, s: Store, l: Logical<Encryptor>, es: seq<Event>)
    : (l': Logical<Encryptor>)
    requires P >= MIN_PAGE && AllFit(P, es) && PagesSized(P, l)
    ensures PagesSized(P, l')
  {
    MapRun(a, kdf, P, StoreStep(a, kdf, P, s, ENTER), l, es)
  }

  /** The settings page k was last written under when the phase is left. */
  ghost function PhaseWriter(a: Aead, kdf: Kdf, P: nat, s: Store, es: seq<Event>, k: nat): Encryptor
    requires P >= MIN_PAGE && AllFit(P, es)
  {
    LastWriter(a, kdf, P, StoreStep(a, kdf, P, s, ENTER), es, s.config.current, k)
  }

  lemma PhaseResult(a: Aead, kdf: Kdf, P: nat, s: Store, l: Logical<Encryptor>, es: seq<Event>)
    requires Sound(a) && AllFit(P, es) && StaysInside(es)
    requires Tracks(a, P, s, l) && !s.config.transform && Settled(l, s.config.current)
    ensures var (after, l') := (AfterPhase(a, kdf, P, s, es), MapAfterPhase(a, kdf, P, s, l, es));
            && Tracks(a, P, after, l') && !after.config.transform
            && forall k :: k in l'.pages ==> Alike(l'.pages[k].key, PhaseWriter(a, kdf, P, s, es, k))
  {
    var entered := StoreStep(a, kdf, P, s, ENTER);
    PhaseKept(a, kdf, P, entered, l, es);
    RunTracks(a, kdf, P, entered, l, es);
    var l' := MapAfterPhase(a, kdf, P, s, l, es);
    forall k | k in l'.pages
      ensures Alike(l'.pages[k].key, PhaseWriter(a, kdf, P, s, es, k))
    {
      PageHasLastWriter(a, kdf, P, entered, l, es, s.config.current, k);
    }
  }

  /** After a phase that ends with no cipher, no page throws and each is returned as stored. */
  lemma PlainAfterPhase(a: Aead, kdf: Kdf, P: nat, s: Store, l: Logical<Encryptor>, es: seq<Event>, k: nat)
    requires Sound(a) && AllFit(P, es) && StaysInside(es)
    requires Tracks(a, P, s, l) && !s.config.transform && Settled(l, s.config.current)
    ensures var (after, l') := (AfterPhase(a, kdf, P, s, es), MapAfterPhase(a, kdf, P, s, l, es));
            k in l'.pages && after.config.current.cipher.None? ==>
              && Offset(k, P) + P <= |after.file.store|
              && ReadAt(a, P, after, k).ok && ReadAt(a, P, after, k).data == Slot(after.file.store, k, P)
  {
    PhaseResult(a, kdf, P, s, l, es);
    var (after, l') := (AfterPhase(a, kdf, P, s, es), MapAfterPhase(a, kdf, P, s, l, es));
    if k in l'.pages && after.config.current.cipher.None? {
      PlainRead(a, P, after, l', k);
    }
  }

  /** After a phase a page is returned exactly if it was last written under the final settings. */
  lemma PageAfterPhase(a: Aead, kdf: Kdf, P: nat, s: Store, l: Logical<Encryptor>, es: seq<Event>, k: nat)
    requires Sound(a) && AllFit(P, es) && StaysInside(es)
    requires Tracks(a, P, s, l) && !s.config.transform && Settled(l, s.config.current)
    ensures var (after, l') := (AfterPhase(a, kdf, P, s, es), MapAfterPhase(a, kdf, P, s, l, es));
            var (wrote, now) := (PhaseWriter(a, kdf, P, s, es, k), after.config.current);
            k in l'.pages && (Alike(wrote, now) || Foreign(a, now, P, after.file.store, k, l'.pages[k])) ==>
              (Returned(a, P, after, k, l'.pages[k]) <==> Alike(wrote, now) && HeaderPasses(now, k, l'.pages[k]))
  {
    PhaseResult(a, kdf, P, s, l, es);
    var (after, l') := (AfterPhase(a, kdf, P, s, es), MapAfterPhase(a, kdf, P, s, l, es));
    if k in l'.pages && (Alike(l'.pages[k].key, after.config.current)
                         || Foreign(a, after.config.current, P, after.file.store, k, l'.pages[k])) {
      ReturnedIff(a, P, after, l', k);
    }
  }

  /** No page written under other settings than the final ones happens to pass under those. */
  ghost predicate StaleAreForeign(a: Aead, kdf: Kdf, P: nat, s: Store, l: Logical<Encryptor>, es: seq<Event>)
    requires P >= MIN_PAGE && AllFit(P, es) && PagesSized(P, l)
  {
    var (after, l') := (AfterPhase(a, kdf, P, s, es), MapAfterPhase(a, kdf, P, s, l, es));
    forall k :: k in l'.pages && !Alike(PhaseWriter(a, kdf, P, s, es, k), after.config.current) ==>
      Foreign(a, after.config.current, P, after.file.store, k, l'.pages[k])
  }

  /** Every page is read back, without a throw. */
  ghost predicate AllReturned(a: Aead, P: nat, s: Store, l: Logical<Encryptor>) {
    forall k :: k in l.pages ==> Returned(a, P, s, k, l.pages[k])
  }

  /** Every page was last written under the final settings, and page 0's reserve byte suits them. */
  ghost predicate AllRewritten(a: Aead, kdf: Kdf, P: nat, s: Store, l: Logical<Encryptor>, es: seq<Event>)
    requires P >= MIN_PAGE && AllFit(P, es) && PagesSized(P, l)
  {
    var (now, l') := (AfterPhase(a, kdf, P, s, es).config.current, MapAfterPhase(a, kdf, P, s, l, es));
    forall k :: k in l'.pages ==> Alike(PhaseWriter(a, kdf, P, s, es, k), now) && HeaderPasses(now, k, l'.pages[k])
  }

  /** Leaving a phase keeps every page if and only if all of them were rewritten under its final settings. */
  lemma ReencryptionIff(a: Aead, kdf: Kdf, P: nat, s: Store, l: Logical<Encryptor>, es: seq<Event>)
    requires Sound(a) && AllFit(P, es) && StaysInside(es)
    requires Tracks(a, P, s, l) && !s.config.transform && Settled(l, s.config.current)
    requires StaleAreForeign(a, kdf, P, s, l, es)
    ensures AllReturned(a, P, AfterPhase(a, kdf, P, s, es), MapAfterPhase(a, kdf, P, s, l, es))
       <==> AllRewritten(a, kdf, P, s, l, es)
  {
    var (after, l') := (AfterPhase(a, kdf, P, s, es), MapAfterPhase(a, kdf, P, s, l, es));
    forall k | k in l'.pages
      ensures Returned(a, P, after, k, l'.pages[k])
         <==> Alike(PhaseWriter(a, kdf, P, s, es, k), after.config.current)
              && HeaderPasses(after.config.current, k, l'.pages[k])
    {
      PageAfterPhase(a, kdf, P, s, l, es, k);
    }
  }

  // ---- Ciphers that commit to their key ----

  predicate Unseals(a: Aead, enc: Encryptor, iv: ivbytes, tag: tagbytes, text: seq<byte>)
    requires enc.cipher.Some?
  {
    a.unseal(enc.cipher.value, UsedKey(enc.cipher.value, enc.key), iv, tag, text).ok
  }

  /**
   No text, IV and tag unseal under both settings. This is key commitment, which GCM does not have:
   for two GCM keys there are, in general, texts with a tag both accept.
   */
  ghost predicate Apart(a: Aead, e1: Encryptor, e2: Encryptor) {
    && e1.cipher.Some? && e2.cipher.Some?
    && forall iv, tag, text :: Unseals(a, e1, iv, tag, text) ==> !Unseals(a, e2, iv, tag, text)
  }

  lemma ApartDecodes(a: Aead, e1: Encryptor, e2: Encryptor, stored: seq<byte>)
    requires Apart(a, e1, e2) && DecodePage(a, e1, stored).ok
    ensures !DecodePage(a, e2, stored).ok
  {
    assert Unseals(a, e1, Iv(stored), Tag(stored), stored[..TrailerAt(stored)]);
  }

  lemma ApartIsForeign(a: Aead, P: nat, s: Store, l: Logical<Encryptor>, k: nat)
    requires Tracks(a, P, s, l) && k in l.pages && Apart(a, l.pages[k].key, s.config.current)
    ensures Foreign(a, s.config.current, P, s.file.store, k, l.pages[k])
  {
    assert HoldsAt(CryptCodec(a), P, s.file.store, k, l.pages[k]);
    ApartDecodes(a, l.pages[k].key, s.config.current, Slot(s.file.store, k, P)[HeadOf(k)..]);
  }

  /** Under a key-committing cipher every page not rewritten throws, whatever its bytes. */
  lemma SkippedPageIsLost(a: Aead, kdf: Kdf, P: nat, s: Store, l: Logical<Encryptor>, es: seq<Event>, k: nat)
    requires Sound(a) && AllFit(P, es) && StaysInside(es)
    requires Tracks(a, P, s, l) && !s.config.transform && Settled(l, s.config.current)
    ensures var (after, l') := (AfterPhase(a, kdf, P, s, es), MapAfterPhase(a, kdf, P, s, l, es));
            && (k in l'.pages && Apart(a, PhaseWriter(a, kdf, P, s, es, k), after.config.current) ==>
                  !ReadAt(a, P, after, k).ok)
            && (k in l'.pages && k !in Rewritten(a, kdf, P, StoreStep(a, kdf, P, s, ENTER), es)
                && Apart(a, s.config.current, after.config.current) ==>
                  !ReadAt(a, P, after, k).ok)
  {
    PhaseResult(a, kdf, P, s, l, es);
    PageHasLastWriter(a, kdf, P, StoreStep(a, kdf, P, s, ENTER), l, es, s.config.current, k);
    var (after, l') := (AfterPhase(a, kdf, P, s, es), MapAfterPhase(a, kdf, P, s, l, es));
    if k in l'.pages && Apart(a, l'.pages[k].key, after.config.current) {
      ApartIsForeign(a, P, after, l', k);
      ForeignIsNotReturned(a, P, after, l', k);
    }
  }
}
