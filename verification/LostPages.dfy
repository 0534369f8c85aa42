/**
 A concrete cipher under which the outcome of every phase is settled exactly, and three runs that lose a page.
 It complements the text, and its tag is the first half of the key.
 */
module LostPages {
  import opened Bytes
  import opened ByteFile
  import opened PageFile
  import opened PageStore
  import opened PageInvariants
  import opened KeyLiteral
  import opened Crypt
  import opened CryptConfig
  import opened CryptRuns
  import opened PhaseOutcome
  import opened Guarantees

  function Half(key: cipherkey): tagbytes {
    key[..16]
  }

  const KEYED_TAG := Aead(
    (alg: Algorithm, key: cipherkey, iv: ivbytes, text: seq<byte>) => Some(Sealed(Masked(text), Half(key))),
    (alg: Algorithm, key: cipherkey, iv: ivbytes, tag: tagbytes, text: seq<byte>) =>
      Decoded(Masked(text), tag == Half(key)))

  lemma KeyedTagIsSound()
    ensures Sound(KEYED_TAG) && Masks(KEYED_TAG)
  {
    forall text { MaskedTwice(text); }
  }

  /** What this cipher makes of some settings. */
  function Mark(enc: Encryptor): Option<tagbytes> {
    match enc.cipher
    case None => None
    case Some(alg) => Some(Half(UsedKey(alg, enc.key)))
  }

  lemma SameMarkHolds(P: nat, store: seq<byte>, k: nat, w: Written<Encryptor>, enc: Encryptor)
    requires HoldsAt(CryptCodec(KEYED_TAG), P, store, k, w) && Mark(w.key) == Mark(enc)
    ensures HoldsAt(CryptCodec(KEYED_TAG), P, store, k, w.(key := enc))
  {
  }

  /** In every state a tracked page is returned exactly if the marks agree and page 0's reserve byte passes. */
  lemma KeyedTagReturned(P: nat, s: Store, l: Logical<Encryptor>, k: nat)
    requires Tracks(KEYED_TAG, P, s, l) && k in l.pages
    ensures Returned(KEYED_TAG, P, s, k, l.pages[k])
       <==> Mark(l.pages[k].key) == Mark(s.config.current) && HeaderPasses(s.config.Writer(), k, l.pages[k])
  {
    KeyedTagIsSound();
    var (w, now) := (l.pages[k], s.config.current);
    assert HoldsAt(CryptCodec(KEYED_TAG), P, s.file.store, k, w);
    if Mark(w.key) == Mark(now) {
      SameMarkHolds(P, s.file.store, k, w, now);
      HeldIsServed(KEYED_TAG, P, s, k, w);
    } else if w.key.cipher.None? {
      PlainIsMasked(KEYED_TAG, P, s, k, w);
    } else {
      if now.cipher.None? {
        MaskedDiffers(KEYED_TAG, P, s.file.store, k, w);
      }
      ForeignIsNotReturned(KEYED_TAG, P, s, l, k);
    }
  }

  /** After every phase all pages are returned if and only if each was last written under the final mark. */
  lemma KeyedTagPhase(kdf: Kdf, P: nat, s: Store, l: Logical<Encryptor>, es: seq<Event>)
    requires AllFit(P, es) && StaysInside(es)
    requires Tracks(KEYED_TAG, P, s, l) && !s.config.transform && Settled(l, s.config.current)
    ensures var (after, l') := (AfterPhase(KEYED_TAG, kdf, P, s, es), MapAfterPhase(KEYED_TAG, kdf, P, s, l, es));
            AllReturned(KEYED_TAG, P, after, l') <==>
              forall k :: k in l'.pages ==>
                Mark(PhaseWriter(KEYED_TAG, kdf, P, s, es, k)) == Mark(after.config.current)
                && HeaderPasses(after.config.current, k, l'.pages[k])
  {
    KeyedTagIsSound();
    PhaseResult(KEYED_TAG, kdf, P, s, l, es);
    var (after, l') := (AfterPhase(KEYED_TAG, kdf, P, s, es), MapAfterPhase(KEYED_TAG, kdf, P, s, l, es));
    forall k | k in l'.pages
      ensures Returned(KEYED_TAG, P, after, k, l'.pages[k])
         <==> Mark(PhaseWriter(KEYED_TAG, kdf, P, s, es, k)) == Mark(after.config.current)
              && HeaderPasses(after.config.current, k, l'.pages[k])
    {
      KeyedTagReturned(P, after, l', k);
    }
  }

  // ---- Three runs ----

  function RepeatedKey(b: byte): keybytes {
    seq(32, i => b)
  }

  /** A key derivation that repeats the first byte of the password. */
  const FIRST_BYTE: Kdf := (password: seq<byte>) => Some(RepeatedKey(if password == [] then 0 else password[0]))

  function Keyed256(b: byte): Encryptor {
    Encryptor(Some(Aes256Gcm), RepeatedKey(b))
  }

  lemma MarkOfKeyed(b: byte)
    ensures Mark(Keyed256(b)).Some? && Mark(Keyed256(b)).value[0] == b
  {
  }

  lemma KeysApart(b: byte, c: byte)
    requires b != c
    ensures Mark(Keyed256(b)) != Mark(Keyed256(c))
  {
    MarkOfKeyed(b);
    MarkOfKeyed(c);
  }

  /** The pragma that sets a raw key of one character. */
  function RawKey(c: char8): Event {
    Event.Configure(Command(KEY, ['r', '\'', c, '\'']))
  }

  const NULL_CIPHER := Event.Configure(Command(CIPHER, "null"))

  lemma RawKeyMeans(c: char8)
    ensures Meaning(['r', '\'', c, '\'']) == Password.Password([c as int])
  {
    assert Body(['r', '\'', c, '\'']) == [c];
  }

  /** An empty database file, encrypted under the key of zeros. */
  const START := Store(Config(false, Keyed256(0), BLANK), File([], 0))

  function PageOne(n: nonce): Event {
    Event.WritePage(1, Zeros(512), n)
  }

  ghost function MapOf(es: seq<Event>): Logical<Encryptor>
    requires AllFit(512, es)
  {
    MapRun(KEYED_TAG, FIRST_BYTE, 512, START, Untouched(START.file), es)
  }

  function StateOf(es: seq<Event>): Store {
    StoreRun(KEYED_TAG, FIRST_BYTE, 512, START, es)
  }

  /** Where a run has got to: its settings, and the settings page 1 is stored under, if it is. */
  ghost predicate At(es: seq<Event>, cfg: Config, page: Option<Encryptor>) {
    && AllFit(512, es) && StateOf(es).config == cfg
    && (page.Some? ==> 1 in MapOf(es).pages && MapOf(es).pages[1].key == page.value)
  }

  lemma OneMore(es: seq<Event>, e: Event)
    requires AllFit(512, es) && Fits(512, e)
    ensures AllFit(512, es + [e])
    ensures StateOf(es + [e]) == StoreStep(KEYED_TAG, FIRST_BYTE, 512, StateOf(es), e)
    ensures MapOf(es + [e]) == MapStep(KEYED_TAG, 512, MapOf(es), StateOf(es).config, e)
  {
    assert (es + [e])[..|es|] == es;
  }

  lemma Enter(es: seq<Event>, cfg: Config, page: Option<Encryptor>)
    requires At(es, cfg, page) && !cfg.transform
    ensures At(es + [ENTER], Config(true, cfg.current, cfg.current), page)
  {
    OneMore(es, ENTER);
  }

  lemma Leave(es: seq<Event>, cfg: Config, page: Option<Encryptor>)
    requires At(es, cfg, page) && cfg.transform
    ensures At(es + [LEAVE], Config(false, cfg.transformation, cfg.transformation), page)
  {
    OneMore(es, LEAVE);
  }

  lemma NewKey(es: seq<Event>, cfg: Config, page: Option<Encryptor>, c: char8)
    requires At(es, cfg, page) && cfg.transform && cfg.transformation.cipher == Some(Aes256Gcm)
    ensures At(es + [RawKey(c)], cfg.(transformation := Keyed256(c as int)), page)
  {
    RawKeyMeans(c);
    OneMore(es, RawKey(c));
  }

  lemma WriteOne(es: seq<Event>, cfg: Config, page: Option<Encryptor>, n: nonce)
    requires At(es, cfg, page)
    ensures At(es + [PageOne(n)], cfg, Some(cfg.Writer()))
  {
    OneMore(es, PageOne(n));
  }

  lemma NoCipher(es: seq<Event>, cfg: Config, page: Option<Encryptor>)
    requires At(es, cfg, page) && cfg.transform
    ensures At(es + [NULL_CIPHER], cfg.(transformation := cfg.transformation.(cipher := None)), page)
  {
    OneMore(es, NULL_CIPHER);
  }

  lemma Lost(es: seq<Event>, cfg: Config, page: Encryptor)
    requires At(es, cfg, Some(page)) && !cfg.transform && page.cipher.Some? && Mark(page) != Mark(cfg.current)
    ensures !Returned(KEYED_TAG, 512, StateOf(es), 1, MapOf(es).pages[1])
    ensures ReadAt(KEYED_TAG, 512, StateOf(es), 1).ok <==> cfg.current.cipher.None?
  {
    KeyedTagIsSound();
    RunTracks(KEYED_TAG, FIRST_BYTE, 512, START, Untouched(START.file), es);
    KeyedTagReturned(512, StateOf(es), MapOf(es), 1);
    if cfg.current.cipher.None? {
      PlainRead(KEYED_TAG, 512, StateOf(es), MapOf(es), 1);
    } else {
      ForeignIsNotReturned(KEYED_TAG, 512, StateOf(es), MapOf(es), 1);
    }
  }

  /** Page 1 written, then a phase to a new key that does not rewrite it. */
  function SkippingRun(n: nonce): seq<Event> {
    [] + [PageOne(n)] + [ENTER] + [RawKey('A')] + [LEAVE]
  }

  lemma SkippedPageExample(n: nonce)
    ensures At(SkippingRun(n), Config(false, Keyed256(65), Keyed256(65)), Some(Keyed256(0)))
    ensures !ReadAt(KEYED_TAG, 512, StateOf(SkippingRun(n)), 1).ok
  {
    var e1 := [] + [PageOne(n)];
    WriteOne([], START.config, None, n);
    Enter(e1, START.config, Some(Keyed256(0)));
    NewKey(e1 + [ENTER], Config(true, Keyed256(0), Keyed256(0)), Some(Keyed256(0)), 'A');
    Leave(e1 + [ENTER] + [RawKey('A')], Config(true, Keyed256(0), Keyed256(65)), Some(Keyed256(0)));
    KeysApart(0, 65);
    Lost(SkippingRun(n), Config(false, Keyed256(65), Keyed256(65)), Keyed256(0));
  }

  /** Page 1 written in a phase, under a key that is replaced before the phase is left. */
  function ReplacingRun(n: nonce): seq<Event> {
    [] + [ENTER] + [RawKey('A')] + [PageOne(n)] + [RawKey('B')] + [LEAVE]
  }

  lemma ReplacedKeyExample(n: nonce)
    ensures At(ReplacingRun(n), Config(false, Keyed256(66), Keyed256(66)), Some(Keyed256(65)))
    ensures !ReadAt(KEYED_TAG, 512, StateOf(ReplacingRun(n)), 1).ok
  {
    var e1 := [] + [ENTER];
    var e2 := e1 + [RawKey('A')];
    var e3 := e2 + [PageOne(n)];
    Enter([], START.config, None);
    NewKey(e1, Config(true, Keyed256(0), Keyed256(0)), None, 'A');
    WriteOne(e2, Config(true, Keyed256(0), Keyed256(65)), None, n);
    NewKey(e3, Config(true, Keyed256(0), Keyed256(65)), Some(Keyed256(65)), 'B');
    Leave(e3 + [RawKey('B')], Config(true, Keyed256(0), Keyed256(66)), Some(Keyed256(65)));
    KeysApart(65, 66);
    Lost(ReplacingRun(n), Config(false, Keyed256(66), Keyed256(66)), Keyed256(65));
  }

  /** Page 1 written, then a decrypting phase that does not rewrite it. */
  function DecryptingRun(n: nonce): seq<Event> {
    [] + [PageOne(n)] + [ENTER] + [NULL_CIPHER] + [LEAVE]
  }

  /** The read goes through, and returns something else than the page. */
  lemma SkippedDecryptionExample(n: nonce)
    ensures At(DecryptingRun(n), Config(false, Keyed256(0).(cipher := None), Keyed256(0).(cipher := None)),
               Some(Keyed256(0)))
    ensures ReadAt(KEYED_TAG, 512, StateOf(DecryptingRun(n)), 1).ok
    ensures !Returned(KEYED_TAG, 512, StateOf(DecryptingRun(n)), 1, MapOf(DecryptingRun(n)).pages[1])
  {
    var e1 := [] + [PageOne(n)];
    var plain := Keyed256(0).(cipher := None);
    WriteOne([], START.config, None, n);
    Enter(e1, START.config, Some(Keyed256(0)));
    NoCipher(e1 + [ENTER], Config(true, Keyed256(0), Keyed256(0)), Some(Keyed256(0)));
    Leave(e1 + [ENTER] + [NULL_CIPHER], Config(true, Keyed256(0), plain), Some(Keyed256(0)));
    Lost(DecryptingRun(n), Config(false, plain, plain), Keyed256(0));
  }
}
