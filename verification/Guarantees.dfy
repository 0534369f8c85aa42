/**
 What the file guarantees whatever cipher is plugged in. A page is returned under every sound cipher
 exactly if it was last written under settings that act like the read side's; otherwise there
 is a sound cipher that loses it.
 */
module Guarantees {
  import opened Bytes
  import opened PageFile
  import opened PageStore
  import opened PageInvariants
  import opened Crypt
  import opened CryptConfig
  import opened CryptRuns
  import opened PhaseOutcome

  // ---- The course of a run does not depend on the cipher ----

  /** Ciphers that fail to seal in the same cases. */
  ghost predicate FailsLike(b: Aead, a: Aead) {
    forall alg, key, iv, text :: b.seal(alg, key, iv, text).Some? <==> a.seal(alg, key, iv, text).Some?
  }

  lemma SameSettings(a: Aead, b: Aead, kdf: Kdf, P: nat, s: Store, es: seq<Event>)
    ensures StoreRun(b, kdf, P, s, es).config == StoreRun(a, kdf, P, s, es).config
  {
    SettingsFollowPragmas(a, kdf, P, s, es);
    SettingsFollowPragmas(b, kdf, P, s, es);
  }

  lemma SameAcceptance(a: Aead, b: Aead, k: nat, page: seq<byte>, n: nonce, enc: Encryptor)
    requires FailsLike(b, a) && |page| >= MIN_PAGE
    ensures Accepted(CryptCodec(b), k, page, n, enc) == Accepted(CryptCodec(a), k, page, n, enc)
  {
  }

  /** The same pages are written, with the same bytes under the same settings. */
  lemma {:induction false} SameMap(a: Aead, b: Aead, kdf: Kdf, P: nat, s: Store, l: Logical<Encryptor>, es: seq<Event>)
    requires FailsLike(b, a) && P >= MIN_PAGE && AllFit(P, es) && PagesSized(P, l)
    ensures MapRun(b, kdf, P, s, l, es) == MapRun(a, kdf, P, s, l, es)
  {
    if es != [] {
      var n := |es| - 1;
      SameMap(a, b, kdf, P, s, l, es[..n]);
      SameSettings(a, b, kdf, P, s, es[..n]);
      if es[n].WritePage? {
        SameAcceptance(a, b, es[n].k, es[n].page, es[n].n, StoreRun(a, kdf, P, s, es[..n]).config.Writer());
      }
    }
  }

  // ---- A cipher that loses a page ----

  function Masked(x: seq<byte>): (y: seq<byte>)
    ensures |y| == |x| && forall i :: 0 <= i < |x| ==> y[i] == 255 - x[i]
  {
    seq(|x|, i requires 0 <= i < |x| => 255 - x[i])
  }

  lemma MaskedTwice(x: seq<byte>)
    ensures Masked(Masked(x)) == x
  {
  }

  /** Unsealing complements the text. */
  ghost predicate Masks(a: Aead) {
    forall alg, key, iv, tag, text :: a.unseal(alg, key, iv, tag, text).page == Masked(text)
  }

  lemma UnsealedByte(a: Aead, enc: Encryptor, stored: seq<byte>)
    requires Masks(a) && enc.cipher.Some? && |stored| > RESERVE_SIZE
    ensures |DecodePage(a, enc, stored).page| == |stored| && DecodePage(a, enc, stored).page[0] == 255 - stored[0]
  {
  }

  lemma SameFirstByte(enc: Encryptor, x: seq<byte>, y: seq<byte>)
    requires SameUnder(enc, x, y) && |x| > RESERVE_SIZE
    ensures x[0] == y[0]
  {
    assert x[0] == x[..TrailerAt(x)][0] && y[0] == y[..TrailerAt(y)][0];
  }

  /** Under such a cipher what is stored for an encrypted page differs from the page. */
  lemma MaskedDiffers(a: Aead, P: nat, store: seq<byte>, k: nat, w: Written<Encryptor>)
    requires Masks(a) && w.key.cipher.Some? && HoldsAt(CryptCodec(a), P, store, k, w)
    ensures !ReadsBack(Slot(store, k, P), w)
  {
    var (h, stored) := (HeadOf(k), Slot(store, k, P));
    UnsealedByte(a, w.key, stored[h..]);
    SameFirstByte(w.key, w.bytes[h..], DecodePage(a, w.key, stored[h..]).page);
    assert w.bytes[..P - 32][h] == w.bytes[h] && stored[..P - 32][h] == stored[h];
  }

  lemma ReadBody(a: Aead, P: nat, s: Store, k: nat)
    requires P >= MIN_PAGE && Offset(k, P) + P <= |s.file.store|
    ensures |ReadAt(a, P, s, k).data| >= HeadOf(k)
    ensures ReadAt(a, P, s, k).data[HeadOf(k)..]
         == DecodePage(a, s.config.current, Slot(s.file.store, k, P)[HeadOf(k)..]).page
  {
    ReadOutcome(CryptCodec(a), P, s.file, k, s.config.current, s.config.Writer());
  }

  /** And a page stored plainly does not survive being unsealed. */
  lemma PlainIsMasked(a: Aead, P: nat, s: Store, k: nat, w: Written<Encryptor>)
    requires Masks(a) && HoldsAt(CryptCodec(a), P, s.file.store, k, w)
    requires w.key.cipher.None? && s.config.current.cipher.Some?
    ensures !ReadsBack(ReadAt(a, P, s, k).data, w)
  {
    var (h, data, stored) := (HeadOf(k), ReadAt(a, P, s, k).data, Slot(s.file.store, k, P));
    ReadBody(a, P, s, k);
    UnsealedByte(a, s.config.current, stored[h..]);
    assert w.bytes[h..] == stored[h..];
    assert data[h..][0] != w.bytes[h..][0];
  }

  /** The tag t for one algorithm and key, u for all others. */
  function Label(mine: Option<(Algorithm, cipherkey)>, t: tagbytes, u: tagbytes, alg: Algorithm, key: cipherkey)
    : tagbytes
  {
    if mine == Some((alg, key)) then t else u
  }

  /** Complements the text, and seals exactly where a does. */
  function Labelling(a: Aead, mine: Option<(Algorithm, cipherkey)>, t: tagbytes, u: tagbytes): Aead {
    Aead(
      (alg: Algorithm, key: cipherkey, iv: ivbytes, text: seq<byte>) =>
        if a.seal(alg, key, iv, text).None? then None else Some(Sealed(Masked(text), Label(mine, t, u, alg, key))),
      (alg: Algorithm, key: cipherkey, iv: ivbytes, tag: tagbytes, text: seq<byte>) =>
        Decoded(Masked(text), tag == Label(mine, t, u, alg, key)))
  }

  lemma LabellingIsSound(a: Aead, mine: Option<(Algorithm, cipherkey)>, t: tagbytes, u: tagbytes)
    ensures Sound(Labelling(a, mine, t, u)) && FailsLike(Labelling(a, mine, t, u), a)
  {
    forall text { MaskedTwice(text); }
  }

  /** Such a cipher authenticates by the tag alone. */
  lemma LabelDecides(a: Aead, mine: Option<(Algorithm, cipherkey)>, t: tagbytes, u: tagbytes, enc: Encryptor,
                     stored: seq<byte>)
    requires enc.cipher.Some? && |stored| >= RESERVE_SIZE
    ensures DecodePage(Labelling(a, mine, t, u), enc, stored).ok
       <==> Tag(stored) == if mine == Effective(enc) then t else u
  {
    var (alg, key) := (enc.cipher.value, UsedKey(enc.cipher.value, enc.key));
    assert Label(mine, t, u, alg, key) == if mine == Effective(enc) then t else u;
  }

  function OtherTag(t: tagbytes): (u: tagbytes)
    ensures u != t
  {
    assert t[0 := 255 - t[0]][0] != t[0];
    t[0 := 255 - t[0]]
  }

  /** For page w and settings unlike its own: a cipher whose tag under those settings is not in any slot holding w. */
  function Rival(a: Aead, now: Encryptor, w: Written<Encryptor>): Aead
    requires |w.bytes| >= MIN_PAGE
  {
    Labelling(a, Effective(now), OtherTag(Tag(w.bytes)), Tag(w.bytes))
  }

  lemma TagOfTail(page: seq<byte>, h: nat)
    requires h + RESERVE_SIZE <= |page|
    ensures Tag(page[h..]) == Tag(page)
  {
  }

  lemma RivalIsForeign(a: Aead, P: nat, store: seq<byte>, k: nat, w: Written<Encryptor>, now: Encryptor)
    requires |w.bytes| >= MIN_PAGE && HoldsAt(CryptCodec(Rival(a, now, w)), P, store, k, w)
    requires !Alike(w.key, now)
    ensures Foreign(Rival(a, now, w), now, P, store, k, w)
  {
    var (c, h) := (Rival(a, now, w), HeadOf(k));
    var stored := Slot(store, k, P)[h..];
    assert DecodesTo(CryptCodec(c), w.key, stored, w.bytes[h..]);
    if now.cipher.None? {
      MaskedDiffers(c, P, store, k, w);
    } else {
      var (mine, t) := (Effective(now), Tag(w.bytes));
      TagOfTail(w.bytes, h);
      if w.key.cipher.None? {
        assert stored == w.bytes[h..];
      } else {
        LabelDecides(a, mine, OtherTag(t), t, w.key, stored);
      }
      LabelDecides(a, mine, OtherTag(t), t, now, stored);
    }
  }

  // ---- The guarantee, exactly ----

  /** Another cipher with the same failures tracks the same pages, under the same settings. */
  lemma TrackedUnder(a: Aead, b: Aead, kdf: Kdf, P: nat, s: Store, es: seq<Event>)
    requires Sound(b) && FailsLike(b, a) && P >= MIN_PAGE && AllFit(P, es)
    ensures Tracks(b, P, StoreRun(b, kdf, P, s, es), MapRun(a, kdf, P, s, Untouched(s.file), es))
    ensures StoreRun(b, kdf, P, s, es).config == StoreRun(a, kdf, P, s, es).config
  {
    RunTracks(b, kdf, P, s, Untouched(s.file), es);
    SameMap(a, b, kdf, P, s, Untouched(s.file), es);
    SameSettings(a, b, kdf, P, s, es);
  }

  lemma ReturnedUnder(a: Aead, b: Aead, kdf: Kdf, P: nat, s: Store, es: seq<Event>, k: nat)
    requires Sound(b) && FailsLike(b, a) && P >= MIN_PAGE && AllFit(P, es)
    requires k in MapRun(a, kdf, P, s, Untouched(s.file), es).pages
    ensures var (w, cfg) := (MapRun(a, kdf, P, s, Untouched(s.file), es).pages[k], StoreRun(a, kdf, P, s, es).config);
            Alike(w.key, cfg.current) ==>
              (Returned(b, P, StoreRun(b, kdf, P, s, es), k, w) <==> HeaderPasses(cfg.Writer(), k, w))
  {
    var (l, cfg) := (MapRun(a, kdf, P, s, Untouched(s.file), es), StoreRun(a, kdf, P, s, es).config);
    TrackedUnder(a, b, kdf, P, s, es);
    if Alike(l.pages[k].key, cfg.current) {
      ReturnedIff(b, P, StoreRun(b, kdf, P, s, es), l, k);
    }
  }

  /** Page k is returned after the run under every sound cipher that fails to seal where a does. */
  ghost predicate Guaranteed(a: Aead, kdf: Kdf, P: nat, s: Store, es: seq<Event>, k: nat, w: Written<Encryptor>) {
    forall b: Aead :: Sound(b) && FailsLike(b, a) ==> Returned(b, P, StoreRun(b, kdf, P, s, es), k, w)
  }

  /**
   After every run of accesses, pragmas and phases: a page is returned whatever the cipher if and only
   if it was last written under settings that act like the read side's, and page 0's reserve byte passes.
   */
  lemma GuaranteedIff(a: Aead, kdf: Kdf, P: nat, s: Store, es: seq<Event>, k: nat)
    requires Sound(a) && P >= MIN_PAGE && AllFit(P, es)
    requires k in MapRun(a, kdf, P, s, Untouched(s.file), es).pages
    ensures var (w, cfg) := (MapRun(a, kdf, P, s, Untouched(s.file), es).pages[k], StoreRun(a, kdf, P, s, es).config);
            (Guaranteed(a, kdf, P, s, es, k, w) <==> Alike(w.key, cfg.current) && HeaderPasses(cfg.Writer(), k, w))
  {
    var (l, cfg) := (MapRun(a, kdf, P, s, Untouched(s.file), es), StoreRun(a, kdf, P, s, es).config);
    var w := l.pages[k];
    if Alike(w.key, cfg.current) {
      forall b: Aead | Sound(b) && FailsLike(b, a)
        ensures Returned(b, P, StoreRun(b, kdf, P, s, es), k, w) <==> HeaderPasses(cfg.Writer(), k, w)
      {
        ReturnedUnder(a, b, kdf, P, s, es, k);
      }
    } else {
      var b := Rival(a, cfg.current, w);
      LabellingIsSound(a, Effective(cfg.current), OtherTag(Tag(w.bytes)), Tag(w.bytes));
      TrackedUnder(a, b, kdf, P, s, es);
      var s' := StoreRun(b, kdf, P, s, es);
      assert HoldsAt(CryptCodec(b), P, s'.file.store, k, w);
      RivalIsForeign(a, P, s'.file.store, k, w, cfg.current);
      ForeignIsNotReturned(b, P, s', l, k);
    }
  }
}
