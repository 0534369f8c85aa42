/**
 Page encryption: a body under authenticated encryption (sections 7.1 and 7.2 of NIST SP 800-38D),
 followed by a trailer of a 12-byte IV, a 16-byte tag and 4 bytes left alone.
 */
module Crypt {
  import opened Bytes
  import opened ByteFile
  import opened PageFile

  const RESERVE_SIZE: nat := 32

  datatype Algorithm = Aes256Gcm | Aes192Gcm | Aes128Gcm

  type keybytes = s: seq<byte> | |s| == 32 witness Zeros(32)
  type ivbytes = s: seq<byte> | |s| == 12 witness Zeros(12)
  type tagbytes = s: seq<byte> | |s| == 16 witness Zeros(16)

  datatype Encryptor = Encryptor(cipher: Option<Algorithm>, key: keybytes)

  /** Key lengths of section 5 of FIPS 197, in bytes. */
  function KeyLength(alg: Algorithm): (n: nat)
    ensures 16 <= n <= 32
  {
    match alg
    case Aes256Gcm => 32
    case Aes192Gcm => 24
    case Aes128Gcm => 16
  }

  type cipherkey = s: seq<byte> | 16 <= |s| <= 32 witness Zeros(16)

  /** A cipher reads only as much of the key as it is long. */
  function UsedKey(alg: Algorithm, key: keybytes): cipherkey {
    key[..KeyLength(alg)]
  }

  /** What the library gets to see of some settings: nothing at all without a cipher. */
  function Effective(enc: Encryptor): Option<(Algorithm, cipherkey)> {
    match enc.cipher
    case None => None
    case Some(alg) => Some((alg, UsedKey(alg, enc.key)))
  }

  /** Settings that differ at most in key bytes no cipher looks at. */
  predicate Alike(e1: Encryptor, e2: Encryptor) {
    Effective(e1) == Effective(e2)
  }

  datatype Sealed = Sealed(text: seq<byte>, tag: tagbytes)

  /** The cipher library: sealing may fail; unsealing overwrites the text even when the tag is wrong. */
  datatype Aead = Aead(
    seal: (Algorithm, cipherkey, ivbytes, seq<byte>) -> Option<Sealed>,
    unseal: (Algorithm, cipherkey, ivbytes, tagbytes, seq<byte>) -> Decoded)

  /** All that is assumed of it: unsealing undoes a successful sealing, and lengths are kept. */
  ghost predicate Sound(a: Aead) {
    && (forall alg, key, iv, text :: a.seal(alg, key, iv, text).Some? ==>
          var s := a.seal(alg, key, iv, text).value;
          |s.text| == |text| && a.unseal(alg, key, iv, s.tag, s.text) == Decoded(text, true))
    && (forall alg, key, iv, tag, text :: |a.unseal(alg, key, iv, tag, text).page| == |text|)
  }

  // ---- The counter in the IV ----

  const WRAP: nat := 0x1_0000_0000

  /** A word in memory, least significant byte first. */
  function Le(b: seq<byte>): nat {
    if b == [] then 0
    else
      var low: nat := b[0];
      low + 0x100 * Le(b[1..])
  }

  function ToLe(v: nat, n: nat): (b: seq<byte>)
    ensures |b| == n
  {
    if n == 0 then [] else [v % 0x100] + ToLe(v / 0x100, n - 1)
  }

  /** Adding one to a 32-bit word in memory on a little-endian machine; four bytes drop the carry. */
  function Increment(b: seq<byte>): (r: seq<byte>)
    requires |b| == 4
    ensures |r| == 4
  {
    ToLe(Le(b) + 1, 4)
  }

  /** A word in memory, most significant byte first. */
  function Be(b: seq<byte>): nat {
    if b == [] then 0
    else
      var low: nat := b[|b| - 1];
      low + 0x100 * Be(b[..|b| - 1])
  }

  function ToBe(v: nat, n: nat): (b: seq<byte>)
    ensures |b| == n
  {
    if n == 0 then [] else ToBe(v / 0x100, n - 1) + [v % 0x100]
  }

  function Reverse(b: seq<byte>): (r: seq<byte>)
    ensures |r| == |b|
  {
    if b == [] then [] else Reverse(b[1..]) + [b[0]]
  }

  /** The same on a big-endian machine: reverse, add in the machine's order, reverse. */
  function IncrementBigEndian(b: seq<byte>): (r: seq<byte>)
    requires |b| == 4
    ensures |r| == 4
  {
    Reverse(ToBe(Be(Reverse(b)) + 1, 4))
  }

  lemma {:induction false} BeOfReverse(b: seq<byte>)
    ensures Be(Reverse(b)) == Le(b)
  {
    if b != [] {
      BeOfReverse(b[1..]);
      assert Reverse(b)[..|b| - 1] == Reverse(b[1..]);
    }
  }

  lemma {:induction false} ReverseSnoc(b: seq<byte>, x: byte)
    ensures Reverse(b + [x]) == [x] + Reverse(b)
  {
    if b != [] {
      ReverseSnoc(b[1..], x);
      assert (b + [x])[1..] == b[1..] + [x];
    }
  }

  lemma {:induction false} ReverseOfToBe(v: nat, n: nat)
    ensures Reverse(ToBe(v, n)) == ToLe(v, n)
  {
    if n > 0 {
      ReverseOfToBe(v / 0x100, n - 1);
      ReverseSnoc(ToBe(v / 0x100, n - 1), v % 0x100);
    }
  }

  /** Both machines store the same bytes. */
  lemma EndiannessIrrelevant(b: seq<byte>)
    requires |b| == 4
    ensures IncrementBigEndian(b) == Increment(b)
  {
    BeOfReverse(b);
    ReverseOfToBe(Le(b) + 1, 4);
  }

  lemma LeStep(v: nat, n: nat)
    requires n > 0
    ensures Le(ToLe(v, n)) == v % 0x100 + 0x100 * Le(ToLe(v / 0x100, n - 1))
  {
    assert ToLe(v, n)[1..] == ToLe(v / 0x100, n - 1);
  }

  lemma SplitWord(v: nat)
    ensures var (v1, v2, v3) := (v / 0x100, v / 0x100 / 0x100, v / 0x100 / 0x100 / 0x100);
            v % WRAP == v % 0x100 + 0x100 * (v1 % 0x100 + 0x100 * (v2 % 0x100 + 0x100 * (v3 % 0x100)))
  {
  }

  /** Four bytes hold a number modulo 2^32. */
  lemma LeRoundTrip(v: nat)
    ensures Le(ToLe(v, 4)) == v % WRAP
  {
    LeStep(v, 4);
    LeStep(v / 0x100, 3);
    LeStep(v / 0x100 / 0x100, 2);
    LeStep(v / 0x100 / 0x100 / 0x100, 1);
    SplitWord(v);
  }

  lemma {:induction false} LeBytes(b: seq<byte>)
    requires |b| == 4
    ensures Le(b) == b[0] as int + 0x100 * (b[1] as int) + 0x1_0000 * (b[2] as int) + 0x100_0000 * (b[3] as int)
  {
    assert Le(b) == b[0] as int + 0x100 * Le(b[1..]);
    assert Le(b[1..]) == b[1] as int + 0x100 * Le(b[1..][1..]);
    assert Le(b[1..][1..]) == b[2] as int + 0x100 * Le(b[1..][1..][1..]);
    assert Le(b[1..][1..][1..]) == b[3] as int;
  }

  lemma LeBound(b: seq<byte>)
    requires |b| == 4
    ensures Le(b) < WRAP
  {
    LeBytes(b);
  }

  /** The IV of the next write: fresh random bytes and the counter of the old IV plus one. */
  function NextIv(iv: ivbytes, n: nonce): ivbytes {
    n + Increment(iv[8..])
  }

  // ---- The page transformation ----

  function TrailerAt(page: seq<byte>): nat
    requires |page| >= RESERVE_SIZE
  {
    |page| - RESERVE_SIZE
  }

  function Iv(page: seq<byte>): ivbytes
    requires |page| >= RESERVE_SIZE
  {
    page[TrailerAt(page)..TrailerAt(page) + 12]
  }

  function Tag(page: seq<byte>): tagbytes
    requires |page| >= RESERVE_SIZE
  {
    page[TrailerAt(page) + 12..TrailerAt(page) + 28]
  }

  function EncodePage(a: Aead, enc: Encryptor, page: seq<byte>, n: nonce): Option<seq<byte>> {
    if enc.cipher.None? then Some(page)
    else if |page| < RESERVE_SIZE then None
    else
      var t := TrailerAt(page);
      var iv := NextIv(Iv(page), n);
      match a.seal(enc.cipher.value, UsedKey(enc.cipher.value, enc.key), iv, page[..t])
      case None => None
      case Some(s) => Some(s.text + iv + s.tag + page[t + 28..])
  }

  function DecodePage(a: Aead, enc: Encryptor, page: seq<byte>): Decoded {
    if enc.cipher.None? then Decoded(page, true)
    else if |page| < RESERVE_SIZE then Decoded(page, false)
    else
      var t := TrailerAt(page);
      var d := a.unseal(enc.cipher.value, UsedKey(enc.cipher.value, enc.key), Iv(page), Tag(page), page[..t]);
      Decoded(d.page + page[t..], d.ok)
  }

  predicate CheckReserveSize(enc: Encryptor, size: byte) {
    enc.cipher.None? || size == RESERVE_SIZE
  }

  /** Equal up to the IV and the tag, and equal altogether without a cipher. */
  predicate SameUnder(enc: Encryptor, x: seq<byte>, y: seq<byte>) {
    && |x| == |y|
    && if enc.cipher.None? then x == y
       else |x| >= RESERVE_SIZE && x[..TrailerAt(x)] == y[..TrailerAt(y)] && x[|x| - 4..] == y[|y| - 4..]
  }

  function CryptCodec(a: Aead): Codec<Encryptor> {
    Codec((enc, page, n) => EncodePage(a, enc, page, n),
          (enc, page) => DecodePage(a, enc, page),
          CheckReserveSize,
          SameUnder)
  }

  /** Key lengths, and where a page keeps its IV and its tag. */
  lemma Figures(page: seq<byte>)
    requires |page| >= 32
    ensures KeyLength(Aes256Gcm) == 32 && KeyLength(Aes192Gcm) == 24 && KeyLength(Aes128Gcm) == 16
    ensures Iv(page) == page[|page| - 32..|page| - 20] && Tag(page) == page[|page| - 20..|page| - 4]
  {
  }

  /** Every setting accepts exactly a reserve byte of 32, and without a cipher any. */
  lemma AcceptedReserve(a: Aead, key: keybytes, alg: Algorithm, size: byte)
    ensures CryptCodec(a).accepts(Encryptor(Some(alg), key), size) <==> size == 32
    ensures CryptCodec(a).accepts(Encryptor(None, key), size)
  {
  }

  /** A stored page is unsealed with its own IV and tag, and its last 32 bytes stay; shorter ones throw. */
  lemma DecodedLayout(a: Aead, alg: Algorithm, key: keybytes, page: seq<byte>)
    ensures |page| < 32 ==> !DecodePage(a, Encryptor(Some(alg), key), page).ok
    ensures |page| >= 32 ==>
              var t := |page| - 32;
              var used: cipherkey := key[..match alg case Aes256Gcm => 32 case Aes192Gcm => 24 case Aes128Gcm => 16];
              var d := a.unseal(alg, used, page[t..t + 12], page[t + 12..t + 28], page[..t]);
              DecodePage(a, Encryptor(Some(alg), key), page) == Decoded(d.page + page[t..], d.ok)
    ensures DecodePage(a, Encryptor(None, key), page) == Decoded(page, true)
  {
  }

  /** The shape of an encrypted page. */
  lemma EncodedLayout(a: Aead, enc: Encryptor, page: seq<byte>, n: nonce)
    requires Sound(a) && enc.cipher.Some? && EncodePage(a, enc, page, n).Some?
    ensures var stored := EncodePage(a, enc, page, n).value;
            var t := TrailerAt(page);
            var s := a.seal(enc.cipher.value, UsedKey(enc.cipher.value, enc.key), NextIv(Iv(page), n), page[..t]).value;
            && |stored| == |page| && stored[..t] == s.text
            && Iv(stored) == NextIv(Iv(page), n) && Tag(stored) == s.tag
            && stored[|page| - 4..] == page[|page| - 4..]
  {
  }

  /** The same in figures: ciphertext, eight random bytes, the counter plus one, the tag, the last four bytes. */
  lemma EncodedBytes(a: Aead, alg: Algorithm, key: keybytes, page: seq<byte>, n: nonce)
    requires Sound(a)
    ensures EncodePage(a, Encryptor(None, key), page, n) == Some(page)
    ensures |page| < 32 ==> EncodePage(a, Encryptor(Some(alg), key), page, n).None?
    ensures match EncodePage(a, Encryptor(Some(alg), key), page, n)
            case None => true
            case Some(stored) =>
              && |stored| == |page| >= 32
              && var t := |page| - 32;
                 var used: cipherkey := key[..match alg case Aes256Gcm => 32 case Aes192Gcm => 24 case Aes128Gcm => 16];
                 && a.seal(alg, used, stored[t..t + 12], page[..t]) == Some(Sealed(stored[..t], stored[t + 12..t + 28]))
                 && stored[t..t + 8] == n
                 && Le(stored[t + 8..t + 12]) == (Le(page[t + 8..t + 12]) + 1) % 0x1_0000_0000
                 && stored[t + 28..] == page[t + 28..]
  {
    var enc := Encryptor(Some(alg), key);
    if EncodePage(a, enc, page, n).Some? {
      EncodedLayout(a, enc, page, n);
      var (t, iv) := (|page| - 32, Iv(page));
      var stored := EncodePage(a, enc, page, n).value;
      assert page[t + 8..t + 12] == iv[8..] && stored[t + 8..t + 12] == NextIv(iv, n)[8..] == Increment(iv[8..]);
      assert stored[t..t + 8] == NextIv(iv, n)[..8];
      LeRoundTrip(Le(iv[8..]) + 1);
    }
  }

  lemma DecodingUndoesEncoding(a: Aead, enc: Encryptor, page: seq<byte>, n: nonce)
    requires Sound(a) && EncodePage(a, enc, page, n).Some?
    ensures var stored := EncodePage(a, enc, page, n).value;
            var d := DecodePage(a, enc, stored);
            |stored| == |page| && d.ok && |d.page| == |page| && SameUnder(enc, page, d.page)
  {
    if enc.cipher.Some? {
      EncodedLayout(a, enc, page, n);
      var stored := EncodePage(a, enc, page, n).value;
      var t := TrailerAt(page);
      assert DecodePage(a, enc, stored) == Decoded(page[..t] + stored[t..], true);
      assert (page[..t] + stored[t..])[|page| - 4..] == stored[|page| - 4..];
    }
  }

  lemma CryptCodecInverse(a: Aead)
    requires Sound(a)
    ensures Inverse(CryptCodec(a)) && KeepsLength(CryptCodec(a))
  {
    var c := CryptCodec(a);
    forall enc: Encryptor, page: seq<byte>, n: nonce | c.encode(enc, page, n).Some?
      ensures var stored := c.encode(enc, page, n).value;
              var d := c.decode(enc, stored);
              |stored| == |page| && d.ok && |d.page| == |page| && c.same(enc, page, d.page)
    {
      DecodingUndoesEncoding(a, enc, page, n);
    }
  }
}
