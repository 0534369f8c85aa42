/** The encrypting subclass: its settings as fields, and its page overrides working in place. */
module CryptFile {
  import opened Bytes
  import opened PageFile
  import opened Spans
  import opened KeyLiteral
  import opened Crypt
  import opened CryptConfig

  /** memcpy into a buffer. */
  method Overwrite(buffer: array<byte>, at: nat, bytes: seq<byte>)
    requires at + |bytes| <= buffer.Length
    modifies buffer
    ensures buffer[..] == Patch(old(buffer[..]), bytes, at)
  {
    var i := 0;
    while i < |bytes|
      invariant 0 <= i <= |bytes|
      invariant forall j :: 0 <= j < i ==> buffer[at + j] == bytes[j]
      invariant forall j :: 0 <= j < buffer.Length && !(at <= j < at + i) ==> buffer[j] == old(buffer[j])
    {
      buffer[at + i] := bytes[i];
      i := i + 1;
    }
  }

  lemma IvSteps(s: seq<byte>, first: nat, n: nonce, counter: seq<byte>)
    requires first + 12 <= |s| && |counter| == 4
    ensures Patch(Patch(s, n, first), counter, first + 8) == Patch(s, n + counter, first)
    ensures Patch(s, n, first)[first + 8..first + 12] == s[first..first + 12][8..]
  {
  }

  method NextCounter(counter: seq<byte>, bigEndian: bool) returns (next: seq<byte>)
    requires |counter| == 4
    ensures next == Increment(counter)
  {
    EndiannessIrrelevant(counter);
    next := if bigEndian then IncrementBigEndian(counter) else Increment(counter);
  }

  /** Fresh random bytes, then the 32-bit counter behind them plus one, in the machine's byte order. */
  method GenerateIv(buffer: array<byte>, iv: Span, n: nonce, bigEndian: bool)
    requires iv.Valid() && iv.Size() == 12 && iv.last <= buffer.Length
    modifies buffer
    ensures buffer[..] == Patch(old(buffer[..]), NextIv(old(buffer[iv.first..iv.last]), n), iv.first)
  {
    ghost var before := buffer[..];
    ghost var bytes: ivbytes := before[iv.first..iv.last];
    Overwrite(buffer, iv.first, n);
    var counter := buffer[iv.last - 4..iv.last];
    IvSteps(before, iv.first, n, Increment(bytes[8..]));
    assert counter == bytes[8..];
    var next := NextCounter(counter, bigEndian);
    Overwrite(buffer, iv.last - 4, next);
  }

  /** Where the fields of a page lie in the buffer that holds it. */
  lemma PageFields(s: seq<byte>, first: nat, last: nat)
    requires first + RESERVE_SIZE <= last <= |s|
    ensures var (page, t) := (s[first..last], last - RESERVE_SIZE);
            && s[first..t] == page[..TrailerAt(page)]
            && s[t..t + 12] == Iv(page)
            && s[t + 12..t + 28] == Tag(page)
  {
    var t := last - RESERVE_SIZE;
    SliceOfSlice(s, first, last, 0, t - first);
    SliceOfSlice(s, first, last, t - first, t - first + 12);
    SliceOfSlice(s, first, last, t - first + 12, t - first + 28);
  }

  /** A fresh IV in place leaves the body alone. */
  lemma FreshIv(s: seq<byte>, first: nat, last: nat, iv: ivbytes)
    requires first + RESERVE_SIZE <= last <= |s|
    ensures var t := last - RESERVE_SIZE;
            Patch(s, iv, t)[first..t] == s[first..t] && Patch(s, iv, t)[t..t + 12] == iv
  {
  }

  lemma PatchBefore(s: seq<byte>, x: seq<byte>, y: seq<byte>, at: nat)
    requires at + |x| + |y| <= |s|
    ensures Patch(Patch(s, y, at + |x|), x, at) == Patch(s, x + y, at)
  {
  }

  lemma PatchAfter(s: seq<byte>, x: seq<byte>, y: seq<byte>, at: nat)
    requires at + |x| + |y| <= |s|
    ensures Patch(Patch(s, x, at), y, at + |x|) == Patch(s, x + y, at)
  {
  }

  /** Patching the front of a stretch leaves its rest in place. */
  lemma PatchFront(s: seq<byte>, first: nat, last: nat, x: seq<byte>)
    requires first + |x| <= last <= |s|
    ensures Patch(s, x, first) == Patch(s, x + s[first..last][|x|..], first)
  {
    assert s[first..last][|x|..] == s[first + |x|..last];
  }

  lemma PatchSame(s: seq<byte>, first: nat, last: nat)
    requires first <= last <= |s|
    ensures Patch(s, s[first..last], first) == s
  {
  }

  class CryptFile {
    const aead: Aead
    const kdf: Kdf
    const bigEndian: bool
    var transform: bool
    var current: Encryptor
    var transformation: Encryptor

    ghost predicate Valid() {
      Sound(aead)
    }

    function Settings(): Config
      reads this
    {
      Config(transform, current, transformation)
    }

    method GenerateKey(value: text, enc: Encryptor) returns (enc': Encryptor, reply: Reply)
      ensures (enc', reply) == SetKey(kdf, enc, value)
    {
      var password := ParseKey(value);
      if !password.Password? {
        return enc, BadKey(password);
      }
      var key := kdf(password.bytes);
      if key.None? {
        return enc, KdfFailed;
      }
      return enc.(key := key.value), Okay;
    }

    /** The URI parameters configure the reading side before anything else. */
    constructor (aead: Aead, kdf: Kdf, bigEndian: bool, key: Option<text>, cipher: Option<text>)
      requires Sound(aead)
      ensures Valid() && this.aead == aead && this.kdf == kdf
      ensures Settings() == Config(false, UriSettings(kdf, key, cipher), BLANK)
    {
      this.aead, this.kdf, this.bigEndian := aead, kdf, bigEndian;
      transform, current, transformation := false, BLANK, BLANK;
      new;
      if key.Some? {
        var enc, _ := GenerateKey(key.value, current);
        current := enc;
      }
      if cipher.Some? {
        var (enc, _) := SetCipher(current, cipher.value);
        current := enc;
      }
    }

    /** The pragma branch of file_control. */
    method FileControl(name: text, value: text) returns (reply: Reply)
      modifies this
      ensures (Settings(), reply) == Pragma(kdf, old(Settings()), Command(name, value))
    {
      if name == KEY {
        if transform {
          transformation, reply := GenerateKey(value, transformation);
        } else {
          current, reply := GenerateKey(value, current);
        }
      } else if name == TRANSFORMATION {
        if value == "0" || value == "1" {
          if transform != (value == "1") {
            if transform { current := transformation; } else { transformation := current; }
            transform := !transform;
          }
          reply := Okay;
        } else {
          reply := BadArgument;
        }
      } else if name == CIPHER {
        if transform {
          var (enc, r) := SetCipher(transformation, value);
          transformation, reply := enc, r;
        } else {
          var (enc, r) := SetCipher(current, value);
          current, reply := enc, r;
        }
      } else {
        reply := Forwarded;
      }
    }

    /** The trailer and the body of a page; None for a page too small to have a trailer. */
    method Split(page: Span) returns (data: Option<Span>, body: Span)
      requires page.Valid()
      ensures data.None? <==> page.Size() < RESERVE_SIZE
      ensures data.Some? ==> data.value == Span(page.last - RESERVE_SIZE, page.last)
      ensures data.Some? ==> body == Span(page.first, page.last - RESERVE_SIZE)
    {
      data := page.Subspan(SizeMinus(page.Size(), RESERVE_SIZE), DYNAMIC_EXTENT);
      if data.None? {
        return None, page;
      }
      var front := page.Subspan(0, SizeMinus(page.Size(), RESERVE_SIZE));
      body := front.value;
    }

    /** The ciphertext over the body and the tag behind the IV that is already there. */
    method Finish(buffer: array<byte>, page: Span, sealed: Sealed, ghost iv: ivbytes, ghost before: seq<byte>)
      requires page.Valid() && page.last <= buffer.Length == |before| && page.Size() >= RESERVE_SIZE
      requires |sealed.text| == page.Size() - RESERVE_SIZE
      requires buffer[..] == Patch(before, iv, page.last - RESERVE_SIZE)
      modifies buffer
      ensures var stored := sealed.text + iv + sealed.tag;
              buffer[..] == Patch(before, stored + before[page.first..page.last][|stored|..], page.first)
    {
      Overwrite(buffer, page.first, sealed.text);
      PatchBefore(before, sealed.text, iv, page.first);
      Overwrite(buffer, page.last - RESERVE_SIZE + 12, sealed.tag);
      PatchAfter(before, sealed.text + iv, sealed.tag, page.first);
      PatchFront(before, page.first, page.last, sealed.text + iv + sealed.tag);
    }

    /** A fresh IV, the body encrypted over itself, and the tag behind the IV. */
    method Seal(buffer: array<byte>, page: Span, body: Span, data: Span, enc: Encryptor, n: nonce) returns (ok: bool)
      requires Valid() && page.Valid() && page.last <= buffer.Length && page.Size() >= RESERVE_SIZE
      requires data == Span(page.last - RESERVE_SIZE, page.last) && body == Span(page.first, data.first)
      requires enc.cipher.Some?
      modifies buffer
      ensures match Crypt.EncodePage(aead, enc, old(buffer[page.first..page.last]), n)
              case None => !ok
              case Some(stored) =>
                ok && |stored| == page.Size() && buffer[..] == Patch(old(buffer[..]), stored, page.first)
    {
      ghost var before := buffer[..];
      var iv := data.Subspan(0, 12);
      PageFields(before, page.first, page.last);
      ghost var nextIv := NextIv(before[data.first..data.first + 12], n);
      GenerateIv(buffer, iv.value, n, bigEndian);
      FreshIv(before, page.first, page.last, nextIv);
      var key := UsedKey(enc.cipher.value, enc.key);
      var sealed := aead.seal(enc.cipher.value, key, buffer[data.first..data.first + 12],
                              buffer[body.first..body.last]);
      if sealed.None? {
        return false;
      }
      Finish(buffer, page, sealed.value, nextIv, before);
      ghost var bytes := before[page.first..page.last];
      assert Crypt.EncodePage(aead, enc, bytes, n)
          == Some(sealed.value.text + nextIv + sealed.value.tag + bytes[TrailerAt(bytes) + 28..]);
      return true;
    }

    method EncodePage(buffer: array<byte>, page: Span, n: nonce) returns (ok: bool)
      requires Valid() && page.Valid() && page.last <= buffer.Length
      modifies buffer
      ensures match Crypt.EncodePage(aead, Settings().Writer(), old(buffer[page.first..page.last]), n)
              case None => !ok
              case Some(stored) =>
                ok && |stored| == page.Size() && buffer[..] == Patch(old(buffer[..]), stored, page.first)
    {
      var enc := if transform then transformation else current;
      if enc.cipher.None? {
        PatchSame(buffer[..], page.first, page.last);
        return true;
      }
      var data, body := Split(page);
      if data.None? {
        return false;
      }
      ok := Seal(buffer, page, body, data.value, enc, n);
    }

    method DecodePage(buffer: array<byte>, page: Span) returns (ok: bool)
      requires Valid() && page.Valid() && page.last <= buffer.Length
      modifies buffer
      ensures var d := Crypt.DecodePage(aead, current, old(buffer[page.first..page.last]));
              ok == d.ok && |d.page| == page.Size() && buffer[..] == Patch(old(buffer[..]), d.page, page.first)
    {
      ghost var before := buffer[..];
      PatchSame(before, page.first, page.last);
      if current.cipher.None? {
        return true;
      }
      var data, body := Split(page);
      if data.None? {
        return false;
      }
      var trailer := data.value;
      PageFields(before, page.first, page.last);
      var key := UsedKey(current.cipher.value, current.key);
      var plain := aead.unseal(current.cipher.value, key, buffer[trailer.first..trailer.first + 12],
                               buffer[trailer.first + 12..trailer.first + 28], buffer[body.first..body.last]);
      Overwrite(buffer, body.first, plain.page);
      PatchFront(before, page.first, page.last, plain.page);
      return plain.ok;
    }

    predicate AcceptsReserve(size: byte)
      reads this
    {
      (if transform then transformation else current).cipher.None? || size == RESERVE_SIZE
    }
  }
}
