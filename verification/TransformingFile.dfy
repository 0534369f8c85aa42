/**
 The page-transforming file as an object: the caller's buffer is decoded in place on read and left
 alone on write, where a temporary buffer is encoded instead.
 */
module TransformingFile {
  import opened Bytes
  import opened ByteFile
  import opened PageFile
  import opened Spans
  import opened Crypt
  import CryptFile
  import Rot13

  /** The subclass whose overrides run. */
  datatype Overrides =
    | Rot13Overrides
    | CryptOverrides(crypt: CryptFile.CryptFile)

  class PageTransformingFile {
    const format: FileFormat
    const overrides: Overrides
    var store: seq<byte>
    var pageSize: nat
    var tmpBuffer: array<byte>

    function Contents(): File
      reads this
    {
      File(store, pageSize)
    }

    constructor (format: FileFormat, overrides: Overrides, store: seq<byte>)
      ensures this.format == format && this.overrides == overrides
      ensures Contents() == File(store, 0) && fresh(tmpBuffer)
    {
      this.format, this.overrides, this.store, pageSize := format, overrides, store, 0;
      tmpBuffer := new byte[0];
    }

    ghost function Subclass(): set<object> {
      match overrides
      case Rot13Overrides => {}
      case CryptOverrides(crypt) => {crypt}
    }

    ghost predicate Valid() {
      overrides.CryptOverrides? ==> overrides.crypt.Valid()
    }

    /** What the file specified over bytes does with a read, under the subclass's present settings. */
    ghost function ReadSpec(f: File, size: nat, at: nat): Outcome
      reads Subclass()
    {
      match overrides
      case Rot13Overrides => ReadFile(Rot13.Rot13Codec(), format, Rot13.NoKey, Rot13.NoKey, f, size, at)
      case CryptOverrides(c) => ReadFile(CryptCodec(c.aead), format, c.current, c.Settings().Writer(), f, size, at)
    }

    ghost function WriteSpec(f: File, bytes: seq<byte>, at: nat, n: nonce): Outcome
      reads Subclass()
    {
      match overrides
      case Rot13Overrides => WriteFile(Rot13.Rot13Codec(), format, Rot13.NoKey, f, bytes, at, n)
      case CryptOverrides(c) => WriteFile(CryptCodec(c.aead), format, c.Settings().Writer(), f, bytes, at, n)
    }

    ghost function EncodeSpec(page: seq<byte>, n: nonce): Option<seq<byte>>
      reads Subclass()
    {
      match overrides
      case Rot13Overrides => Some(Rot13.Encode(page))
      case CryptOverrides(c) => Crypt.EncodePage(c.aead, c.Settings().Writer(), page, n)
    }

    ghost function DecodeSpec(page: seq<byte>): Decoded
      reads Subclass()
    {
      match overrides
      case Rot13Overrides => Decoded(Rot13.Decode(page), true)
      case CryptOverrides(c) => Crypt.DecodePage(c.aead, c.current, page)
    }

    predicate CheckReserveSize(size: byte)
      reads Subclass()
    {
      match overrides
      case Rot13Overrides => true
      case CryptOverrides(c) => c.AcceptsReserve(size)
    }

    method EncodePage(buffer: array<byte>, page: Span, n: nonce) returns (ok: bool)
      requires Valid() && page.Valid() && page.last <= buffer.Length
      modifies buffer
      ensures match EncodeSpec(old(buffer[page.first..page.last]), n)
              case None => !ok
              case Some(stored) =>
                ok && |stored| == page.Size() && buffer[..] == Patch(old(buffer[..]), stored, page.first)
    {
      match overrides
      case Rot13Overrides =>
        Rot13.EncodePage(buffer, page);
        ok := true;
      case CryptOverrides(c) =>
        ok := c.EncodePage(buffer, page, n);
    }

    method DecodePage(buffer: array<byte>, page: Span) returns (ok: bool)
      requires Valid() && page.Valid() && page.last <= buffer.Length
      modifies buffer
      ensures var d := DecodeSpec(old(buffer[page.first..page.last]));
              ok == d.ok && |d.page| == page.Size() && buffer[..] == Patch(old(buffer[..]), d.page, page.first)
    {
      match overrides
      case Rot13Overrides =>
        Rot13.DecodePage(buffer, page);
        ok := true;
      case CryptOverrides(c) =>
        ok := c.DecodePage(buffer, page);
    }

    /** The page size is cached before the reserve byte is judged. */
    method ParseParameters(buffer: array<byte>, at: nat) returns (ok: bool)
      modifies this`pageSize
      ensures pageSize == ParsePageSize(old(pageSize), format, buffer[..], at)
      ensures ok <==> format.MainDb? && at <= RESERVE_AT && at + buffer.Length >= RESERVE_AT + 1
                      ==> CheckReserveSize(buffer[RESERVE_AT - at])
    {
      if format.MainDb? {
        if at <= 16 && at + buffer.Length >= 18 {
          var hi: nat := buffer[16 - at];
          pageSize := ShlOr(hi, 8, buffer[17 - at]);
          if pageSize == 1 {
            pageSize := 65536;
          }
        }
        if at <= RESERVE_AT && at + buffer.Length >= RESERVE_AT + 1 {
          return CheckReserveSize(buffer[RESERVE_AT - at]);
        }
      }
      return true;
    }

    lemma ForwardedRead(f: File, size: nat, at: nat)
      requires !IsPage(format, size) || !ReadBytes(f.store, size, at).ok
      ensures var raw := ReadBytes(f.store, size, at);
              ReadSpec(f, size, at) == Outcome(f, raw.bytes, raw.ok)
    {
    }

    lemma PageRead(f: File, size: nat, at: nat, h: nat)
      requires IsPage(format, size) && ReadBytes(f.store, size, at).ok && h == if at == 0 then HEADER else 0
      ensures var raw := ReadBytes(f.store, size, at).bytes;
              var o := ReadSpec(f, size, at);
              var d := DecodeSpec(raw[h..]);
              && o.data == raw[..h] + d.page
              && o.file.store == f.store
              && o.file.pageSize == (if d.ok then ParsePageSize(f.pageSize, format, o.data, at) else f.pageSize)
              && (o.ok <==> d.ok && (format.MainDb? && at <= RESERVE_AT && at + |o.data| >= RESERVE_AT + 1
                                     ==> CheckReserveSize(o.data[RESERVE_AT - at])))
    {
    }

    lemma ForwardedWrite(f: File, bytes: seq<byte>, at: nat, n: nonce)
      requires !IsPage(format, |bytes|)
      ensures WriteSpec(f, bytes, at, n) == Outcome(File(WriteBytes(f.store, bytes, at), f.pageSize), bytes, true)
    {
    }

    lemma PageWrite(f: File, bytes: seq<byte>, at: nat, n: nonce, h: nat)
      requires IsPage(format, |bytes|) && h == if at == 0 then HEADER else 0
      ensures var o := WriteSpec(f, bytes, at, n);
              var stored := EncodeSpec(bytes[h..], n);
              && o.data == bytes
              && o.file.pageSize == ParsePageSize(f.pageSize, format, bytes, at)
              && (o.ok <==> stored.Some? && (at <= RESERVE_AT && at + |bytes| >= RESERVE_AT + 1
                                             ==> CheckReserveSize(bytes[RESERVE_AT - at])))
              && o.file.store == if o.ok then WriteBytes(f.store, bytes[..h] + stored.value, at) else f.store
    {
    }

    /** The rest of a page read, once the stored bytes are in the buffer. */
    method FinishRead(buffer: array<byte>, at: nat, h: nat) returns (ok: bool)
      requires Valid() && h <= buffer.Length < SIZE_LIMIT
      modifies this`pageSize, buffer
      ensures var raw := old(buffer[..]);
              var d := DecodeSpec(raw[h..]);
              && buffer[..] == raw[..h] + d.page
              && pageSize == (if d.ok then ParsePageSize(old(pageSize), format, buffer[..], at) else old(pageSize))
              && (ok <==> d.ok && (format.MainDb? && at <= RESERVE_AT && at + buffer.Length >= RESERVE_AT + 1
                                   ==> CheckReserveSize(buffer[RESERVE_AT - at])))
    {
      ghost var raw := buffer[..];
      assert buffer[h..buffer.Length] == raw[h..];
      ok := DecodePage(buffer, Span(h, buffer.Length));
      if !ok {
        return false;
      }
      ok := ParseParameters(buffer, at);
    }

    method Read(buffer: array<byte>, at: nat) returns (ok: bool)
      requires Valid() && buffer.Length < SIZE_LIMIT
      modifies this`pageSize, buffer
      ensures Outcome(Contents(), buffer[..], ok) == ReadSpec(old(Contents()), buffer.Length, at)
    {
      var raw := ReadBytes(store, buffer.Length, at);
      CryptFile.Overwrite(buffer, 0, raw.bytes);
      assert buffer[..] == raw.bytes;
      if !IsPage(format, buffer.Length) || !raw.ok {
        ForwardedRead(Contents(), buffer.Length, at);
        return raw.ok;
      }
      var h := if at == 0 then HEADER else 0;
      PageRead(Contents(), buffer.Length, at, h);
      ok := FinishRead(buffer, at, h);
    }

    /** The temporary buffer, grown or shrunk to a page, with the encoded page in it. */
    method EncodeCopy(buffer: array<byte>, h: nat, n: nonce) returns (ok: bool)
      requires Valid() && h <= buffer.Length < SIZE_LIMIT && buffer != tmpBuffer
      modifies this`tmpBuffer, tmpBuffer
      ensures buffer[..] == old(buffer[..])
      ensures tmpBuffer == old(tmpBuffer) || fresh(tmpBuffer)
      ensures var stored := EncodeSpec(old(buffer[..])[h..], n);
              ok == stored.Some? && (ok ==> tmpBuffer[..] == buffer[..h] + stored.value)
    {
      if tmpBuffer.Length != buffer.Length {
        tmpBuffer := new byte[buffer.Length];
      }
      CryptFile.Overwrite(tmpBuffer, 0, buffer[..]);
      assert tmpBuffer[..] == buffer[..];
      assert tmpBuffer[h..tmpBuffer.Length] == buffer[..][h..];
      ok := EncodePage(tmpBuffer, Span(h, tmpBuffer.Length), n);
    }

    /** A page write: checked, copied, encoded, and only then stored. */
    method WritePage(buffer: array<byte>, at: nat, h: nat, n: nonce) returns (ok: bool)
      requires Valid() && format.MainDb? && h <= buffer.Length < SIZE_LIMIT && buffer != tmpBuffer
      modifies this`store, this`pageSize, this`tmpBuffer, tmpBuffer
      ensures buffer[..] == old(buffer[..])
      ensures tmpBuffer == old(tmpBuffer) || fresh(tmpBuffer)
      ensures pageSize == ParsePageSize(old(pageSize), format, old(buffer[..]), at)
      ensures var bytes := old(buffer[..]);
              var stored := EncodeSpec(bytes[h..], n);
              && (ok <==> stored.Some? && (at <= RESERVE_AT && at + |bytes| >= RESERVE_AT + 1
                                           ==> CheckReserveSize(bytes[RESERVE_AT - at])))
              && store == if ok then WriteBytes(old(store), bytes[..h] + stored.value, at) else old(store)
    {
      ok := ParseParameters(buffer, at);
      if !ok {
        return false;
      }
      ok := EncodeCopy(buffer, h, n);
      if ok {
        store := WriteBytes(store, tmpBuffer[..], at);
      }
    }

    /** The caller's buffer is only read; the store changes only when nothing throws. */
    method Write(buffer: array<byte>, at: nat, n: nonce) returns (ok: bool)
      requires Valid() && buffer.Length < SIZE_LIMIT && buffer != tmpBuffer
      modifies this`store, this`pageSize, this`tmpBuffer, tmpBuffer
      ensures Outcome(Contents(), buffer[..], ok) == WriteSpec(old(Contents()), old(buffer[..]), at, n)
      ensures buffer[..] == old(buffer[..])
      ensures !ok ==> store == old(store)
      ensures tmpBuffer == old(tmpBuffer) || fresh(tmpBuffer)
    {
      var bytes := buffer[..];
      if !IsPage(format, buffer.Length) {
        ForwardedWrite(Contents(), bytes, at, n);
        store := WriteBytes(store, bytes, at);
        return true;
      }
      var h := if at == 0 then HEADER else 0;
      PageWrite(Contents(), bytes, at, n, h);
      ok := WritePage(buffer, at, h, n);
    }

    method Truncate(size: nat)
      modifies this`store
      ensures Contents() == ResizeFile(old(Contents()), size).file
    {
      store := ResizeBytes(store, size);
    }
  }
}
