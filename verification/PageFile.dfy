/**
 The page-transforming file: whole pages of the main database are encoded on write and decoded on
 read, the first 100 bytes of the database and all small accesses pass through unchanged.
 */
module PageFile {
  import opened Bytes
  import opened ByteFile

  const HEADER: nat := 100
  const MIN_PAGE: nat := 512
  const RESERVE_AT: nat := 20

  datatype FileFormat =
    | MainDb | MainJournal | TempDb | TempJournal | TransientDb
    | Subjournal | SuperJournal | MasterJournal | Wal

  /** Eight random bytes. */
  type nonce = s: seq<byte> | |s| == 8 witness [0, 0, 0, 0, 0, 0, 0, 0]

  /** A page overwritten in place, and whether the overwriting ended without a throw. */
  datatype Decoded = Decoded(page: seq<byte>, ok: bool)

  /**
   What a subclass overrides, under a key: encode_page (None when it throws), decode_page,
   check_reserve_size, and how much of a page survives the two transformations.
   */
  datatype Codec<!K> = Codec(
    encode: (K, seq<byte>, nonce) -> Option<seq<byte>>,
    decode: (K, seq<byte>) -> Decoded,
    accepts: (K, byte) -> bool,
    same: (K, seq<byte>, seq<byte>) -> bool)

  /** Decoding undoes a successful encoding, lengths kept. */
  ghost predicate Inverse<K(!new)>(c: Codec<K>) {
    forall key: K, page: seq<byte>, n: nonce :: c.encode(key, page, n).Some? ==>
      var stored := c.encode(key, page, n).value;
      var d := c.decode(key, stored);
      |stored| == |page| && d.ok && |d.page| == |page| && c.same(key, page, d.page)
  }

  /** Decoding keeps the length of any page. */
  ghost predicate KeepsLength<K(!new)>(c: Codec<K>) {
    forall key: K, page: seq<byte> :: |c.decode(key, page).page| == |page|
  }

  // ---- One access ----

  /** The stored bytes and the cached page size. */
  datatype File = File(store: seq<byte>, pageSize: nat)

  datatype Outcome = Outcome(file: File, data: seq<byte>, ok: bool)

  predicate IsPage(format: FileFormat, size: nat) {
    format.MainDb? && size >= MIN_PAGE
  }

  /** Where the transformation starts inside a page: after the database header. */
  function Head(format: FileFormat, at: nat): nat {
    if format.MainDb? && at == 0 then HEADER else 0
  }

  /** Section 1.3.2 of the SQLite file format: big-endian, with 1 standing for 65536. */
  function PageSizeField(hi: byte, lo: byte): nat {
    var size := hi * 256 + lo;
    if size == 1 then 65536 else size
  }

  /** The page size cache after _parse_parameters has looked at a buffer. */
  function ParsePageSize(cached: nat, format: FileFormat, buffer: seq<byte>, at: nat): nat {
    if format.MainDb? && at <= 16 && at + |buffer| >= 18
    then PageSizeField(buffer[16 - at], buffer[17 - at])
    else cached
  }

  /** Whether _parse_parameters lets a buffer pass. */
  predicate ParseAccepts<K>(c: Codec<K>, format: FileFormat, writer: K, buffer: seq<byte>, at: nat) {
    format.MainDb? && at <= RESERVE_AT && at + |buffer| >= RESERVE_AT + 1
    ==> c.accepts(writer, buffer[RESERVE_AT - at])
  }

  function ReadFile<K>(c: Codec<K>, format: FileFormat, reader: K, writer: K, f: File, size: nat, at: nat): Outcome {
    var raw := ReadBytes(f.store, size, at);
    if !IsPage(format, size) || !raw.ok then Outcome(f, raw.bytes, raw.ok)
    else
      var h := Head(format, at);
      var d := c.decode(reader, raw.bytes[h..]);
      var buffer := raw.bytes[..h] + d.page;
      if !d.ok then Outcome(f, buffer, false)
      else
        Outcome(f.(pageSize := ParsePageSize(f.pageSize, format, buffer, at)), buffer,
                ParseAccepts(c, format, writer, buffer, at))
  }

  function WriteFile<K>(c: Codec<K>, format: FileFormat, writer: K, f: File, buffer: seq<byte>, at: nat, n: nonce)
    : Outcome
  {
    if !IsPage(format, |buffer|) then Outcome(f.(store := WriteBytes(f.store, buffer, at)), buffer, true)
    else
      var h := Head(format, at);
      var f' := f.(pageSize := ParsePageSize(f.pageSize, format, buffer, at));
      var encoded := c.encode(writer, buffer[h..], n);
      if !ParseAccepts(c, format, writer, buffer, at) || encoded.None? then Outcome(f', buffer, false)
      else Outcome(f'.(store := WriteBytes(f.store, buffer[..h] + encoded.value, at)), buffer, true)
  }

  // ---- The file in figures ----

  /** Accesses below 512 bytes, and all those to other files, leave the bytes as they are. */
  lemma SmallAccessIsPlain<K>(c: Codec<K>, format: FileFormat, reader: K, writer: K, f: File, bytes: seq<byte>,
                              size: nat, at: nat, n: nonce)
    ensures !format.MainDb? || |bytes| < 512 ==>
              WriteFile(c, format, writer, f, bytes, at, n)
              == Outcome(File(WriteBytes(f.store, bytes, at), f.pageSize), bytes, true)
    ensures !format.MainDb? || size < 512 ==>
              ReadFile(c, format, reader, writer, f, size, at)
              == Outcome(f, ReadBytes(f.store, size, at).bytes, at + size <= |f.store|)
  {
  }

  /** Any larger write to the database: bytes 0 to 99 of the file go in as they are, all others encoded. */
  lemma LargeWriteIsEncoded<K>(c: Codec<K>, writer: K, f: File, page: seq<byte>, at: nat, n: nonce)
    requires |page| >= 512
    ensures var o := WriteFile(c, MainDb, writer, f, page, at, n);
            var encoded := c.encode(writer, if at == 0 then page[100..] else page, n);
            && (o.ok <==> encoded.Some? && (at <= 20 ==> c.accepts(writer, page[20 - at])))
            && o.data == page
            && (!o.ok ==> o.file.store == f.store)
            && (o.ok ==> o.file.store == WriteBytes(f.store, (if at == 0 then page[..100] else []) + encoded.value, at))
  {
    assert page[0..] == page;
    assert forall e: seq<byte> :: page[..0] + e == e;
  }

  /** Any larger read: bytes 0 to 99 of the file come out as stored, all others decoded. */
  lemma LargeReadIsDecoded<K>(c: Codec<K>, reader: K, writer: K, f: File, size: nat, at: nat)
    requires size >= 512
    ensures var o := ReadFile(c, MainDb, reader, writer, f, size, at);
            && o.file.store == f.store
            && (at + size > |f.store| ==> !o.ok && o.data == ReadBytes(f.store, size, at).bytes)
            && (at + size <= |f.store| ==>
                  var raw := f.store[at..at + size];
                  var d := c.decode(reader, if at == 0 then raw[100..] else raw);
                  && o.data == (if at == 0 then raw[..100] + d.page else d.page)
                  && (o.ok <==> d.ok && (at <= 20 && at + |o.data| > 20 ==> c.accepts(writer, o.data[20 - at]))))
  {
    var raw := ReadBytes(f.store, size, at).bytes;
    assert raw[0..] == raw && forall e: seq<byte> :: raw[..0] + e == e;
  }

  /** The cache after a page access: bytes 16 and 17 of the file, big-endian, with 1 standing for 65536. */
  lemma CachedPageSize<K>(c: Codec<K>, reader: K, writer: K, f: File, page: seq<byte>, at: nat, n: nonce)
    requires |page| >= 512
    ensures WriteFile(c, MainDb, writer, f, page, at, n).file.pageSize
         == if at > 16 then f.pageSize
            else if page[16 - at] == 0 && page[17 - at] == 1 then 65536
            else 256 * (page[16 - at] as int) + page[17 - at] as int
    ensures var o := ReadFile(c, MainDb, reader, writer, f, |page|, at);
            var raw := ReadBytes(f.store, |page|, at);
            var decoded := c.decode(reader, if at == 0 then raw.bytes[100..] else raw.bytes).ok;
            o.file.pageSize == (
              if !raw.ok || !decoded || at > 16 || at + |o.data| < 18 then f.pageSize
              else if o.data[16 - at] == 0 && o.data[17 - at] == 1 then 65536
              else 256 * (o.data[16 - at] as int) + o.data[17 - at] as int)
  {
    var raw := ReadBytes(f.store, |page|, at).bytes;
    assert raw[0..] == raw && forall e: seq<byte> :: raw[..0] + e == e;
  }

  function ResizeFile(f: File, size: nat): Outcome {
    Outcome(f.(store := ResizeBytes(f.store, size)), [], true)
  }

  datatype Access<K> =
    | Read(size: nat, at: nat, reader: K, writer: K)
    | Write(bytes: seq<byte>, at: nat, n: nonce, writer: K)
    | Resize(size: nat)

  function Step<K>(c: Codec<K>, format: FileFormat, f: File, a: Access<K>): Outcome {
    match a
    case Read(size, at, reader, writer) => ReadFile(c, format, reader, writer, f, size, at)
    case Write(bytes, at, n, writer) => WriteFile(c, format, writer, f, bytes, at, n)
    case Resize(size) => ResizeFile(f, size)
  }

  function Run<K>(c: Codec<K>, format: FileFormat, f: File, accesses: seq<Access<K>>): File {
    if accesses == [] then f
    else
      var n := |accesses| - 1;
      Step(c, format, Run(c, format, f, accesses[..n]), accesses[n]).file
  }

  // ---- Files other than the main database ----

  function PlainStep<K>(store: seq<byte>, a: Access<K>): seq<byte> {
    match a
    case Read(_, _, _, _) => store
    case Write(bytes, at, _, _) => WriteBytes(store, bytes, at)
    case Resize(size) => ResizeBytes(store, size)
  }

  function PlainRun<K>(store: seq<byte>, accesses: seq<Access<K>>): seq<byte> {
    if accesses == [] then store
    else PlainStep(PlainRun(store, accesses[..|accesses| - 1]), accesses[|accesses| - 1])
  }

  /** Journals and temporary files stay byte-identical to plain ones, and reads see those bytes. */
  lemma {:induction false} OtherFormatsArePlain<K>(c: Codec<K>, format: FileFormat, f: File, accesses: seq<Access<K>>,
                                                   size: nat, at: nat, reader: K, writer: K)
    requires !format.MainDb?
    ensures Run(c, format, f, accesses) == File(PlainRun(f.store, accesses), f.pageSize)
    ensures var r := ReadBytes(PlainRun(f.store, accesses), size, at);
            var o := ReadFile(c, format, reader, writer, Run(c, format, f, accesses), size, at);
            o.data == r.bytes && o.ok == r.ok
  {
    if accesses != [] {
      OtherFormatsArePlain(c, format, f, accesses[..|accesses| - 1], size, at, reader, writer);
    }
  }
}
