/** The plain file below the transforming layer: offset reads, writes and truncation. */
module ByteFile {
  import opened Bytes

  function Zeros(n: nat): (z: seq<byte>)
    ensures |z| == n
  {
    seq(n, i => 0)
  }

  datatype Fetched = Fetched(bytes: seq<byte>, ok: bool)

  /** A read past the end fails, with the missing bytes set to zero. */
  function ReadBytes(store: seq<byte>, size: nat, at: nat): (r: Fetched)
    ensures |r.bytes| == size
    ensures r.ok <==> at + size <= |store|
  {
    if at + size <= |store| then Fetched(store[at..at + size], true)
    else if at < |store| then Fetched(store[at..] + Zeros(at + size - |store|), false)
    else Fetched(Zeros(size), false)
  }

  /** The file grown with zeros to at least the given size. */
  function Grown(store: seq<byte>, size: nat): (s: seq<byte>)
    ensures |s| == if |store| < size then size else |store|
    ensures store == s[..|store|]
  {
    if |store| < size then store + Zeros(size - |store|) else store
  }

  function WriteBytes(store: seq<byte>, bytes: seq<byte>, at: nat): (s: seq<byte>)
    ensures |s| == if bytes != [] && |store| < at + |bytes| then at + |bytes| else |store|
  {
    if bytes == [] then store
    else
      var g := Grown(store, at + |bytes|);
      g[..at] + bytes + g[at + |bytes|..]
  }

  function ResizeBytes(store: seq<byte>, size: nat): (s: seq<byte>)
    ensures |s| == size
  {
    if size <= |store| then store[..size] else Grown(store, size)
  }

  /** The written file, byte by byte. */
  lemma WrittenByte(store: seq<byte>, bytes: seq<byte>, at: nat, i: nat)
    requires i < |WriteBytes(store, bytes, at)|
    ensures WriteBytes(store, bytes, at)[i]
         == if at <= i < at + |bytes| then bytes[i - at] else if i < |store| then store[i] else 0
  {
  }

  /** A read, byte by byte: past the end there are zeros. */
  lemma FetchedByte(store: seq<byte>, size: nat, at: nat, i: nat)
    requires i < size
    ensures ReadBytes(store, size, at).bytes[i] == if at + i < |store| then store[at + i] else 0
  {
  }

  /** A truncated or extended file, byte by byte. */
  lemma ResizedByte(store: seq<byte>, size: nat, i: nat)
    requires i < size
    ensures ResizeBytes(store, size)[i] == if i < |store| then store[i] else 0
  {
  }

  /** A write is read back. */
  lemma WriteThenRead(store: seq<byte>, bytes: seq<byte>, at: nat)
    requires bytes != []
    ensures WriteBytes(store, bytes, at)[at..at + |bytes|] == bytes
  {
    var s := WriteBytes(store, bytes, at);
    forall i | 0 <= i < |bytes| ensures s[at + i] == bytes[i] {
      WrittenByte(store, bytes, at, at + i);
    }
  }

  /** Bytes outside a write are read as before. */
  lemma WriteElsewhere(store: seq<byte>, bytes: seq<byte>, at: nat, size: nat, from: nat)
    requires from + size <= |store| && (from + size <= at || at + |bytes| <= from)
    ensures WriteBytes(store, bytes, at)[from..from + size] == store[from..from + size]
  {
    var (x, y) := (WriteBytes(store, bytes, at)[from..from + size], store[from..from + size]);
    forall i | 0 <= i < size ensures x[i] == y[i] {
      WrittenByte(store, bytes, at, from + i);
    }
  }

  /** Two files that differ at most in a stretch. */
  ghost predicate SameOutside(s: seq<byte>, s': seq<byte>, at: nat, size: nat) {
    |s| == |s'| && at + size <= |s| && s'[..at] == s[..at] && s'[at + size..] == s[at + size..]
  }

  lemma WriteStaysInside(store: seq<byte>, bytes: seq<byte>, at: nat)
    requires bytes != [] && at + |bytes| <= |store|
    ensures SameOutside(store, WriteBytes(store, bytes, at), at, |bytes|)
  {
    WriteElsewhere(store, bytes, at, at, 0);
    WriteElsewhere(store, bytes, at, |store| - at - |bytes|, at + |bytes|);
  }

  lemma SameElsewhere(s: seq<byte>, s': seq<byte>, at: nat, size: nat, from: nat, n: nat)
    requires SameOutside(s, s', at, size) && from + n <= |s| && (from + n <= at || at + size <= from)
    ensures s'[from..from + n] == s[from..from + n]
  {
    if from + n <= at {
      SliceOfSlice(s, 0, at, from, from + n);
      SliceOfSlice(s', 0, at, from, from + n);
    } else {
      SliceOfSlice(s, at + size, |s|, from - at - size, from + n - at - size);
      SliceOfSlice(s', at + size, |s|, from - at - size, from + n - at - size);
    }
  }
}
