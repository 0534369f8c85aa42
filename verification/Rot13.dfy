/** The example transformation: every byte of a page thirteen up on write, thirteen down on read. */
module Rot13 {
  import opened Bytes
  import opened PageFile
  import opened PageStore
  import opened PageInvariants
  import opened Spans

  function Up(b: byte): byte {
    (b + 13) % 256
  }

  function Down(b: byte): byte {
    (b + 243) % 256
  }

  function Encode(page: seq<byte>): (r: seq<byte>)
    ensures |r| == |page| && forall i :: 0 <= i < |page| ==> r[i] == Up(page[i])
  {
    seq(|page|, i requires 0 <= i < |page| => Up(page[i]))
  }

  function Decode(page: seq<byte>): (r: seq<byte>)
    ensures |r| == |page| && forall i :: 0 <= i < |page| ==> r[i] == Down(page[i])
  {
    seq(|page|, i requires 0 <= i < |page| => Down(page[i]))
  }

  datatype NoKey = NoKey

  /** No keys and no demands on the header. */
  function Rot13Codec(): Codec<NoKey> {
    Codec((key: NoKey, page: seq<byte>, n: nonce) => Some(Encode(page)),
          (key: NoKey, page: seq<byte>) => Decoded(Decode(page), true),
          (key: NoKey, size: byte) => true,
          (key: NoKey, x: seq<byte>, y: seq<byte>) => x == y)
  }

  /** Thirteen up and thirteen down, modulo 256. */
  lemma DecodeUndoesEncode(page: seq<byte>)
    ensures Decode(Encode(page)) == page
    ensures forall i :: 0 <= i < |page| ==> Encode(page)[i] == (page[i] as int + 13) % 256
    ensures forall i :: 0 <= i < |page| ==> Decode(page)[i] == (page[i] as int - 13) % 256
  {
  }

  lemma Rot13Inverse()
    ensures Inverse(Rot13Codec()) && KeepsLength(Rot13Codec()) && Exact(Rot13Codec())
  {
    forall page: seq<byte> ensures Decode(Encode(page)) == page {
      DecodeUndoesEncode(page);
    }
  }

  lemma OneKey(key: NoKey)
    ensures key == NoKey
  {
  }

  lemma NoKeyStore(c: Codec<NoKey>, P: nat, f: File, ops: seq<Op<NoKey>>, k: nat)
    requires Inverse(c) && Exact(c) && P >= MIN_PAGE && AllAligned(P, ops)
    ensures var l := LogicalRun(c, P, Untouched(f), ops);
            var f' := RunOps(c, P, f, ops);
            && |f'.store| == l.length
            && (k in l.pages ==>
                  var o := ReadPageAt(c, P, f', k, NoKey, NoKey);
                  o.ok && o.data == l.pages[k].bytes)
  {
    var l := LogicalRun(c, P, Untouched(f), ops);
    if k in l.pages {
      var w: Written<NoKey> := l.pages[k];
      OneKey(w.key);
    }
    ExactStore(c, P, f, ops, k, NoKey, NoKey);
  }

  /** With no assumption left: over every run each page written is read back exactly. */
  lemma Rot13Store(P: nat, f: File, ops: seq<Op<NoKey>>, k: nat)
    requires P >= MIN_PAGE && AllAligned(P, ops)
    ensures var l := LogicalRun(Rot13Codec(), P, Untouched(f), ops);
            var f' := RunOps(Rot13Codec(), P, f, ops);
            && |f'.store| == l.length
            && (k in l.pages ==>
                  var o := ReadPageAt(Rot13Codec(), P, f', k, NoKey, NoKey);
                  o.ok && o.data == l.pages[k].bytes)
  {
    Rot13Inverse();
    NoKeyStore(Rot13Codec(), P, f, ops, k);
  }

  /** The write override's loop. */
  method EncodePage(buffer: array<byte>, page: Span)
    requires page.Valid() && page.last <= buffer.Length
    modifies buffer
    ensures buffer[..] == Patch(old(buffer[..]), Encode(old(buffer[page.first..page.last])), page.first)
    ensures forall j :: page.first <= j < page.last ==> buffer[j] == (old(buffer[j]) as int + 13) % 256
    ensures forall j :: 0 <= j < buffer.Length && !(page.first <= j < page.last) ==> buffer[j] == old(buffer[j])
  {
    var i := page.first;
    while i < page.last
      invariant page.first <= i <= page.last
      invariant forall j :: page.first <= j < i ==> buffer[j] == Up(old(buffer[j]))
      invariant forall j :: 0 <= j < buffer.Length && !(page.first <= j < i) ==> buffer[j] == old(buffer[j])
    {
      var b: nat := buffer[i];
      buffer[i] := ToByte(b + 13);
      i := i + 1;
    }
  }

  /** The read override's loop; `-= 13` wraps below zero. */
  method DecodePage(buffer: array<byte>, page: Span)
    requires page.Valid() && page.last <= buffer.Length
    modifies buffer
    ensures buffer[..] == Patch(old(buffer[..]), Decode(old(buffer[page.first..page.last])), page.first)
    ensures forall j :: page.first <= j < page.last ==> buffer[j] == (old(buffer[j]) as int - 13) % 256
    ensures forall j :: 0 <= j < buffer.Length && !(page.first <= j < page.last) ==> buffer[j] == old(buffer[j])
  {
    var i := page.first;
    while i < page.last
      invariant page.first <= i <= page.last
      invariant forall j :: page.first <= j < i ==> buffer[j] == Down(old(buffer[j]))
      invariant forall j :: 0 <= j < buffer.Length && !(page.first <= j < i) ==> buffer[j] == old(buffer[j])
    {
      var b: nat := buffer[i];
      buffer[i] := if b >= 13 then b - 13 else b + 256 - 13;
      i := i + 1;
    }
  }
}
