/** The encoder and decoder loops, and the decoder writing over its own input. */
module Base64Codec {
  import opened Bytes
  import opened Base64
  import opened Base64Theorems

  lemma JoinFits(part: sextet, bits: nat)
    requires bits == 2 || bits == 4 || bits == 6
    ensures Shr(part, bits - 2) < Pow2(8 - bits)
  {
    ShrEven(part);
    PowersOfTwo();
  }

  /** The decoder's shift-and-or, with the result truncated to eight bits. */
  function ShiftJoin(last: sextet, part: sextet, bits: nat): byte
    requires bits == 2 || bits == 4 || bits == 6
  {
    JoinFits(part, bits);
    ToByte(ShlOr(last, 8 - bits, Shr(part, bits - 2)))
  }

  lemma JoinAt2(last: sextet, part: sextet)
    ensures ShiftJoin(last, part, 2) == last % 4 * 64 + part
  {
    assert Pow2(6) == 64;
  }

  lemma TruncateHigh(last: sextet, low: nat)
    requires low < 16
    ensures (last * 16 + low) % 256 == last % 16 * 16 + low
  {
  }

  lemma JoinAt4(last: sextet, part: sextet)
    ensures ShiftJoin(last, part, 4) == last % 16 * 16 + part / 4
  {
    assert Shr(part, 2) == part / 4 && Pow2(4) == 16;
    TruncateHigh(last, part / 4);
  }

  lemma JoinAt6(last: sextet, part: sextet)
    ensures ShiftJoin(last, part, 6) == last * 4 + part / 16
  {
    assert Shr(part, 4) == part / 16 && Pow2(2) == 4;
  }

  lemma ShiftJoinIsJoined(last: sextet, part: sextet, bits: nat)
    requires bits == 2 || bits == 4 || bits == 6
    ensures ShiftJoin(last, part, bits) == Joined(last, part, bits)
  {
    if bits == 2 {
      JoinAt2(last, part);
    } else if bits == 4 {
      JoinAt4(last, part);
    } else {
      JoinAt6(last, part);
    }
  }

  lemma FirstPadIs(t: string, p: nat)
    requires p <= |t| && PAD !in t[..p] && (p < |t| ==> t[p] == PAD)
    ensures FirstPad(t) == p
  {
    var f := FirstPad(t);
    assert forall i :: 0 <= i < p ==> t[i] in t[..p];
    assert forall i :: 0 <= i < f ==> t[i] in t[..f];
  }

  /** A symbol rejected inside the text rejects the text. */
  lemma RejectedSymbol(t: string, alphabet: Alphabet, behavior: Behavior, n: nat)
    requires n <= |t| && PAD !in t[..n] && Symbols(alphabet, t[..n]).None?
    ensures DecodeText(t, alphabet, behavior) == InvalidCharacter
  {
    var p := FirstPad(t);
    assert n <= p by {
      assert forall i :: 0 <= i < n ==> t[i] in t[..n];
    }
    assert t[..p][..n] == t[..n];
    if Symbols(alphabet, t[..p]).Some? {
      AlphabetIsStable(alphabet, t[..p], n);
    }
  }

  /** The decoder loop has read t[..i], whose symbol values are vs. */
  ghost predicate Consumed(t: string, alphabet: Alphabet, i: nat, vs: seq<sextet>, detected: Alphabet) {
    i == |vs| <= |t| && PAD !in t[..i] && Symbols(alphabet, t[..i]) == Some(Parsed(vs, detected))
  }

  /** The loop's accumulator matches the values read so far. */
  ghost predicate Accumulated(vs: seq<sextet>, last: int, bits: int) {
    last == LastOf(vs) && bits == PendingBits(|vs|)
  }

  lemma ConsumeSymbol(t: string, alphabet: Alphabet, i: nat, vs: seq<sextet>, detected: Alphabet)
    requires Consumed(t, alphabet, i, vs, detected) && i < |t| && t[i] != PAD
    requires Value(detected, t[i]).Some?
    ensures var r := Value(detected, t[i]).value;
            Consumed(t, alphabet, i + 1, vs + [r.value], r.alphabet)
  {
    assert t[..i + 1] == t[..i] + [t[i]];
    SymbolsSnoc(alphabet, t[..i], t[i]);
  }

  lemma RejectSymbol(t: string, alphabet: Alphabet, behavior: Behavior, i: nat, vs: seq<sextet>, detected: Alphabet)
    requires Consumed(t, alphabet, i, vs, detected) && i < |t| && t[i] != PAD
    requires Value(detected, t[i]).None?
    ensures DecodeText(t, alphabet, behavior) == InvalidCharacter
  {
    assert t[..i + 1][..i] == t[..i];
    RejectedSymbol(t, alphabet, behavior, i + 1);
  }

  lemma NextBytes(vs: seq<sextet>, part: sextet)
    ensures FromSextets(vs + [part])
         == if PendingBits(|vs|) >= 2 then FromSextets(vs) + [Joined(LastOf(vs), part, PendingBits(|vs|))]
            else FromSextets(vs)
  {
    var (n, ws) := (|vs|, vs + [part]);
    assert ws[..n] == vs && ws[n] == part;
    assert n > 0 ==> ws[n - 1] == LastOf(vs);
  }

  lemma Accumulate(vs: seq<sextet>, last: sextet, bits: nat, part: sextet)
    requires Accumulated(vs, last, bits)
    ensures bits == 0 ==> FromSextets(vs + [part]) == FromSextets(vs)
    ensures bits >= 2 ==> FromSextets(vs + [part]) == FromSextets(vs) + [ShiftJoin(last, part, bits)]
  {
    NextBytes(vs, part);
    if bits >= 2 {
      ShiftJoinIsJoined(last, part, bits);
    }
  }

  lemma NextPending(vs: seq<sextet>, last: sextet, bits: nat, part: sextet)
    requires Accumulated(vs, last, bits)
    ensures Accumulated(vs + [part], part, if bits >= 2 then bits - 2 else bits + 6)
  {
  }

  /** The output never overtakes the input, and is behind it as soon as a symbol was read. */
  lemma CursorBehind(n: nat)
    ensures EmittedBytes(n) <= n
    ensures n > 0 ==> EmittedBytes(n) < n
  {
    BitAccounting(n);
  }

  lemma FinishReading(t: string, alphabet: Alphabet, behavior: Behavior, i: nat, vs: seq<sextet>, detected: Alphabet)
    requires Consumed(t, alphabet, i, vs, detected) && (i < |t| ==> t[i] == PAD)
    ensures DecodeText(t, alphabet, behavior)
         == if behavior == Moderate && !OnlyPadding(t[i..]) then InvalidCharacter else Ok(FromSextets(vs))
  {
    FirstPadIs(t, i);
  }

  /** Whether everything from position i on is padding. */
  method PaddingOnly(t: string, from: nat) returns (ok: bool)
    requires from <= |t|
    ensures ok == OnlyPadding(t[from..])
  {
    var i := from;
    while i < |t|
      invariant from <= i <= |t|
      invariant forall j :: from <= j < i ==> t[j] == PAD
    {
      if t[i] != PAD {
        assert t[from..][i - from] != PAD;
        return false;
      }
      i := i + 1;
    }
    return true;
  }

  method Decode(t: string, alphabet: Alphabet, behavior: Behavior) returns (r: Result<seq<byte>>)
    ensures r == DecodeText(t, alphabet, behavior)
  {
    var out: seq<byte> := [];
    var (detected, last, bits, i) := (alphabet, 0, 0, 0);
    ghost var vs: seq<sextet> := [];
    while i < |t| && t[i] != PAD
      invariant Consumed(t, alphabet, i, vs, detected)
      invariant Accumulated(vs, last, bits) && out == FromSextets(vs)
    {
      var reading := Value(detected, t[i]);
      if reading.None? {
        RejectSymbol(t, alphabet, behavior, i, vs, detected);
        return InvalidCharacter;
      }
      var part := reading.value.value;
      ConsumeSymbol(t, alphabet, i, vs, detected);
      Accumulate(vs, last, bits, part);
      NextPending(vs, last, bits, part);
      if bits + 6 >= 8 {
        out := out + [ShiftJoin(last, part, bits)];
        bits := bits - 2;
      } else {
        bits := bits + 6;
      }
      vs := vs + [part];
      last, detected, i := part, reading.value.alphabet, i + 1;
    }
    FinishReading(t, alphabet, behavior, i, vs, detected);
    if behavior != Loose {
      var ok := PaddingOnly(t, i);
      if !ok {
        return InvalidCharacter;
      }
    }
    return Ok(out);
  }

  function AsChars(b: seq<byte>): (s: string)
    ensures |s| == |b|
    ensures forall i :: 0 <= i < |b| ==> s[i] == b[i] as char
  {
    seq(|b|, i requires 0 <= i < |b| => b[i] as char)
  }

  /** The text t with its front overwritten by the bytes out. */
  function Overlay(out: seq<byte>, t: string): (s: string)
    requires |out| <= |t|
    ensures |s| == |t|
  {
    AsChars(out) + t[|out|..]
  }

  lemma OverlayNext(out: seq<byte>, b: byte, t: string)
    requires |out| < |t|
    ensures Overlay(out + [b], t) == Overlay(out, t)[|out| := b as char]
  {
  }

  lemma OverlayUnread(out: seq<byte>, t: string, i: nat)
    requires |out| <= i <= |t|
    ensures Overlay(out, t)[i..] == t[i..]
  {
  }

  /** The decoder loop has stopped at i: at the end, at padding or at a character that is no symbol. */
  ghost predicate Stopped(t: string, alphabet: Alphabet, i: nat, vs: seq<sextet>, detected: Alphabet) {
    Consumed(t, alphabet, i, vs, detected) && (i < |t| ==> t[i] == PAD || Value(detected, t[i]).None?)
  }

  /** s is t with exactly the bytes of its readable symbols written over its front. */
  ghost predicate OverwrittenInput(t: string, alphabet: Alphabet, s: string) {
    exists i, vs, detected :: Stopped(t, alphabet, i, vs, detected) && |FromSextets(vs)| <= i
                              && s == Overlay(FromSextets(vs), t)
  }

  /** The decoder loop over its own input: where both cursors stop, or None for a bad symbol. */
  method OverwriteSymbols(a: array<char>, alphabet: Alphabet, ghost behavior: Behavior)
    returns (r: Option<(nat, nat)>, ghost vs: seq<sextet>, ghost detected: Alphabet)
    modifies a
    ensures |FromSextets(vs)| <= |vs| <= a.Length && Stopped(old(a[..]), alphabet, |vs|, vs, detected)
    ensures vs != [] ==> |FromSextets(vs)| < |vs|
    ensures a[..] == Overlay(FromSextets(vs), old(a[..]))
    ensures r.None? ==> DecodeText(old(a[..]), alphabet, behavior) == InvalidCharacter
    ensures r.Some? ==> r.value == (|vs|, |FromSextets(vs)|) && (|vs| < a.Length ==> old(a[..])[|vs|] == PAD)
  {
    ghost var t := a[..];
    var (current, last, bits, i, w) := (alphabet, 0, 0, 0, 0);
    vs, detected := [], alphabet;
    while i < a.Length && a[i] != PAD
      invariant detected == current && Consumed(t, alphabet, i, vs, detected)
      invariant Accumulated(vs, last, bits)
      // the write cursor stays behind the read cursor, so the unread suffix is still the input
      invariant w == |FromSextets(vs)| <= i && (i > 0 ==> w < i)
      invariant a[..] == Overlay(FromSextets(vs), t)
    {
      OverlayUnread(FromSextets(vs), t, i);
      assert a[i] == a[..][i..][0] == t[i];
      var reading := Value(current, a[i]);
      if reading.None? {
        RejectSymbol(t, alphabet, behavior, i, vs, detected);
        return None, vs, detected;
      }
      var part := reading.value.value;
      ConsumeSymbol(t, alphabet, i, vs, detected);
      Accumulate(vs, last, bits, part);
      NextPending(vs, last, bits, part);
      CursorBehind(i + 1);
      if bits + 6 >= 8 {
        var b := ShiftJoin(last, part, bits);
        OverlayNext(FromSextets(vs), b, t);
        a[w] := b as char;
        w := w + 1;
        bits := bits - 2;
      } else {
        bits := bits + 6;
      }
      vs := vs + [part];
      last, current, i := part, reading.value.alphabet, i + 1;
      detected := current;
    }
    OverlayUnread(FromSextets(vs), t, i);
    assert i < a.Length ==> a[i] == a[..][i..][0] == t[i];
    r := Some((i, w));
  }

  /**
   Decoding with the output iterator at the start of the input: the same result as decoding into a
   separate buffer, with everything past the output left as it was, also when it throws.
   */
  method DecodeInPlace(a: array<char>, alphabet: Alphabet, behavior: Behavior) returns (r: Result<nat>)
    modifies a
    ensures match DecodeText(old(a[..]), alphabet, behavior)
            case InvalidCharacter => r == InvalidCharacter
            case Ok(out) => r == Ok(|out|) && |out| <= a.Length && a[..] == Overlay(out, old(a[..]))
    ensures OverwrittenInput(old(a[..]), alphabet, a[..])
  {
    ghost var t := a[..];
    var stop, vs, detected := OverwriteSymbols(a, alphabet, behavior);
    if stop.None? {
      return InvalidCharacter;
    }
    var (i, w) := stop.value;
    FinishReading(t, alphabet, behavior, i, vs, detected);
    if behavior != Loose {
      OverlayUnread(FromSextets(vs), t, i);
      var ok := PaddingOnly(a[..], i);
      if !ok {
        return InvalidCharacter;
      }
    }
    return Ok(w);
  }

  /** The table indices of a group: shifts and masks pick consecutive six-bit fields. */
  method Index0(i0: byte) returns (v: sextet)
    ensures v == i0 / 4
  {
    assert Shr(i0, 2) == i0 / 4;
    v := Shr(i0, 2) % 64;
  }

  method Index1(i0: byte, i1: byte) returns (v: sextet)
    ensures v == i0 % 4 * 16 + i1 / 16
  {
    assert Shr(i1, 4) == i1 / 16 && Pow2(4) == 16;
    v := ShlOr(i0 % 4, 4, Shr(i1, 4) % 16);
  }

  method Index2(i1: byte, i2: byte) returns (v: sextet)
    ensures v == i1 % 16 * 4 + i2 / 64
  {
    assert Pow2(6) == 64;
    assert Shr(i2, 6) == i2 / 64 && i2 / 64 < 4;
    assert Pow2(2) == 4;
    v := ShlOr(i1 % 16, 2, Shr(i2, 6) % 4);
  }

  lemma SpellAppend(alphabet: Alphabet, vs: seq<sextet>, ws: seq<sextet>)
    ensures Spell(alphabet, vs + ws) == Spell(alphabet, vs) + Spell(alphabet, ws)
  {
  }

  lemma NextGroup(b: seq<byte>, q: nat, alphabet: Alphabet)
    requires 3 * q + 3 <= |b|
    ensures var v := Quad(b[3 * q], b[3 * q + 1], b[3 * q + 2]);
            Spell(alphabet, Groups(b, q + 1)) ==
              Spell(alphabet, Groups(b, q)) + [Symbol(alphabet, v[0])] + [Symbol(alphabet, v[1])]
              + [Symbol(alphabet, v[2]), Symbol(alphabet, v[3])]
  {
    SpellAppend(alphabet, Groups(b, q), Quad(b[3 * q], b[3 * q + 1], b[3 * q + 2]));
  }

  /** An encoded text in three parts: the complete groups, the remainder, the padding. */
  lemma EncodedParts(b: seq<byte>, q: nat, alphabet: Alphabet)
    requires 3 * q <= |b| < 3 * q + 3
    ensures EncodeBytes(b, alphabet)
         == Spell(alphabet, Groups(b, q)) + Spell(alphabet, Remainder(b[3 * q..]))
            + Padding(if |b| == 3 * q then 0 else 3 * q + 3 - |b|)
  {
    SextetCount(b, q);
    SpellAppend(alphabet, Groups(b, q), Remainder(b[3 * q..]));
  }

  lemma FinishNone(b: seq<byte>, q: nat, alphabet: Alphabet)
    requires |b| == 3 * q
    ensures EncodeBytes(b, alphabet) == Spell(alphabet, Groups(b, q))
  {
    EncodedParts(b, q, alphabet);
  }

  lemma RemainderOne(r: seq<byte>)
    requires |r| == 1
    ensures Remainder(r) == [r[0] / 4, r[0] % 4 * 16]
  {
  }

  lemma RemainderTwo(r: seq<byte>)
    requires |r| == 2
    ensures Remainder(r) == [r[0] / 4, r[0] % 4 * 16 + r[1] / 16, r[1] % 16 * 4]
  {
  }

  lemma FinishOne(b: seq<byte>, q: nat, alphabet: Alphabet, head: string, out: string)
    requires |b| == 3 * q + 1 && head == Spell(alphabet, Groups(b, q))
    requires var b0 := b[3 * q];
             out == head + [Symbol(alphabet, b0 / 4)] + [Symbol(alphabet, b0 % 4 * 16), PAD, PAD]
    ensures EncodeBytes(b, alphabet) == out
  {
    EncodedParts(b, q, alphabet);
    RemainderOne(b[3 * q..]);
    assert Padding(2) == [PAD, PAD];
  }

  lemma FinishTwo(b: seq<byte>, q: nat, alphabet: Alphabet, head: string, out: string)
    requires |b| == 3 * q + 2 && head == Spell(alphabet, Groups(b, q))
    requires var (b0, b1) := (b[3 * q], b[3 * q + 1]);
             out == head + [Symbol(alphabet, b0 / 4)] + [Symbol(alphabet, b0 % 4 * 16 + b1 / 16)]
                  + [Symbol(alphabet, b1 % 16 * 4), PAD]
    ensures EncodeBytes(b, alphabet) == out
  {
    EncodedParts(b, q, alphabet);
    RemainderTwo(b[3 * q..]);
    assert Padding(1) == [PAD];
  }

  method Encode(b: seq<byte>, alphabet: Alphabet) returns (out: string)
    ensures out == EncodeBytes(b, alphabet)
  {
    out := "";
    var i := 0;
    ghost var q := 0;
    while i < |b|
      invariant i == 3 * q <= |b|
      invariant out == Spell(alphabet, Groups(b, q))
    {
      ghost var head := out;
      var i0 := b[i];
      i := i + 1;
      var v0 := Index0(i0);
      out := out + [Symbol(alphabet, v0)];
      if i == |b| {
        var v1 := Index1(i0, 0);
        out := out + [Symbol(alphabet, v1), PAD, PAD];
        FinishOne(b, q, alphabet, head, out);
        return;
      }
      var i1 := b[i];
      i := i + 1;
      var v1 := Index1(i0, i1);
      out := out + [Symbol(alphabet, v1)];
      if i == |b| {
        var v2 := Index2(i1, 0);
        out := out + [Symbol(alphabet, v2), PAD];
        FinishTwo(b, q, alphabet, head, out);
        return;
      }
      var i2 := b[i];
      i := i + 1;
      var v2 := Index2(i1, i2);
      out := out + [Symbol(alphabet, v2), Symbol(alphabet, i2 % 64)];
      NextGroup(b, q, alphabet);
      q := q + 1;
    }
    FinishNone(b, q, alphabet);
  }
}
