/** Base64 as base conversion; round trip, canonical form and alphabet detection follow from it. */
module Base64Theorems {
  import opened Bytes
  import opened Numerals
  import opened Base64

  // ---- Base conversion ----

  /** The decoder's bookkeeping: every symbol brings six bits, pending or emitted. */
  lemma {:induction false} BitAccounting(n: nat)
    ensures 8 * EmittedBytes(n) + PendingBits(n) == 6 * n
  {
    if n > 0 {
      BitAccounting(n - 1);
    }
  }

  /** The same in closed form. */
  lemma BitQuotients(n: nat)
    ensures PendingBits(n) == 6 * n % 8 && EmittedBytes(n) == 6 * n / 8
  {
    BitAccounting(n);
    QuotientRemainderUnique(EmittedBytes(n), PendingBits(n), 6 * n / 8, 6 * n % 8, 8);
  }

  /** 2^bits for the four numbers of bits that can be pending. */
  ghost function Weight(bits: nat): nat {
    if bits == 0 then 1 else if bits == 2 then 4 else if bits == 4 then 16 else 64
  }

  ghost function LastOf(vs: seq<sextet>): sextet {
    if vs == [] then 0 else vs[|vs| - 1]
  }

  /** The low bits of the last symbol that the decoder has not emitted yet. */
  ghost function Pending(vs: seq<sextet>): nat {
    LastOf(vs) % Weight(PendingBits(|vs|))
  }

  lemma SplitStep(value: nat, emitted: nat, last: sextet, part: sextet, n: nat)
    requires value == emitted * Weight(PendingBits(n)) + last % Weight(PendingBits(n))
    ensures var bits := PendingBits(n);
            var emitted' := if bits >= 2 then emitted * 256 + Joined(last, part, bits) else emitted;
            value * 64 + part == emitted' * Weight(PendingBits(n + 1)) + part % Weight(PendingBits(n + 1))
  {
  }

  /** Consuming n symbols splits their base-64 value into the emitted bytes and the pending bits. */
  lemma {:induction false} DecodedNumeral(vs: seq<sextet>)
    ensures Numeral(vs, 64) == Numeral(FromSextets(vs), 256) * Weight(PendingBits(|vs|)) + Pending(vs)
  {
    if vs != [] {
      var n := |vs| - 1;
      var out := FromSextets(vs[..n]);
      DecodedNumeral(vs[..n]);
      SplitStep(Numeral(vs[..n], 64), Numeral(out, 256), LastOf(vs[..n]), vs[n], n);
      if PendingBits(n) >= 2 {
        NumeralSnoc(out, Joined(vs[n - 1], vs[n], PendingBits(n)), 256);
      }
    }
  }

  lemma FloorDivision(value: nat, quotient: nat, weight: nat, rest: nat)
    requires rest < weight && value == quotient * weight + rest
    ensures value / weight == quotient
  {
    QuotientRemainderUnique(value / weight, value % weight, quotient, rest, weight);
  }

  /** The decoder is floor division of the base-64 value by 2^(6n mod 8). */
  lemma DecoderIsBaseConversion(vs: seq<sextet>)
    ensures |FromSextets(vs)| == 6 * |vs| / 8
    ensures Numeral(FromSextets(vs), 256) == Numeral(vs, 64) / Pow2(6 * |vs| % 8)
  {
    BitQuotients(|vs|);
    DecodedNumeral(vs);
    var bits := PendingBits(|vs|);
    FloorDivision(Numeral(vs, 64), Numeral(FromSextets(vs), 256), Weight(bits), Pending(vs));
    assert Pow2(bits) == Weight(bits);
  }

  lemma NumeralSnoc2(ds: seq<nat>, d0: nat, d1: nat, base: nat)
    ensures Numeral(ds + [d0, d1], base) == (Numeral(ds, base) * base + d0) * base + d1
  {
    NumeralSnoc(ds, d0, base);
    NumeralSnoc(ds + [d0], d1, base);
    assert ds + [d0, d1] == ds + [d0] + [d1];
  }

  lemma NumeralSnoc3(ds: seq<nat>, d0: nat, d1: nat, d2: nat, base: nat)
    ensures Numeral(ds + [d0, d1, d2], base)
         == ((Numeral(ds, base) * base + d0) * base + d1) * base + d2
  {
    NumeralSnoc2(ds, d0, d1, base);
    NumeralSnoc(ds + [d0, d1], d2, base);
    assert ds + [d0, d1, d2] == ds + [d0, d1] + [d2];
  }

  lemma NumeralSnoc4(ds: seq<nat>, d0: nat, d1: nat, d2: nat, d3: nat, base: nat)
    ensures Numeral(ds + [d0, d1, d2, d3], base)
         == (((Numeral(ds, base) * base + d0) * base + d1) * base + d2) * base + d3
  {
    NumeralSnoc3(ds, d0, d1, d2, base);
    NumeralSnoc(ds + [d0, d1, d2], d3, base);
    assert ds + [d0, d1, d2, d3] == ds + [d0, d1, d2] + [d3];
  }

  lemma {:induction false} GroupsNumeral(b: seq<byte>, q: nat)
    requires 3 * q <= |b|
    ensures Numeral(Groups(b, q), 64) == Numeral(b[..3 * q], 256)
  {
    if q > 0 {
      GroupsNumeral(b, q - 1);
      var (b0, b1, b2) := (b[3 * q - 3], b[3 * q - 2], b[3 * q - 1]);
      var v := Quad(b0, b1, b2);
      assert b[..3 * q] == b[..3 * q - 3] + [b0, b1, b2];
      NumeralSnoc3(b[..3 * q - 3], b0, b1, b2, 256);
      NumeralSnoc4(Groups(b, q - 1), v[0], v[1], v[2], v[3], 64);
    }
  }

  /** Where the decoder stands after q quanta and some symbols of the next one. */
  lemma {:induction false} QuantumPhase(q: nat)
    ensures PendingBits(4 * q) == 0 && EmittedBytes(4 * q) == 3 * q
    ensures PendingBits(4 * q + 1) == 6 && EmittedBytes(4 * q + 1) == 3 * q
    ensures PendingBits(4 * q + 2) == 4 && EmittedBytes(4 * q + 2) == 3 * q + 1
    ensures PendingBits(4 * q + 3) == 2 && EmittedBytes(4 * q + 3) == 3 * q + 2
  {
    if q > 0 {
      QuantumPhase(q - 1);
    }
    assert PendingBits(4 * q) == 0;
    assert PendingBits(4 * q + 1) == 6;
    assert PendingBits(4 * q + 2) == 4;
  }

  lemma RemainderNumeral(g: seq<sextet>, r: seq<byte>)
    requires |r| < 3
    ensures Numeral(g + Remainder(r), 64)
         == if |r| == 0 then Numeral(g, 64)
            else if |r| == 1 then (Numeral(g, 64) * 256 + r[0]) * 16
            else ((Numeral(g, 64) * 256 + r[0]) * 256 + r[1]) * 4
  {
    var v := Remainder(r);
    if |r| == 0 {
      assert g + v == g;
    } else if |r| == 1 {
      assert v == [v[0], v[1]];
      NumeralSnoc2(g, v[0], v[1], 64);
    } else {
      assert v == [v[0], v[1], v[2]];
      NumeralSnoc3(g, v[0], v[1], v[2], 64);
    }
  }

  lemma BytesNumeral(b: seq<byte>, n: nat)
    requires n <= |b| < n + 3
    ensures Numeral(b, 256)
         == if |b| == n then Numeral(b[..n], 256)
            else if |b| == n + 1 then Numeral(b[..n], 256) * 256 + b[n]
            else (Numeral(b[..n], 256) * 256 + b[n]) * 256 + b[n + 1]
  {
    if |b| == n {
      assert b[..n] == b;
    } else if |b| == n + 1 {
      assert b == b[..n] + [b[n]];
      NumeralSnoc(b[..n], b[n], 256);
    } else {
      assert b == b[..n] + [b[n], b[n + 1]];
      NumeralSnoc2(b[..n], b[n], b[n + 1], 256);
    }
  }

  lemma SextetsPhase(b: seq<byte>, q: nat)
    requires 3 * q <= |b| < 3 * q + 3
    ensures EmittedBytes(|Sextets(b, q)|) == |b|
    ensures Weight(PendingBits(|Sextets(b, q)|)) == if |b| == 3 * q then 1 else if |b| == 3 * q + 1 then 16 else 4
  {
    QuantumPhase(q);
  }

  lemma SextetsNumeral(b: seq<byte>, q: nat)
    requires 3 * q <= |b| < 3 * q + 3
    ensures Numeral(Sextets(b, q), 64)
         == Numeral(b, 256) * if |b| == 3 * q then 1 else if |b| == 3 * q + 1 then 16 else 4
  {
    GroupsNumeral(b, q);
    BytesNumeral(b, 3 * q);
    RemainderNumeral(Groups(b, q), b[3 * q..]);
  }

  /** The encoder shifts the base-256 value left by exactly the bits the decoder drops. */
  lemma EncoderIsBaseConversion(b: seq<byte>)
    ensures EmittedBytes(|ToSextets(b)|) == |b|
    ensures Numeral(ToSextets(b), 64) == Numeral(b, 256) * Weight(PendingBits(|ToSextets(b)|))
  {
    SextetsPhase(b, |b| / 3);
    SextetsNumeral(b, |b| / 3);
  }

  // ---- Round trip ----

  lemma ScaleInjective(x: nat, y: nat, w: nat, rest: nat)
    requires rest < w && x * w + rest == y * w
    ensures x == y && rest == 0
  {
    QuotientRemainderUnique(x, rest, y, 0, w);
  }

  /** The symbols of an encoding decode to its bytes and leave no bit set. */
  lemma SextetRoundTrip(b: seq<byte>)
    ensures FromSextets(ToSextets(b)) == b
    ensures Pending(ToSextets(b)) == 0
  {
    var vs := ToSextets(b);
    EncoderIsBaseConversion(b);
    DecodedNumeral(vs);
    ScaleInjective(Numeral(FromSextets(vs), 256), Numeral(b, 256), Weight(PendingBits(|vs|)), Pending(vs));
    NumeralInjective(FromSextets(vs), b, 256);
  }

  /** A decoder alphabet that can read what an encoder alphabet spells. */
  predicate Reads(decoder: Alphabet, encoder: Alphabet) {
    decoder == Auto || decoder == if encoder == UrlFilenameSafe then UrlFilenameSafe else Standard
  }

  lemma SymbolReadBack(decoder: Alphabet, encoder: Alphabet, v: sextet)
    requires Reads(decoder, encoder)
    ensures var r := Value(decoder, Symbol(encoder, v));
            r.Some? && r.value.value == v && Reads(r.value.alphabet, encoder)
  {
  }

  lemma SymbolsSnoc(alphabet: Alphabet, s: string, c: char)
    requires Symbols(alphabet, s).Some?
    requires Value(Symbols(alphabet, s).value.alphabet, c).Some?
    ensures var p := Symbols(alphabet, s).value;
            var r := Value(p.alphabet, c).value;
            Symbols(alphabet, s + [c]) == Some(Parsed(p.values + [r.value], r.alphabet))
  {
    assert (s + [c])[..|s|] == s;
  }

  lemma {:induction false} SpelledSymbols(decoder: Alphabet, encoder: Alphabet, vs: seq<sextet>)
    requires Reads(decoder, encoder)
    ensures var p := Symbols(decoder, Spell(encoder, vs));
            p.Some? && p.value.values == vs && Reads(p.value.alphabet, encoder)
  {
    if vs != [] {
      var n := |vs| - 1;
      var s := Spell(encoder, vs[..n]);
      SpelledSymbols(decoder, encoder, vs[..n]);
      var p := Symbols(decoder, s).value;
      SymbolReadBack(p.alphabet, encoder, vs[n]);
      SymbolsSnoc(decoder, s, Symbol(encoder, vs[n]));
      assert Spell(encoder, vs) == s + [Symbol(encoder, vs[n])];
      assert vs == vs[..n] + [vs[n]];
    }
  }

  lemma FirstPadUnique(s: string, pads: string)
    requires PAD !in s && OnlyPadding(pads)
    ensures FirstPad(s + pads) == |s|
  {
    var t := s + pads;
    var p := FirstPad(t);
    assert forall i :: 0 <= i < |s| ==> t[i] in s;
    assert |s| < |t| ==> t[|s|] == PAD;
    assert forall i :: 0 <= i < p ==> t[i] in t[..p];
  }

  lemma SpelledHasNoPad(alphabet: Alphabet, vs: seq<sextet>)
    ensures PAD !in Spell(alphabet, vs)
  {
  }

  /** The decoder's view of an encoded text. */
  lemma EncodedShape(b: seq<byte>, encoder: Alphabet, decoder: Alphabet)
    requires Reads(decoder, encoder)
    ensures var t := EncodeBytes(b, encoder);
            var n := |ToSextets(b)|;
            && |t| == n + PaddingFor(|b|) && FirstPad(t) == n && OnlyPadding(t[n..])
            && Symbols(decoder, t[..n]).Some? && Symbols(decoder, t[..n]).value.values == ToSextets(b)
  {
    var vs := ToSextets(b);
    var (s, pads) := (Spell(encoder, vs), Padding(PaddingFor(|b|)));
    SpelledHasNoPad(encoder, vs);
    FirstPadUnique(s, pads);
    assert (s + pads)[..|s|] == s && (s + pads)[|s|..] == pads;
    SpelledSymbols(decoder, encoder, vs);
  }

  /** Decoding undoes encoding, with the encoder's alphabet or detection, under either behaviour. */
  lemma RoundTrip(b: seq<byte>, encoder: Alphabet, decoder: Alphabet, behavior: Behavior)
    requires Reads(decoder, encoder)
    ensures DecodeText(EncodeBytes(b, encoder), decoder, behavior) == Ok(b)
  {
    EncodedShape(b, encoder, decoder);
    SextetRoundTrip(b);
  }

  // ---- Canonical form ----

  /** RFC 4648 sections 3.5 and 4: whole quanta, minimal padding, zero trailing bits. */
  ghost predicate Canonical(t: string) {
    var n := FirstPad(t);
    && Symbols(Standard, t[..n]).Some?
    && |t| % 4 == 0
    && |t| - n <= 2
    && OnlyPadding(t[n..])
    && Pending(Symbols(Standard, t[..n]).value.values) == 0
  }

  lemma {:induction false} RespellSymbols(s: string)
    requires Symbols(Standard, s).Some?
    ensures Symbols(Standard, s).value.alphabet == Standard
    ensures Spell(Standard, Symbols(Standard, s).value.values) == s
  {
    if s != [] {
      RespellSymbols(s[..|s| - 1]);
    }
  }

  lemma SextetCount(b: seq<byte>, q: nat)
    requires 3 * q <= |b| < 3 * q + 3
    ensures ToSextets(b) == Sextets(b, q)
    ensures |ToSextets(b)| == if |b| == 3 * q then 4 * q else |b| + q + 1
    ensures PaddingFor(|b|) == if |b| == 3 * q then 0 else 3 * q + 3 - |b|
  {
  }

  lemma EncodedLength(b: seq<byte>)
    ensures (|ToSextets(b)| + PaddingFor(|b|)) % 4 == 0 && PaddingFor(|b|) <= 2
  {
    SextetCount(b, |b| / 3);
  }

  lemma SextetLength(vs: seq<sextet>, q: nat)
    requires |vs| == 4 * q || |vs| == 4 * q + 2 || |vs| == 4 * q + 3
    ensures |ToSextets(FromSextets(vs))| == |vs|
    ensures PaddingFor(|FromSextets(vs)|) == if |vs| == 4 * q then 0 else 4 * q + 4 - |vs|
  {
    QuantumPhase(q);
    SextetCount(FromSextets(vs), q);
  }

  lemma SextetCanonical(vs: seq<sextet>)
    requires |ToSextets(FromSextets(vs))| == |vs| && Pending(vs) == 0
    ensures ToSextets(FromSextets(vs)) == vs
  {
    DecodedNumeral(vs);
    EncoderIsBaseConversion(FromSextets(vs));
    NumeralInjective(ToSextets(FromSextets(vs)), vs, 64);
  }

  lemma CanonicalIntro(t: string, n: nat, vs: seq<sextet>)
    requires n == FirstPad(t) && OnlyPadding(t[n..]) && |t| % 4 == 0 && |t| - n <= 2
    requires Symbols(Standard, t[..n]).Some? && Symbols(Standard, t[..n]).value.values == vs
    requires Pending(vs) == 0
    ensures Canonical(t)
  {
  }

  lemma EncodingIsCanonical(b: seq<byte>)
    ensures Canonical(EncodeBytes(b, Standard))
  {
    var (t, vs) := (EncodeBytes(b, Standard), ToSextets(b));
    EncodedShape(b, Standard, Standard);
    assert |t| % 4 == 0 && |t| - |vs| <= 2 by {
      EncodedLength(b);
    }
    assert Pending(vs) == 0 by {
      SextetRoundTrip(b);
    }
    CanonicalIntro(t, |vs|, vs);
  }

  lemma CanonicalLength(n: nat, pads: nat) returns (q: nat)
    requires (n + pads) % 4 == 0 && pads <= 2
    ensures (n == 4 * q && pads == 0) || (n == 4 * q + 2 && pads == 2) || (n == 4 * q + 3 && pads == 1)
  {
    q := n / 4;
  }

  lemma CanonicalSextets(vs: seq<sextet>, pads: nat)
    requires (|vs| + pads) % 4 == 0 && pads <= 2 && Pending(vs) == 0
    ensures ToSextets(FromSextets(vs)) == vs && PaddingFor(|FromSextets(vs)|) == pads
  {
    var q := CanonicalLength(|vs|, pads);
    SextetLength(vs, q);
    SextetCanonical(vs);
  }

  lemma ReassembleText(t: string, n: nat, vs: seq<sextet>)
    requires n <= |t| && OnlyPadding(t[n..]) && Spell(Standard, vs) == t[..n]
    requires ToSextets(FromSextets(vs)) == vs && PaddingFor(|FromSextets(vs)|) == |t| - n
    ensures EncodeBytes(FromSextets(vs), Standard) == t
  {
    assert Padding(|t| - n) == t[n..];
    assert t == t[..n] + t[n..];
  }

  lemma CanonicalReencodes(t: string)
    requires Canonical(t)
    ensures DecodeText(t, Standard, Moderate).Ok?
    ensures EncodeBytes(DecodeText(t, Standard, Moderate).value, Standard) == t
  {
    var n := FirstPad(t);
    var vs := Symbols(Standard, t[..n]).value.values;
    CanonicalSextets(vs, |t| - n);
    RespellSymbols(t[..n]);
    ReassembleText(t, n, vs);
  }

  /** Among the accepted texts, re-encoding gives the text back exactly for the canonical ones. */
  lemma ReencodingIffCanonical(t: string)
    requires DecodeText(t, Standard, Moderate).Ok?
    ensures EncodeBytes(DecodeText(t, Standard, Moderate).value, Standard) == t <==> Canonical(t)
  {
    EncodingIsCanonical(DecodeText(t, Standard, Moderate).value);
    if Canonical(t) {
      CanonicalReencodes(t);
    }
  }

  /** The texts the encoder can produce are exactly the canonical ones. */
  lemma EncoderImage(t: string)
    ensures Canonical(t) <==> exists b :: EncodeBytes(b, Standard) == t
  {
    if Canonical(t) {
      CanonicalReencodes(t);
    } else {
      forall b ensures EncodeBytes(b, Standard) != t {
        EncodingIsCanonical(b);
      }
    }
  }

  // ---- Alphabet detection ----

  /** Detection commits to an alphabet at the first symbol that decides, and never again. */
  lemma {:induction false} DetectionTracks(s: string)
    ensures match Symbols(Auto, s)
            case None => Symbols(Standard, s).None? && Symbols(UrlFilenameSafe, s).None?
            case Some(p) =>
              && (p.alphabet != UrlFilenameSafe <==> Symbols(Standard, s) == Some(Parsed(p.values, Standard)))
              && (p.alphabet != UrlFilenameSafe <==> Symbols(Standard, s).Some?)
              && (p.alphabet != Standard <==> Symbols(UrlFilenameSafe, s) == Some(Parsed(p.values, UrlFilenameSafe)))
              && (p.alphabet != Standard <==> Symbols(UrlFilenameSafe, s).Some?)
  {
    if s != [] {
      DetectionTracks(s[..|s| - 1]);
    }
  }

  /** Detection succeeds with r exactly when one of the fixed alphabets does; the two never disagree. */
  lemma DetectionIsUnion(t: string, behavior: Behavior, r: seq<byte>)
    ensures DecodeText(t, Auto, behavior) == Ok(r)
       <==> DecodeText(t, Standard, behavior) == Ok(r) || DecodeText(t, UrlFilenameSafe, behavior) == Ok(r)
    ensures DecodeText(t, Standard, behavior).Ok? && DecodeText(t, UrlFilenameSafe, behavior).Ok?
        ==> DecodeText(t, Standard, behavior) == DecodeText(t, UrlFilenameSafe, behavior)
  {
    DetectionTracks(t[..FirstPad(t)]);
  }

  /** Once an alphabet is fixed after a prefix, every longer prefix keeps it. */
  lemma {:induction false} AlphabetIsStable(alphabet: Alphabet, s: string, n: nat)
    requires n <= |s| && Symbols(alphabet, s).Some?
    ensures Symbols(alphabet, s[..n]).Some?
    ensures var fixed := Symbols(alphabet, s[..n]).value.alphabet;
            fixed != Auto ==> Symbols(alphabet, s).value.alphabet == fixed
  {
    if n < |s| {
      AlphabetIsStable(alphabet, s[..|s| - 1], n);
      assert s[..|s| - 1][..n] == s[..n];
    } else {
      assert s[..n] == s;
    }
  }

  // ---- Buffer sizes ----

  /** The advertised sizes: exact for encoding, an upper bound for decoding. */
  lemma AdvertisedSizes(b: seq<byte>, t: string, alphabet: Alphabet, behavior: Behavior)
    ensures |EncodeBytes(b, alphabet)| == RequiredEncodeSize(|b|)
    ensures DecodeText(t, alphabet, behavior).Ok?
        ==> |DecodeText(t, alphabet, behavior).value| <= MaxDecodeSize(|t|)
  {
    SextetCount(b, |b| / 3);
    BitAccounting(FirstPad(t));
  }
}
