/** The codec in characters: what it writes, what it reads, and which texts are canonical. */
module Base64Letters {
  import opened Bytes
  import opened Numerals
  import opened Base64
  import opened Base64Theorems
  import opened Base64Codec

  // ---- Encoding ----

  lemma ThirdsOf(n: nat, q: nat)
    requires 3 * q <= n < 3 * q + 3
    ensures n % 3 == n - 3 * q && (3 - n % 3) % 3 == (if n == 3 * q then 0 else 3 * q + 3 - n)
    ensures (n + 2) / 3 * 4 == if n == 3 * q then 4 * q else 4 * q + 4
  {
  }

  lemma EncodedSizes(b: seq<byte>, alphabet: Alphabet)
    ensures var (t, vs) := (EncodeBytes(b, alphabet), ToSextets(b));
            |t| == (|b| + 2) / 3 * 4 && |t| == |vs| + (3 - |b| % 3) % 3 && t[..|vs|] == Spell(alphabet, vs)
    ensures OnlyPadding(EncodeBytes(b, alphabet)[|ToSextets(b)|..])
  {
    SextetCount(b, |b| / 3);
    ThirdsOf(|b|, |b| / 3);
    assert EncodeBytes(b, alphabet)[|ToSextets(b)|..] == Padding(PaddingFor(|b|));
  }

  lemma EncodedValue(b: seq<byte>)
    ensures Numeral(ToSextets(b), 64)
         == Numeral(b, 256) * if |b| % 3 == 0 then 1 else if |b| % 3 == 1 then 16 else 4
  {
    ThirdsOf(|b|, |b| / 3);
    SextetCount(b, |b| / 3);
    SextetsNumeral(b, |b| / 3);
  }

  /**
   An encoding is one symbol for each six bits of the bytes, zero bits filling up the last one, and then as many
   equals signs as bytes are missing from the last group of three.
   */
  lemma EncodedLetters(b: seq<byte>, alphabet: Alphabet)
    ensures var t := EncodeBytes(b, alphabet);
            var vs := ToSextets(b);
            && |t| == (|b| + 2) / 3 * 4 && |t| == |vs| + (3 - |b| % 3) % 3
            && (forall i :: 0 <= i < |vs| ==> t[i] == Symbol(alphabet, vs[i]))
            && (forall i :: |vs| <= i < |t| ==> t[i] == '=')
            && Numeral(vs, 64) == Numeral(b, 256) * (if |b| % 3 == 0 then 1 else if |b| % 3 == 1 then 16 else 4)
  {
    var (t, n) := (EncodeBytes(b, alphabet), |ToSextets(b)|);
    EncodedValue(b);
    EncodedSizes(b, alphabet);
    assert forall i :: 0 <= i < n ==> t[i] == t[..n][i];
    assert forall i :: n <= i < |t| ==> t[i] == t[n..][i - n];
  }

  // ---- Decoding ----

  lemma FirstPadSplit(s: string, rest: string)
    requires '=' !in s && (rest != "" ==> rest[0] == '=')
    ensures FirstPad(s + rest) == |s| && (s + rest)[..|s|] == s && (s + rest)[|s|..] == rest
  {
    assert (s + rest)[..|s|] == s;
    FirstPadIs(s + rest, |s|);
  }

  /** Symbols are decoded as base-64 digits, whatever follows the first equals sign if that is allowed. */
  lemma DecodedLetters(vs: seq<sextet>, s: string, rest: string, alphabet: Alphabet, decoder: Alphabet,
                       behavior: Behavior)
    requires |s| == |vs| && forall i :: 0 <= i < |s| ==> s[i] == Symbol(alphabet, vs[i])
    requires rest != "" ==> rest[0] == '='
    requires behavior == Loose || forall i :: 0 <= i < |rest| ==> rest[i] == '='
    requires decoder == Auto || (decoder == UrlFilenameSafe <==> alphabet == UrlFilenameSafe)
    ensures match DecodeText(s + rest, decoder, behavior)
            case InvalidCharacter => false
            case Ok(b) => |b| == 6 * |s| / 8 && Numeral(b, 256) == Numeral(vs, 64) / Pow2(6 * |s| % 8)
  {
    assert s == Spell(alphabet, vs);
    SpelledHasNoPad(alphabet, vs);
    FirstPadSplit(s, rest);
    SpelledSymbols(decoder, alphabet, vs);
    DecoderIsBaseConversion(vs);
  }

  /** A character of one of the two alphabets. */
  ghost predicate IsLetter(alphabet: Alphabet, c: char) {
    exists v: sextet :: c == Symbol(alphabet, v)
  }

  lemma LettersAreRead(alphabet: Alphabet, c: char)
    requires alphabet != Auto
    ensures Value(alphabet, c).Some? <==> IsLetter(alphabet, c)
    ensures Value(alphabet, c).Some? ==> Value(alphabet, c).value.alphabet == alphabet
  {
    if Value(alphabet, c).Some? {
      assert c == Symbol(alphabet, Value(alphabet, c).value.value);
    }
  }

  lemma {:induction false} ReadableIff(alphabet: Alphabet, s: string)
    requires alphabet != Auto
    ensures Symbols(alphabet, s).Some? <==> forall i :: 0 <= i < |s| ==> IsLetter(alphabet, s[i])
    ensures Symbols(alphabet, s).Some? ==> Symbols(alphabet, s).value.alphabet == alphabet
  {
    if s != [] {
      var n := |s| - 1;
      ReadableIff(alphabet, s[..n]);
      LettersAreRead(alphabet, s[n]);
      assert forall i :: 0 <= i < n ==> s[..n][i] == s[i];
    }
  }

  /**
   A text is accepted exactly if everything before the first equals sign is in the alphabet and, unless
   decoding is loose, everything from there on is an equals sign. Detection takes either alphabet, but no mixture.
   */
  lemma AcceptedIff(s: string, rest: string, alphabet: Alphabet, behavior: Behavior)
    requires '=' !in s && (rest != "" ==> rest[0] == '=')
    ensures var standard := forall i :: 0 <= i < |s| ==> IsLetter(Standard, s[i]);
            var url := forall i :: 0 <= i < |s| ==> IsLetter(UrlFilenameSafe, s[i]);
            DecodeText(s + rest, alphabet, behavior).Ok? <==>
              && (match alphabet case Standard => standard case UrlFilenameSafe => url case Auto => standard || url)
              && (behavior == Loose || forall i :: 0 <= i < |rest| ==> rest[i] == '=')
  {
    FirstPadSplit(s, rest);
    ReadableIff(Standard, s);
    ReadableIff(UrlFilenameSafe, s);
    DetectionTracks(s);
  }

  // ---- Canonical form ----

  /** A symbol whose last two bits are zero. */
  ghost predicate EndsTwo(c: char) {
    exists v: sextet :: v % 4 == 0 && c == Symbol(Standard, v)
  }

  /** A symbol whose last four bits are zero. */
  ghost predicate EndsFour(c: char) {
    exists v: sextet :: v % 16 == 0 && c == Symbol(Standard, v)
  }

  lemma Tails(j: nat)
    ensures j < 16 ==> "AEIMQUYcgkosw048"[j] == Symbol(Standard, 4 * j)
    ensures j < 4 ==> "AQgw"[j] == Symbol(Standard, 16 * j)
  {
  }

  /** Which symbols those are. */
  lemma TwoZeroBits(c: char)
    ensures EndsTwo(c) <==> c in "AEIMQUYcgkosw048"
  {
    if EndsTwo(c) {
      var v: sextet :| v % 4 == 0 && c == Symbol(Standard, v);
      Tails(v / 4);
    }
    forall j | 0 <= j < 16 && c == "AEIMQUYcgkosw048"[j] ensures EndsTwo(c) {
      Tails(j);
      assert 4 * j % 4 == 0;
    }
  }

  lemma FourZeroBits(c: char)
    ensures EndsFour(c) <==> c in "AQgw"
  {
    if EndsFour(c) {
      var v: sextet :| v % 16 == 0 && c == Symbol(Standard, v);
      Tails(v / 16);
    }
    forall j | 0 <= j < 4 && c == "AQgw"[j] ensures EndsFour(c) {
      Tails(j);
      assert 16 * j % 16 == 0;
    }
  }

  lemma SymbolOf(v: sextet, w: sextet)
    ensures Symbol(Standard, v) == Symbol(Standard, w) ==> v == w
  {
    SymbolReadBack(Standard, Standard, v);
    SymbolReadBack(Standard, Standard, w);
  }

  lemma ZeroBits(v: sextet)
    ensures v % 4 == 0 <==> EndsTwo(Symbol(Standard, v))
    ensures v % 16 == 0 <==> EndsFour(Symbol(Standard, v))
  {
    forall w: sextet { SymbolOf(v, w); }
  }

  /** How the last quantum of a canonical text ends, after the symbols s. */
  ghost predicate EndsProperly(s: string, rest: string) {
    || rest == ""
    || (rest == "=" && s != "" && EndsTwo(s[|s| - 1]))
    || (rest == "==" && s != "" && EndsFour(s[|s| - 1]))
  }

  /** The last character of a readable text is the symbol for the last value read. */
  lemma LastLetter(s: string)
    requires s != "" && Symbols(Standard, s).Some?
    ensures s[|s| - 1] == Symbol(Standard, LastOf(Symbols(Standard, s).value.values))
  {
    RespellSymbols(s);
  }

  lemma PendingByLength(vs: seq<sextet>)
    ensures |vs| % 4 == 0 ==> Pending(vs) == 0
    ensures |vs| % 4 == 2 ==> Pending(vs) == LastOf(vs) % 16
    ensures |vs| % 4 == 3 ==> Pending(vs) == LastOf(vs) % 4
  {
    BitQuotients(|vs|);
  }

  /** The bits left pending when the last quantum lacks some symbols. */
  lemma PendingAtEnd(vs: seq<sextet>, pads: nat)
    requires (|vs| + pads) % 4 == 0 && pads <= 2
    ensures Pending(vs) == if pads == 0 then 0 else if pads == 1 then LastOf(vs) % 4 else LastOf(vs) % 16
  {
    PendingByLength(vs);
  }

  lemma EndsByBits(s: string, rest: string, last: sextet, pending: nat)
    requires rest == "" || rest == "=" || rest == "=="
    requires pending == if |rest| == 0 then 0 else if |rest| == 1 then last % 4 else last % 16
    requires rest != "" ==> s != "" && s[|s| - 1] == Symbol(Standard, last)
    ensures pending == 0 <==> EndsProperly(s, rest)
  {
    ZeroBits(last);
    if |rest| == 1 {
      assert rest == "=" && rest != "==";
    } else if |rest| == 2 {
      assert rest == "==" && rest != "=";
    }
  }

  lemma EndsByValues(s: string, rest: string, vs: seq<sextet>, q: nat)
    requires |vs| == |s| && |vs| + |rest| == 4 * q
    requires rest == "" || rest == "=" || rest == "=="
    requires s != "" ==> s[|s| - 1] == Symbol(Standard, LastOf(vs))
    ensures Pending(vs) == 0 <==> EndsProperly(s, rest)
  {
    PendingAtEnd(vs, |rest|);
    EndsByBits(s, rest, LastOf(vs), Pending(vs));
  }

  /** No bit is left pending exactly if the text ends in one of the proper ways. */
  lemma EndsProperlyIff(s: string, rest: string, q: nat)
    requires Symbols(Standard, s).Some? && |s| + |rest| == 4 * q
    requires rest == "" || rest == "=" || rest == "=="
    ensures Pending(Symbols(Standard, s).value.values) == 0 <==> EndsProperly(s, rest)
  {
    if s != "" {
      LastLetter(s);
    }
    EndsByValues(s, rest, Symbols(Standard, s).value.values, q);
  }

  lemma PadsAre(rest: string)
    ensures OnlyPadding(rest) && |rest| <= 2 <==> rest == "" || rest == "=" || rest == "=="
  {
    if OnlyPadding(rest) && |rest| <= 2 {
      assert rest == if |rest| == 0 then "" else if |rest| == 1 then "=" else "==";
    }
  }

  /** Canonical texts: whole quanta of symbols, the last of them padded in one of the two ways RFC 4648 allows. */
  lemma CanonicalLetters(s: string, rest: string)
    requires '=' !in s && (rest != "" ==> rest[0] == '=')
    ensures Canonical(s + rest) <==>
              && (forall i :: 0 <= i < |s| ==> IsLetter(Standard, s[i]))
              && (|s| + |rest|) % 4 == 0
              && EndsProperly(s, rest)
  {
    FirstPadSplit(s, rest);
    ReadableIff(Standard, s);
    PadsAre(rest);
    if Symbols(Standard, s).Some? && (|s| + |rest|) % 4 == 0 && |rest| <= 2 && OnlyPadding(rest) {
      EndsProperlyIff(s, rest, (|s| + |rest|) / 4);
    }
  }

  /** The advertised sizes in closed form: a third and a quarter of the size, rounded up. */
  lemma SizesInFigures(size: nat)
    ensures RequiredEncodeSize(size) == (size + 2) / 3 * 4 && MaxDecodeSize(size) == (size + 3) / 4 * 3
  {
  }
}
