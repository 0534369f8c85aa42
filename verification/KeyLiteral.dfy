/** Key literals of the `key` pragma: r'...' for raw passwords, x'...' for hexadecimal ones. */
module KeyLiteral {
  import opened Bytes
  import opened Numerals

  /** A C character. */
  type char8 = c: char | c as int < 256

  type nibble = x: int | 0 <= x < 16

  datatype Password =
    | Password(bytes: seq<byte>)
    | BadFormat
    | UnknownFormat
    | BadHexCharacter(c: char8)

  /** The value of a hexadecimal digit, -1 for every other character. */
  function HexDigit(c: char): int {
    if '0' <= c <= '9' then c as int - '0' as int
    else if 'a' <= c <= 'f' then c as int - 'a' as int + 10
    else if 'A' <= c <= 'F' then c as int - 'A' as int + 10
    else -1
  }

  /** The digits by their characters, in both cases, and nothing else. */
  lemma HexDigitTable(c: char)
    ensures forall d: nibble :: HexDigit("0123456789abcdef"[d]) == d == HexDigit("0123456789ABCDEF"[d])
    ensures HexDigit(c) == -1 || 0 <= HexDigit(c) < 16
    ensures HexDigit(c) >= 0 <==> c in "0123456789abcdefABCDEF"
  {
  }

  predicate IsHex(c: char) {
    HexDigit(c) >= 0
  }

  predicate AllHex(s: seq<char8>) {
    forall i :: 0 <= i < |s| ==> IsHex(s[i])
  }

  function Nibbles(s: seq<char8>): (ds: seq<nibble>)
    requires AllHex(s)
    ensures |ds| == |s| && forall i :: 0 <= i < |s| ==> ds[i] == HexDigit(s[i])
  {
    seq(|s|, i requires 0 <= i < |s| => HexDigit(s[i]))
  }

  function HexByte(hi: nibble, lo: nibble): byte {
    var h: int := hi;
    h * 16 + lo
  }

  /** Pairs of digits from the right; a digit left over becomes the first byte. */
  function Pack(ds: seq<nibble>): seq<byte> {
    var n := |ds|;
    if n == 0 then []
    else if n == 1 then [ds[0]]
    else Pack(ds[..n - 2]) + [HexByte(ds[n - 2], ds[n - 1])]
  }

  function CharBytes(s: seq<char8>): (b: seq<byte>)
    ensures |b| == |s| && forall i :: 0 <= i < |s| ==> b[i] == s[i] as int
  {
    seq(|s|, i requires 0 <= i < |s| => s[i] as int)
  }

  predicate Quoted(value: seq<char8>) {
    var n := |value|;
    n >= 3 && value[1] == value[n - 1] && (value[1] == '\'' || value[1] == '"')
  }

  function Body(value: seq<char8>): seq<char8>
    requires |value| >= 3
  {
    value[2..|value| - 1]
  }

  predicate FirstBad(s: seq<char8>, k: nat) {
    k < |s| && !IsHex(s[k]) && AllHex(s[..k])
  }

  function FirstBadIndex(s: seq<char8>): (k: nat)
    ensures k <= |s| && AllHex(s[..k])
    ensures k < |s| ==> !IsHex(s[k])
  {
    if s == [] || !IsHex(s[0]) then 0
    else
      var k := 1 + FirstBadIndex(s[1..]);
      assert forall i :: 0 < i < k ==> s[i] == s[1..][..k - 1][i - 1];
      k
  }

  /** What a literal means, with no reference to the parser's pointer. */
  function Meaning(value: seq<char8>): Password {
    if !Quoted(value) then BadFormat
    else
      var body := Body(value);
      if value[0] == 'r' then Password.Password(CharBytes(body))
      else if value[0] != 'x' then UnknownFormat
      else if AllHex(body) then Password.Password(Pack(Nibbles(body)))
      else
        assert FirstBadIndex(body) < |body| by {
          assert body[..|body|] == body;
        }
        BadHexCharacter(body[FirstBadIndex(body)])
  }

  // ---- The parser ----

  /** The inner loop: two digits into one byte, or the first of them that is none. */
  method ReadPair(value: seq<char8>, from: nat) returns (b: byte, bad: Option<nat>)
    requires from + 2 <= |value|
    ensures bad.None? ==> IsHex(value[from]) && IsHex(value[from + 1])
    ensures bad.None? ==> b == HexDigit(value[from]) * 16 + HexDigit(value[from + 1])
    ensures bad.Some? ==> (bad.value == from || bad.value == from + 1) && !IsHex(value[bad.value])
    ensures bad.Some? && bad.value == from + 1 ==> IsHex(value[from])
  {
    b := 0;
    var j := 0;
    while j < 2
      invariant 0 <= j <= 2
      invariant j == 0 ==> b == 0
      invariant j == 1 ==> IsHex(value[from]) && b == HexDigit(value[from])
      invariant j == 2 ==> IsHex(value[from]) && IsHex(value[from + 1])
      invariant j == 2 ==> b == HexDigit(value[from]) * 16 + HexDigit(value[from + 1])
    {
      var v := HexDigit(value[from + j]);
      if v < 0 {
        return b, Some(from + j);
      }
      assert Pow2(4) == 16;
      b := ToByte(ShlOr(b, 4, v));
      j := j + 1;
    }
    return b, None;
  }

  lemma PackPair(s: seq<char8>, n: nat)
    requires n + 2 <= |s| && AllHex(s[..n]) && IsHex(s[n]) && IsHex(s[n + 1])
    ensures AllHex(s[..n + 2])
    ensures Pack(Nibbles(s[..n + 2])) == Pack(Nibbles(s[..n])) + [HexDigit(s[n]) * 16 + HexDigit(s[n + 1])]
  {
    var ds := Nibbles(s[..n + 2]);
    assert ds[..n] == Nibbles(s[..n]);
  }

  lemma {:induction false} PackLength(ds: seq<nibble>)
    ensures |Pack(ds)| == (|ds| + 1) / 2
  {
    if |ds| > 1 {
      PackLength(ds[..|ds| - 2]);
    }
  }

  lemma FirstBadUnique(s: seq<char8>, k: nat, k': nat)
    requires FirstBad(s, k) && FirstBad(s, k')
    ensures k == k'
  {
    assert forall i :: 0 <= i < k ==> s[..k][i] == s[i];
    assert forall i :: 0 <= i < k' ==> s[..k'][i] == s[i];
  }

  lemma BadDigit(value: seq<char8>, k: nat)
    requires Quoted(value) && value[0] == 'x' && FirstBad(Body(value), k)
    ensures Meaning(value) == BadHexCharacter(value[k + 2])
  {
    FirstBadUnique(Body(value), k, FirstBadIndex(Body(value)));
  }

  /** The first digit found bad in a pair is the first bad digit of the body. */
  lemma BadPair(value: seq<char8>, n: nat, k: nat)
    requires Quoted(value) && value[0] == 'x' && n + 2 <= |Body(value)| && AllHex(Body(value)[..n])
    requires k == n + 2 || (k == n + 3 && IsHex(value[n + 2]))
    requires !IsHex(value[k])
    ensures Meaning(value) == BadHexCharacter(value[k])
  {
    assert FirstBad(Body(value), k - 2);
    BadDigit(value, k - 2);
  }

  /** The outer loop, over the pairs that follow the odd digit if there is one. */
  method ParsePairs(value: seq<char8>, start: nat, odd: nat, half: nat, first: seq<byte>) returns (p: Password)
    requires Quoted(value) && value[0] == 'x' && odd <= 1
    requires |value| - 3 == 2 * half + odd && start == 2 - odd
    requires AllHex(Body(value)[..odd]) && first == Pack(Nibbles(Body(value)[..odd]))
    ensures p == Meaning(value)
  {
    ghost var body := Body(value);
    var key := first;
    var i := odd;
    ghost var n := odd;
    while i < half + odd
      invariant odd <= i <= half + odd && n == 2 * i - odd
      invariant AllHex(body[..n]) && key == Pack(Nibbles(body[..n]))
    {
      // the pair lies inside the body
      assert start + 2 * i == n + 2 && n + 2 <= |body|;
      var b, bad := ReadPair(value, start + 2 * i);
      if bad.Some? {
        BadPair(value, n, bad.value);
        return BadHexCharacter(value[bad.value]);
      }
      PackPair(body, n);
      key := key + [b];
      i, n := i + 1, n + 2;
    }
    assert body[..n] == body;
    return Password.Password(key);
  }

  /**
   The hexadecimal branch: with an odd number of digits the first one is a byte of its own, and
   the pointer into the literal then steps back by one.
   */
  method ParseHex(value: seq<char8>) returns (p: Password)
    requires Quoted(value) && value[0] == 'x'
    ensures p == Meaning(value)
  {
    var length := |value| - 3;
    var half, odd := length / 2, length % 2;
    if odd == 1 {
      var v := HexDigit(value[2]);
      if v < 0 {
        BadDigit(value, 0);
        return BadHexCharacter(value[2]);
      }
      assert Body(value)[..1] == [value[2]];
      assert Nibbles(Body(value)[..1]) == [v];
      p := ParsePairs(value, 1, odd, half, [v]);
    } else {
      p := ParsePairs(value, 2, odd, half, []);
    }
  }

  method ParseKey(value: seq<char8>) returns (p: Password)
    ensures p == Meaning(value)
  {
    var length := |value|;
    if length < 3 || value[1] != value[length - 1] || (value[1] != '\'' && value[1] != '"') {
      return BadFormat;
    }
    length := length - 3;
    if value[0] == 'r' {
      assert value[2..2 + length] == Body(value);
      return Password.Password(CharBytes(value[2..2 + length]));
    } else if value[0] == 'x' {
      p := ParseHex(value);
    } else {
      return UnknownFormat;
    }
  }

  // ---- What the meaning amounts to ----

  /** The packed bytes are the big-endian value of the digits. */
  lemma {:induction false} PackNumeral(ds: seq<nibble>)
    ensures Numeral(Pack(ds), 256) == Numeral(ds, 16)
  {
    var n := |ds|;
    if n == 1 {
      assert ds == [] + [ds[0]];
      NumeralSnoc([], ds[0], 256);
      NumeralSnoc([], ds[0], 16);
    } else if n > 1 {
      PackNumeral(ds[..n - 2]);
      NumeralSnoc(Pack(ds[..n - 2]), HexByte(ds[n - 2], ds[n - 1]), 256);
      NumeralSnoc(ds[..n - 2], ds[n - 2], 16);
      NumeralSnoc(ds[..n - 2] + [ds[n - 2]], ds[n - 1], 16);
      assert ds == ds[..n - 2] + [ds[n - 2]] + [ds[n - 1]];
    }
  }

  lemma {:induction false} PackZeroExtended(ds: seq<nibble>, half: nat)
    requires |ds| == 2 * half + 1
    ensures Pack([0] + ds) == Pack(ds)
  {
    var n := |ds|;
    if half == 0 {
      assert [0] + ds == [0, ds[0]];
    } else {
      PackZeroExtended(ds[..n - 2], half - 1);
      assert ([0] + ds)[..n - 1] == [0] + ds[..n - 2];
    }
  }

  lemma ZeroExtendedBody(s: seq<char8>)
    ensures AllHex(['0'] + s) <==> AllHex(s)
    ensures AllHex(s) ==> Nibbles(['0'] + s) == [0] + Nibbles(s)
    ensures !AllHex(s) ==> FirstBad(['0'] + s, FirstBadIndex(s) + 1)
  {
    var t := ['0'] + s;
    assert IsHex('0') && t[1..] == s;
    assert forall i :: 0 <= i < |s| ==> t[i + 1] == s[i];
    assert s[..|s|] == s;
    if !AllHex(s) {
      var k := FirstBadIndex(s);
      var front := t[..k + 1];
      forall i | 0 <= i < |front| ensures IsHex(front[i]) {
        if i > 0 {
          assert front[i] == s[..k][i - 1];
        }
      }
    }
  }

  /**
   An odd number of digits means the same as those digits after a zero; with a character among them
   that is no digit, the same character is reported.
   */
  lemma OddIsZeroExtended(s: seq<char8>, half: nat, quote: char8)
    requires |s| == 2 * half + 1 && (quote == '\'' || quote == '"')
    ensures Meaning(['x', quote] + (['0'] + s) + [quote]) == Meaning(['x', quote] + s + [quote])
  {
    var (v, w) := (['x', quote] + s + [quote], ['x', quote] + (['0'] + s) + [quote]);
    assert Body(v) == s && Body(w) == ['0'] + s;
    ZeroExtendedBody(s);
    if AllHex(s) {
      PackZeroExtended(Nibbles(s), half);
    } else {
      var k := FirstBadIndex(s);
      assert s[..|s|] == s;
      BadDigit(v, k);
      BadDigit(w, k + 1);
    }
  }

  function High(x: byte): nibble {
    x / 16
  }

  function Low(x: byte): nibble {
    x % 16
  }

  lemma SplitByte(x: byte)
    ensures HexByte(High(x), Low(x)) == x
  {
  }

  /** The digits that print a byte string, most significant first. */
  function Unpack(b: seq<byte>): (ds: seq<nibble>)
    ensures |ds| == 2 * |b|
  {
    if b == [] then []
    else Unpack(b[..|b| - 1]) + [High(b[|b| - 1]), Low(b[|b| - 1])]
  }

  lemma PackSnoc(ds: seq<nibble>, hi: nibble, lo: nibble)
    ensures Pack(ds + [hi, lo]) == Pack(ds) + [HexByte(hi, lo)]
  {
    assert (ds + [hi, lo])[..|ds|] == ds;
  }

  lemma {:induction false} UnpackPack(b: seq<byte>)
    ensures Pack(Unpack(b)) == b
  {
    if b != [] {
      var n := |b| - 1;
      UnpackPack(b[..n]);
      SplitByte(b[n]);
      PackSnoc(Unpack(b[..n]), High(b[n]), Low(b[n]));
    }
  }

  ghost predicate PrintsDigit(c: char, d: nibble) {
    c == "0123456789abcdef"[d] || c == "0123456789ABCDEF"[d]
  }

  lemma PrintedDigit(c: char, d: nibble)
    ensures PrintsDigit(c, d) <==> HexDigit(c) == d
  {
    HexDigitTable(c);
  }

  /** s spells the digits ds, each in either case. */
  ghost predicate Prints(s: seq<char8>, ds: seq<nibble>) {
    |s| == |ds| && forall i :: 0 <= i < |s| ==> PrintsDigit(s[i], ds[i])
  }

  /** Exactly the texts of digits are printings, of the digits they are read as. */
  lemma PrintsIff(s: seq<char8>, ds: seq<nibble>)
    ensures Prints(s, ds) <==> AllHex(s) && Nibbles(s) == ds
  {
    forall i | 0 <= i < |s| && i < |ds|
      ensures PrintsDigit(s[i], ds[i]) <==> HexDigit(s[i]) == ds[i]
    {
      PrintedDigit(s[i], ds[i]);
    }
  }

  lemma PrintedMeaning(ds: seq<nibble>, s: seq<char8>, quote: char8)
    requires Prints(s, ds) && (quote == '\'' || quote == '"')
    ensures Meaning(['x', quote] + s + [quote]) == Password.Password(Pack(ds))
  {
    PrintsIff(s, ds);
    assert Body(['x', quote] + s + [quote]) == s;
  }

  lemma {:induction false} UnpackAt(b: seq<byte>, i: nat)
    requires i < |b|
    ensures Unpack(b)[2 * i] == b[i] / 16 && Unpack(b)[2 * i + 1] == b[i] % 16
  {
    if i < |b| - 1 {
      UnpackAt(b[..|b| - 1], i);
    }
  }

  /** s prints every byte of b as two digits, each in either case. */
  ghost predicate PrintsBytes(s: seq<char8>, b: seq<byte>) {
    && |s| == 2 * |b|
    && forall i :: 0 <= i < |b| ==> PrintsDigit(s[2 * i], b[i] / 16) && PrintsDigit(s[2 * i + 1], b[i] % 16)
  }

  lemma PrintedBytes(s: seq<char8>, b: seq<byte>)
    requires PrintsBytes(s, b)
    ensures Prints(s, Unpack(b))
  {
    forall j | 0 <= j < |s| ensures PrintsDigit(s[j], Unpack(b)[j]) {
      UnpackAt(b, j / 2);
      assert j == 2 * (j / 2) || j == 2 * (j / 2) + 1;
    }
  }

  /** Parsing undoes printing, whatever case each digit is printed in. */
  lemma HexRoundTrip(b: seq<byte>, s: seq<char8>, quote: char8)
    requires PrintsBytes(s, b) && (quote == '\'' || quote == '"')
    ensures Meaning(['x', quote] + s + [quote]) == Password.Password(b)
  {
    PrintedBytes(s, b);
    PrintedMeaning(Unpack(b), s, quote);
    UnpackPack(b);
  }

  lemma AllHexIff(s: seq<char8>)
    ensures AllHex(s) <==> forall i :: 0 <= i < |s| ==> s[i] in "0123456789abcdefABCDEF"
  {
    forall c { HexDigitTable(c); }
  }

  /** A hexadecimal literal is accepted exactly when all its characters are digits, two to a byte. */
  lemma HexAccepted(s: seq<char8>, quote: char8)
    requires quote == '\'' || quote == '"'
    ensures var meaning := Meaning(['x', quote] + s + [quote]);
            && (meaning.Password? <==> forall i :: 0 <= i < |s| ==> s[i] in "0123456789abcdefABCDEF")
            && (meaning.Password? ==> |meaning.bytes| == (|s| + 1) / 2)
  {
    assert Body(['x', quote] + s + [quote]) == s;
    AllHexIff(s);
    if AllHex(s) {
      PackLength(Nibbles(s));
    }
  }

  /** Its bytes are the big-endian value of the digits it prints. */
  lemma HexValue(ds: seq<nibble>, s: seq<char8>, quote: char8)
    requires Prints(s, ds) && (quote == '\'' || quote == '"')
    ensures var meaning := Meaning(['x', quote] + s + [quote]);
            && meaning.Password? && |meaning.bytes| == (|ds| + 1) / 2
            && Numeral(meaning.bytes, 256) == Numeral(ds, 16)
  {
    PrintedMeaning(ds, s, quote);
    PackNumeral(ds);
    PackLength(ds);
  }

  /** A hexadecimal literal with other characters is refused with the first of them. */
  lemma FirstBadReported(s: seq<char8>, k: nat, quote: char8)
    requires (quote == '\'' || quote == '"') && k < |s| && s[k] !in "0123456789abcdefABCDEF"
    requires forall i :: 0 <= i < k ==> s[i] in "0123456789abcdefABCDEF"
    ensures Meaning(['x', quote] + s + [quote]) == BadHexCharacter(s[k])
  {
    assert Body(['x', quote] + s + [quote]) == s;
    HexDigitTable(s[k]);
    AllHexIff(s[..k]);
    BadDigit(['x', quote] + s + [quote], k);
  }

  /** A raw literal means its characters, whatever they are. */
  lemma RawMeaning(s: seq<char8>, quote: char8)
    requires quote == '\'' || quote == '"'
    ensures var meaning := Meaning(['r', quote] + s + [quote]);
            && meaning.Password? && |meaning.bytes| == |s|
            && forall i :: 0 <= i < |s| ==> meaning.bytes[i] == s[i] as int
  {
    assert Body(['r', quote] + s + [quote]) == s;
  }

  /** Every other value is no literal: one without matching quotes, or of an unknown kind. */
  lemma NoLiteral(value: seq<char8>)
    ensures var n := |value|;
            var quoted := n >= 3 && (value[1] == value[n - 1] == '\'' || value[1] == value[n - 1] == '"');
            && (Meaning(value) == BadFormat <==> !quoted)
            && (Meaning(value) == UnknownFormat <==> quoted && value[0] != 'r' && value[0] != 'x')
  {
  }
}
