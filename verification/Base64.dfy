/**
 The base64 codec of RFC 4648 sections 4 and 5: the values that the streaming encoder and decoder
 compute.
 */
module Base64 {
  import opened Bytes

  datatype Alphabet = Auto | Standard | UrlFilenameSafe

  datatype Behavior = Moderate | Loose

  datatype Result<+T> = Ok(value: T) | InvalidCharacter

  type sextet = x: int | 0 <= x < 64

  const PAD := '='

  /** n consecutive characters, starting at the given one. */
  function CharRange(first: char, n: nat): (s: string)
    requires first as int + n <= 128
    ensures |s| == n && forall i :: 0 <= i < n ==> s[i] as int == first as int + i
  {
    seq(n, i requires 0 <= i < n => (first as int + i) as char)
  }

  const ALPHANUMERIC := CharRange('A', 26) + CharRange('a', 26) + CharRange('0', 10)
  const STANDARD_TABLE := ALPHANUMERIC + "+/"
  const URL_TABLE := ALPHANUMERIC + "-_"

  /** The encoder's table: everything but the URL alphabet uses the standard one. */
  function Table(alphabet: Alphabet): string {
    if alphabet == UrlFilenameSafe then URL_TABLE else STANDARD_TABLE
  }

  function Symbol(alphabet: Alphabet, v: sextet): char {
    if v < 26 then ('A' as int + v) as char
    else if v < 52 then ('a' as int + v - 26) as char
    else if v < 62 then ('0' as int + v - 52) as char
    else if v == 62 then (if alphabet == UrlFilenameSafe then '-' else '+')
    else (if alphabet == UrlFilenameSafe then '_' else '/')
  }

  lemma UpperCase()
    ensures CharRange('A', 26) == "ABCDEFGHIJKLMNOPQRSTUVWXYZ"
  {
  }

  lemma LowerCase()
    ensures CharRange('a', 26) == "abcdefghijklmnopqrstuvwxyz"
  {
  }

  lemma DecimalDigits()
    ensures CharRange('0', 10) == "0123456789"
  {
  }

  /** The two tables, character by character. */
  lemma TableLookup(alphabet: Alphabet)
    ensures Table(alphabet) == "ABCDEFGHIJKLMNOPQRSTUVWXYZ" + "abcdefghijklmnopqrstuvwxyz" + "0123456789"
                               + if alphabet == UrlFilenameSafe then "-_" else "+/"
    ensures |Table(alphabet)| == 64
    ensures forall v: sextet :: Table(alphabet)[v] == Symbol(alphabet, v)
  {
    UpperCase();
    LowerCase();
    DecimalDigits();
  }

  /** One symbol read by the decoder, and the alphabet it leaves behind. */
  datatype Reading = Reading(value: sextet, alphabet: Alphabet)

  function Value(alphabet: Alphabet, c: char): Option<Reading> {
    if 'A' <= c <= 'Z' then Some(Reading(c as int - 'A' as int, alphabet))
    else if 'a' <= c <= 'z' then Some(Reading(c as int - 'a' as int + 26, alphabet))
    else if '0' <= c <= '9' then Some(Reading(c as int - '0' as int + 52, alphabet))
    else if alphabet == Standard then
      if c == '+' then Some(Reading(62, Standard))
      else if c == '/' then Some(Reading(63, Standard))
      else None
    else if alphabet == UrlFilenameSafe then
      if c == '-' then Some(Reading(62, UrlFilenameSafe))
      else if c == '_' then Some(Reading(63, UrlFilenameSafe))
      else None
    else
      if c == '+' then Some(Reading(62, Standard))
      else if c == '/' then Some(Reading(63, Standard))
      else if c == '-' then Some(Reading(62, UrlFilenameSafe))
      else if c == '_' then Some(Reading(63, UrlFilenameSafe))
      else None
  }

  /** The values of a run of symbols, with the alphabet threaded from left to right. */
  datatype Parsed = Parsed(values: seq<sextet>, alphabet: Alphabet)

  function Symbols(alphabet: Alphabet, s: string): (r: Option<Parsed>)
    ensures r.Some? ==> |r.value.values| == |s|
  {
    if s == [] then Some(Parsed([], alphabet))
    else match Symbols(alphabet, s[..|s| - 1])
      case None => None
      case Some(p) =>
        match Value(p.alphabet, s[|s| - 1])
        case None => None
        case Some(r) => Some(Parsed(p.values + [r.value], r.alphabet))
  }

  /** Bits still pending after n symbols, and bytes emitted by then. */
  function PendingBits(n: nat): (bits: nat)
    ensures bits == 0 || bits == 2 || bits == 4 || bits == 6
  {
    if n == 0 then 0
    else if PendingBits(n - 1) >= 2 then PendingBits(n - 1) - 2
    else PendingBits(n - 1) + 6
  }

  function EmittedBytes(n: nat): nat {
    if n == 0 then 0
    else EmittedBytes(n - 1) + if PendingBits(n - 1) >= 2 then 1 else 0
  }

  /** The low `bits` bits of `last` followed by the high bits of `part`: the next byte. */
  function Joined(last: sextet, part: sextet, bits: nat): byte {
    if bits == 2 then last % 4 * 64 + part
    else if bits == 4 then last % 16 * 16 + part / 4
    else last * 4 + part / 16
  }

  /** The bytes the decoder has emitted after reading the given symbol values. */
  function FromSextets(vs: seq<sextet>): (out: seq<byte>)
    ensures |out| == EmittedBytes(|vs|)
  {
    if vs == [] then []
    else
      var n := |vs| - 1;
      var out := FromSextets(vs[..n]);
      if PendingBits(n) >= 2 then out + [Joined(vs[n - 1], vs[n], PendingBits(n))] else out
  }

  function FirstPad(t: string): (p: nat)
    ensures p <= |t| && PAD !in t[..p]
    ensures p < |t| ==> t[p] == PAD
  {
    if t == [] || t[0] == PAD then 0
    else
      var p := 1 + FirstPad(t[1..]);
      assert t[..p] == [t[0]] + t[1..][..p - 1];
      p
  }

  predicate OnlyPadding(t: string) {
    forall i :: 0 <= i < |t| ==> t[i] == PAD
  }

  function DecodeText(t: string, alphabet: Alphabet, behavior: Behavior): Result<seq<byte>> {
    var p := FirstPad(t);
    match Symbols(alphabet, t[..p])
    case None => InvalidCharacter
    case Some(parsed) =>
      if behavior == Moderate && !OnlyPadding(t[p..]) then InvalidCharacter
      else Ok(FromSextets(parsed.values))
  }

  // ---- Encoding ----

  function Quad(b0: byte, b1: byte, b2: byte): (q: seq<sextet>)
    ensures |q| == 4
  {
    [b0 / 4, b0 % 4 * 16 + b1 / 16, b1 % 16 * 4 + b2 / 64, b2 % 64]
  }

  /** The symbols of the first q three-byte groups. */
  function Groups(b: seq<byte>, q: nat): (vs: seq<sextet>)
    requires 3 * q <= |b|
    ensures |vs| == 4 * q
  {
    if q == 0 then []
    else Groups(b, q - 1) + Quad(b[3 * q - 3], b[3 * q - 2], b[3 * q - 1])
  }

  /** The symbols of the one or two bytes after the last complete group. */
  function Remainder(r: seq<byte>): (vs: seq<sextet>)
    requires |r| < 3
    ensures |vs| == if |r| == 0 then 0 else |r| + 1
  {
    if |r| == 0 then []
    else if |r| == 1 then Quad(r[0], 0, 0)[..2]
    else Quad(r[0], r[1], 0)[..3]
  }

  /** All symbols of a byte string of q complete groups and a remainder. */
  function Sextets(b: seq<byte>, q: nat): seq<sextet>
    requires 3 * q <= |b| < 3 * q + 3
  {
    Groups(b, q) + Remainder(b[3 * q..])
  }

  function ToSextets(b: seq<byte>): seq<sextet> {
    Sextets(b, |b| / 3)
  }

  function Spell(alphabet: Alphabet, vs: seq<sextet>): (s: string)
    ensures |s| == |vs|
    ensures forall i :: 0 <= i < |vs| ==> s[i] == Symbol(alphabet, vs[i])
  {
    seq(|vs|, i requires 0 <= i < |vs| => Symbol(alphabet, vs[i]))
  }

  function Padding(n: nat): (s: string)
    ensures |s| == n && OnlyPadding(s)
  {
    seq(n, i => PAD)
  }

  /** The bytes missing from the last three-byte group. */
  function PaddingFor(length: nat): nat {
    var q := length / 3;
    if length == 3 * q then 0 else 3 * q + 3 - length
  }

  function EncodeBytes(b: seq<byte>, alphabet: Alphabet): string {
    Spell(alphabet, ToSextets(b)) + Padding(PaddingFor(|b|))
  }

  function MaxDecodeSize(size: nat): nat {
    (size / 4 + if size % 4 != 0 then 1 else 0) * 3
  }

  function RequiredEncodeSize(size: nat): nat {
    (size / 3 + if size % 3 != 0 then 1 else 0) * 4
  }
}
