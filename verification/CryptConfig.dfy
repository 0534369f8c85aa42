/** The encryption settings: the `key`, `cipher` and `crypt_transformation` pragmas. */
module CryptConfig {
  import opened Bytes
  import opened ByteFile
  import opened Crypt
  import opened KeyLiteral

  /** Key derivation, None when the library reports failure. */
  type Kdf = seq<byte> -> Option<keybytes>

  type text = seq<char8>

  datatype Reply =
    | Okay
    | BadArgument
    | BadKey(reason: Password)
    | KdfFailed
    | UnknownCipher
    | Forwarded

  const KEY: text := "key"
  const CIPHER: text := "cipher"
  const TRANSFORMATION: text := "crypt_transformation"

  const BLANK := Encryptor(None, Zeros(32))

  function SetKey(kdf: Kdf, enc: Encryptor, value: text): (Encryptor, Reply) {
    match Meaning(value)
    case Password(bytes) =>
      (match kdf(bytes)
       case None => (enc, KdfFailed)
       case Some(key) => (enc.(key := key), Okay))
    case reason => (enc, BadKey(reason))
  }

  function SetCipher(enc: Encryptor, value: text): (Encryptor, Reply) {
    if value == "null" then (enc.(cipher := None), Okay)
    else if value == "aes-256-gcm" then (enc.(cipher := Some(Aes256Gcm)), Okay)
    else if value == "aes-192-gcm" then (enc.(cipher := Some(Aes192Gcm)), Okay)
    else if value == "aes-128-gcm" then (enc.(cipher := Some(Aes128Gcm)), Okay)
    else (enc, UnknownCipher)
  }

  /** `current` serves reads; writes use `transformation` while `transform` is set. */
  datatype Config = Config(transform: bool, current: Encryptor, transformation: Encryptor) {

    function Writer(): Encryptor {
      if transform then transformation else current
    }

    function WithWriter(enc: Encryptor): Config {
      if transform then this.(transformation := enc) else this.(current := enc)
    }

    /** Entering copies the current settings to the new ones, leaving copies them back. */
    function Toggled(): Config {
      if transform then Config(false, transformation, transformation)
      else Config(true, current, current)
    }
  }

  datatype Command = Command(name: text, value: text)

  function Pragma(kdf: Kdf, cfg: Config, c: Command): (Config, Reply) {
    if c.name == KEY then
      var (enc, reply) := SetKey(kdf, cfg.Writer(), c.value);
      (cfg.WithWriter(enc), reply)
    else if c.name == TRANSFORMATION then
      if c.value == "0" || c.value == "1" then
        (if cfg.transform != (c.value == "1") then cfg.Toggled() else cfg, Okay)
      else (cfg, BadArgument)
    else if c.name == CIPHER then
      var (enc, reply) := SetCipher(cfg.Writer(), c.value);
      (cfg.WithWriter(enc), reply)
    else (cfg, Forwarded)
  }

  /** The settings a database is opened with: its URI parameters, key before cipher. */
  function UriSettings(kdf: Kdf, key: Option<text>, cipher: Option<text>): Encryptor {
    var keyed := if key.Some? then SetKey(kdf, BLANK, key.value).0 else BLANK;
    if cipher.Some? then SetCipher(keyed, cipher.value).0 else keyed
  }

  // ---- Each pragma, value by value ----

  /** The four ciphers by name; the side that writes use is set, every other value is refused. */
  lemma CipherPragma(kdf: Kdf, current: Encryptor, next: Encryptor, value: text)
    ensures forall cipher ::
              || (value == "null" && cipher == None) || (value == "aes-256-gcm" && cipher == Some(Aes256Gcm))
              || (value == "aes-192-gcm" && cipher == Some(Aes192Gcm))
              || (value == "aes-128-gcm" && cipher == Some(Aes128Gcm)) ==>
              && Pragma(kdf, Config(false, current, next), Command("cipher", value))
                 == (Config(false, Encryptor(cipher, current.key), next), Okay)
              && Pragma(kdf, Config(true, current, next), Command("cipher", value))
                 == (Config(true, current, Encryptor(cipher, next.key)), Okay)
    ensures value != "null" && value != "aes-256-gcm" && value != "aes-192-gcm" && value != "aes-128-gcm" ==>
              forall cfg :: Pragma(kdf, cfg, Command("cipher", value)) == (cfg, UnknownCipher)
  {
  }

  /** A key that is derived replaces the key of the side that writes use; all else is refused. */
  lemma KeyPragma(kdf: Kdf, current: Encryptor, next: Encryptor, value: text)
    ensures match Meaning(value)
            case Password(bytes) =>
              (match kdf(bytes)
               case Some(key) =>
                 && Pragma(kdf, Config(false, current, next), Command("key", value))
                    == (Config(false, Encryptor(current.cipher, key), next), Okay)
                 && Pragma(kdf, Config(true, current, next), Command("key", value))
                    == (Config(true, current, Encryptor(next.cipher, key)), Okay)
               case None => forall cfg :: Pragma(kdf, cfg, Command("key", value)) == (cfg, KdfFailed))
            case reason => forall cfg :: Pragma(kdf, cfg, Command("key", value)) == (cfg, BadKey(reason))
  {
  }

  /** Entering copies the read side's settings over the write side's, leaving copies them back. */
  lemma TransformationPragma(kdf: Kdf, current: Encryptor, next: Encryptor, value: text)
    ensures Pragma(kdf, Config(false, current, next), Command("crypt_transformation", "1"))
         == (Config(true, current, current), Okay)
    ensures Pragma(kdf, Config(true, current, next), Command("crypt_transformation", "0"))
         == (Config(false, next, next), Okay)
    ensures Pragma(kdf, Config(true, current, next), Command("crypt_transformation", "1"))
         == (Config(true, current, next), Okay)
    ensures Pragma(kdf, Config(false, current, next), Command("crypt_transformation", "0"))
         == (Config(false, current, next), Okay)
    ensures value != "0" && value != "1" ==>
              forall cfg :: Pragma(kdf, cfg, Command("crypt_transformation", value)) == (cfg, BadArgument)
  {
  }

  lemma OtherPragmas(kdf: Kdf, cfg: Config, name: text, value: text)
    requires name != "key" && name != "cipher" && name != "crypt_transformation"
    ensures Pragma(kdf, cfg, Command(name, value)) == (cfg, Forwarded)
  {
  }

  // ---- Command sequences ----

  function Configure(kdf: Kdf, cfg: Config, cs: seq<Command>): Config {
    if cs == [] then cfg
    else Pragma(kdf, Configure(kdf, cfg, cs[..|cs| - 1]), cs[|cs| - 1]).0
  }

  // ---- What a command sequence amounts to ----

  /** The settings after the key and cipher commands alone, toggles and modes ignored. */
  function Settings(kdf: Kdf, enc: Encryptor, cs: seq<Command>): Encryptor {
    if cs == [] then enc
    else
      var before := Settings(kdf, enc, cs[..|cs| - 1]);
      var c := cs[|cs| - 1];
      if c.name == KEY then SetKey(kdf, before, c.value).0
      else if c.name == CIPHER then SetCipher(before, c.value).0
      else before
  }

  predicate Enters(c: Command) {
    c.name == TRANSFORMATION && c.value == "1"
  }

  predicate Leaves(c: Command) {
    c.name == TRANSFORMATION && c.value == "0"
  }

  /** The last toggle, if any, entered a phase. */
  ghost predicate InPhase(cs: seq<Command>) {
    exists p :: 0 <= p < |cs| && Enters(cs[p]) && forall i :: p < i < |cs| ==> !Leaves(cs[i])
  }

  /** The command at p opened the phase the sequence ends in: nothing left it, and it was not open before. */
  ghost predicate PhaseOpenedAt(cs: seq<Command>, p: nat) {
    && p < |cs| && Enters(cs[p])
    && (forall i :: p < i < |cs| ==> !Leaves(cs[i]))
    && !InPhase(cs[..p])
  }

  lemma InPhaseSnoc(cs: seq<Command>, c: Command)
    ensures InPhase(cs + [c]) <==> Enters(c) || (InPhase(cs) && !Leaves(c))
  {
    var ds := cs + [c];
    if Enters(c) {
      assert Enters(ds[|cs|]);
    } else if InPhase(cs) && !Leaves(c) {
      var p :| 0 <= p < |cs| && Enters(cs[p]) && forall i :: p < i < |cs| ==> !Leaves(cs[i]);
      assert Enters(ds[p]) && forall i :: p < i < |ds| ==> !Leaves(ds[i]);
    }
    if InPhase(ds) && !Enters(c) {
      var p :| 0 <= p < |ds| && Enters(ds[p]) && forall i :: p < i < |ds| ==> !Leaves(ds[i]);
      assert ds[|cs|] == c && ds[p] == cs[p];
      assert forall i :: p < i < |cs| ==> ds[i] == cs[i];
    }
  }

  lemma {:induction false} ModeAndWriter(kdf: Kdf, cfg: Config, cs: seq<Command>)
    requires !cfg.transform
    ensures Configure(kdf, cfg, cs).transform <==> InPhase(cs)
    ensures Configure(kdf, cfg, cs).Writer() == Settings(kdf, cfg.current, cs)
  {
    if cs != [] {
      var n := |cs| - 1;
      ModeAndWriter(kdf, cfg, cs[..n]);
      InPhaseSnoc(cs[..n], cs[n]);
      assert cs == cs[..n] + [cs[n]];
    }
  }

  lemma {:induction false} OpenedPhase(kdf: Kdf, cfg: Config, cs: seq<Command>, p: nat)
    requires !cfg.transform && PhaseOpenedAt(cs, p)
    ensures Configure(kdf, cfg, cs).transform
    ensures Configure(kdf, cfg, cs).current == Settings(kdf, cfg.current, cs[..p])
  {
    var n := |cs| - 1;
    if p == n {
      ModeAndWriter(kdf, cfg, cs[..p]);
    } else {
      assert cs[..n][..p] == cs[..p];
      OpenedPhase(kdf, cfg, cs[..n], p);
    }
  }

  /** Outside a phase reads use the write side's settings, inside it those at the phase's opening. */
  lemma {:induction false} ReaderSettings(kdf: Kdf, cfg: Config, cs: seq<Command>)
    requires !cfg.transform
    ensures !InPhase(cs) ==> Configure(kdf, cfg, cs).current == Settings(kdf, cfg.current, cs)
    ensures forall p: nat :: PhaseOpenedAt(cs, p) ==>
              Configure(kdf, cfg, cs).current == Settings(kdf, cfg.current, cs[..p])
  {
    ModeAndWriter(kdf, cfg, cs);
    forall p: nat | PhaseOpenedAt(cs, p)
      ensures Configure(kdf, cfg, cs).current == Settings(kdf, cfg.current, cs[..p])
    {
      OpenedPhase(kdf, cfg, cs, p);
    }
  }

  lemma {:induction false} PhaseHasOpening(cs: seq<Command>) returns (p: nat)
    requires InPhase(cs)
    ensures PhaseOpenedAt(cs, p)
  {
    var n := |cs| - 1;
    InPhaseSnoc(cs[..n], cs[n]);
    assert cs == cs[..n] + [cs[n]];
    if InPhase(cs[..n]) {
      p := PhaseHasOpening(cs[..n]);
      assert cs[..n][..p] == cs[..p];
    } else {
      p := n;
    }
  }

  /** A command that is not answered with ok changes nothing; a repeated toggle changes nothing. */
  lemma RejectedOrRepeated(kdf: Kdf, cfg: Config, c: Command)
    ensures Pragma(kdf, cfg, c).1 != Okay ==> Pragma(kdf, cfg, c).0 == cfg
    ensures Enters(c) && cfg.transform ==> Pragma(kdf, cfg, c).0 == cfg
    ensures Leaves(c) && !cfg.transform ==> Pragma(kdf, cfg, c).0 == cfg
  {
  }

  /** Key and cipher are separate settings: the order of the two commands does not matter. */
  lemma Independent(kdf: Kdf, enc: Encryptor, key: text, cipher: text)
    ensures SetCipher(SetKey(kdf, enc, key).0, cipher).0 == SetKey(kdf, SetCipher(enc, cipher).0, key).0
  {
  }

  /** Opening with URI parameters and giving the same values as pragmas, in either order, agree. */
  lemma UriMatchesPragmas(kdf: Kdf, key: text, cipher: text)
    ensures var cfg := Config(false, BLANK, BLANK);
            var (k, c) := (Command(KEY, key), Command(CIPHER, cipher));
            && Configure(kdf, cfg, [k, c]).current == UriSettings(kdf, Some(key), Some(cipher))
            && Configure(kdf, cfg, [c, k]).current == UriSettings(kdf, Some(key), Some(cipher))
  {
    var cfg := Config(false, BLANK, BLANK);
    var (k, c) := (Command(KEY, key), Command(CIPHER, cipher));
    assert [k, c][..1] == [k] && [c, k][..1] == [c];
    assert [k][..0] == [] && [c][..0] == [];
    assert Configure(kdf, cfg, [k]) == Pragma(kdf, cfg, k).0;
    assert Configure(kdf, cfg, [c]) == Pragma(kdf, cfg, c).0;
    Independent(kdf, BLANK, key, cipher);
  }

  /** One parameter alone does what its pragma does, none leaves no cipher and a key of zeros. */
  lemma UriAlone(kdf: Kdf, key: text, cipher: text)
    ensures var cfg := Config(false, BLANK, BLANK);
            && UriSettings(kdf, Some(key), None) == Pragma(kdf, cfg, Command("key", key)).0.current
            && UriSettings(kdf, None, Some(cipher)) == Pragma(kdf, cfg, Command("cipher", cipher)).0.current
            && UriSettings(kdf, None, None) == BLANK
    ensures BLANK.cipher == None && forall i :: 0 <= i < 32 ==> BLANK.key[i] == 0
  {
  }
}
