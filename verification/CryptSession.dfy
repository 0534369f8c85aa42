/** The file and cipher objects, driven event by event, are the store that the run theorems speak of. */
module CryptSession {
  import opened Bytes
  import opened PageFile
  import opened PageStore
  import opened Spans
  import opened Crypt
  import opened CryptConfig
  import opened CryptRuns
  import opened TransformingFile
  import CryptFile

  class EncryptedDatabase {
    const crypt: CryptFile.CryptFile
    const file: PageTransformingFile
    const P: nat

    ghost predicate Valid() {
      && file.overrides == CryptOverrides(crypt) && file.format.MainDb? && file.Valid()
      && MIN_PAGE <= P < SIZE_LIMIT
    }

    ghost function State(): Store
      reads crypt, file
    {
      Store(crypt.Settings(), file.Contents())
    }

    constructor (crypt: CryptFile.CryptFile, pageSize: nat, bytes: seq<byte>)
      requires crypt.Valid() && MIN_PAGE <= pageSize < SIZE_LIMIT
      ensures Valid() && this.crypt == crypt && P == pageSize && fresh(file) && fresh(file.tmpBuffer)
      ensures State() == Store(crypt.Settings(), File(bytes, 0))
    {
      this.crypt, P := crypt, pageSize;
      file := new PageTransformingFile(MainDb, CryptOverrides(crypt), bytes);
    }

    method WriteAt(bytes: seq<byte>, at: nat, n: nonce) returns (ok: bool)
      requires Valid() && |bytes| < SIZE_LIMIT
      modifies file`store, file`pageSize, file`tmpBuffer, file.tmpBuffer
      ensures file.tmpBuffer == old(file.tmpBuffer) || fresh(file.tmpBuffer)
      ensures Outcome(file.Contents(), bytes, ok)
           == WriteFile(CryptCodec(crypt.aead), MainDb, crypt.Settings().Writer(), old(file.Contents()), bytes, at, n)
    {
      var buffer := new byte[|bytes|](i requires 0 <= i < |bytes| => bytes[i]);
      assert buffer[..] == bytes;
      ok := file.Write(buffer, at, n);
    }

    method ReadAt(size: nat, at: nat) returns (data: seq<byte>, ok: bool)
      requires Valid() && size < SIZE_LIMIT
      modifies file`pageSize
      ensures Outcome(file.Contents(), data, ok)
           == ReadFile(CryptCodec(crypt.aead), MainDb, crypt.current, crypt.Settings().Writer(),
                       old(file.Contents()), size, at)
    {
      var buffer := new byte[size];
      ok := file.Read(buffer, at);
      data := buffer[..];
    }

    /** One event on the objects: the next state and the answer are those of the run theorems. */
    method Perform(e: Event) returns (answer: Answer)
      requires Valid() && Fits(P, e)
      modifies crypt, file, file.tmpBuffer
      ensures file.tmpBuffer == old(file.tmpBuffer) || fresh(file.tmpBuffer)
      ensures State() == StoreStep(crypt.aead, crypt.kdf, P, old(State()), e)
      ensures answer == AnswerTo(crypt.aead, crypt.kdf, P, old(State()), e)
      ensures e.Configure? ==> answer == Replied(Pragma(crypt.kdf, old(crypt.Settings()), e.command).1)
      ensures e.ReadPage? ==>
                var o := CryptRuns.ReadAt(crypt.aead, P, old(State()), e.k);
                file.Contents() == o.file && answer == Accessed(o.data, o.ok)
    {
      match e
      case Configure(command) =>
        var reply := crypt.FileControl(command.name, command.value);
        answer := Replied(reply);
      case WritePage(k, page, n) =>
        var ok := WriteAt(page, Offset(k, P), n);
        answer := Accessed(page, ok);
      case ReadPage(k) =>
        var data, ok := ReadAt(P, Offset(k, P));
        answer := Accessed(data, ok);
      case Truncate(pages) =>
        file.Truncate(Offset(pages, P));
        answer := Accessed([], true);
      case WriteHeader(bytes, at) =>
        var ok := WriteAt(bytes, at, [0, 0, 0, 0, 0, 0, 0, 0]);
        answer := Accessed(bytes, ok);
      case ReadHeader(size, at) =>
        var data, ok := ReadAt(size, at);
        answer := Accessed(data, ok);
    }

    /** Any sequence of events: the state and all answers are those of the run. */
    method Replay(es: seq<Event>) returns (answers: seq<Answer>)
      requires Valid() && AllFit(P, es)
      modifies crypt, file, file.tmpBuffer
      ensures file.tmpBuffer == old(file.tmpBuffer) || fresh(file.tmpBuffer)
      ensures State() == StoreRun(crypt.aead, crypt.kdf, P, old(State()), es)
      ensures answers == Answers(crypt.aead, crypt.kdf, P, old(State()), es)
    {
      answers := [];
      var i := 0;
      while i < |es|
        invariant 0 <= i <= |es|
        invariant file.tmpBuffer == old(file.tmpBuffer) || fresh(file.tmpBuffer)
        invariant State() == StoreRun(crypt.aead, crypt.kdf, P, old(State()), es[..i])
        invariant answers == Answers(crypt.aead, crypt.kdf, P, old(State()), es[..i])
      {
        var answer := Perform(es[i]);
        assert es[..i + 1][..i] == es[..i];
        answers := answers + [answer];
        i := i + 1;
      }
      assert es[..i] == es;
    }
  }
}
