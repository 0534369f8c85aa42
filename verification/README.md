# ysqlite3: page encryption, base64 and handle ownership, verified

A Dafny model of the parts of ysqlite3 that transform data or own resources, with proofs about
whole runs of them. `dafny verify dfyconfig.toml` checks everything.

What is modelled, from the bottom up:

- **The page-transforming file** (`ByteFile`, `PageFile`, `PageStore`, `PageInvariants`). SQLite's
  main database file is read and written in pages; pages of at least 512 bytes are encoded and
  decoded, the first 100 bytes of the database and all smaller accesses pass through, and the page
  size found in the header is cached. A subclass is a `Codec`: encode, decode and reserve check
  under a key. The stored bytes refine a map from page numbers to *the bytes last written and the
  key they were written under*; that holds for every codec whose decoder undoes its encoder.
- **Encryption** (`Crypt`, `CryptConfig`, `CryptRuns`, `PhaseOutcome`, `Guarantees`, `LostPages`,
  `TrailerCounter`, `KeyLiteral`). A page body is sealed and followed by a trailer of 12 IV bytes, 16 tag
  bytes and 4 bytes left alone. The cipher is a pair of functions; all that is assumed of it is
  `Crypt.Sound`: unsealing undoes a successful sealing and lengths are kept. Sealing, unsealing and key
  derivation may fail. Random bytes are an arbitrary input of each write, so a failing random source is
  covered too. The settings machine (`key`, `cipher`, `crypt_transformation`) is exact, including the
  literal syntax of keys. Two settings are `Crypt.Alike` if they differ only in key bytes no cipher reads.
- **The objects** (`CryptFile`, `TransformingFile`, `CryptSession`, `Rot13`). Classes with the
  original's fields work in place on arrays and are proved against the functions above;
  `CryptSession.EncryptedDatabase.Replay` shows that driving the objects event by event is exactly
  the run that the theorems speak about.
- **Base64** (`Base64`, `Base64Theorems`, `Base64Codec`, `Base64Letters`). Encoder and decoder are characterised as
  conversions between base 256 and base 64; round trip, canonical form and alphabet detection follow,
  and the loops, one of them writing over its own input, compute those functions.
- **Ownership** (`Slots`, `StatementHandles`, `Transactions`). Conservation of statement handles and
  of transactions over arbitrary runs of moves, assignments, closings and destructions.

Three properties one might expect do not hold of the code; each is given exactly:

- *Leaving a re-encryption phase keeps every page.* The code does not look whether the phase is complete.
  For any sound cipher every page is read back if and only if each was last written under settings that act
  like those the phase ends with and page 0's reserve byte suits them (`PhaseOutcome.ReencryptionIff`), asked of
  the cipher only that no stale page's stored bytes happen to pass under the final settings. Without asking even
  that, the same condition is exactly when the page is returned *whatever* the sound cipher
  (`Guarantees.GuaranteedIff`, over all runs). A page skipped by a phase that ends with no cipher never throws: its
  stored bytes, ciphertext included, are returned as data (`PhaseOutcome.PlainAfterPhase`). Under a cipher that
  commits to its key a skipped page always throws (`PhaseOutcome.SkippedPageIsLost`); AES-GCM does not
  commit to its key for all texts, which is why the other theorems do not assume that. `LostPages` decides
  every phase for one concrete cipher and gives three runs that lose a page: one that never rewrites it, one
  that rewrites it under a key that is replaced before the phase is left, and a decrypting one that returns other
  bytes.
- *The page size cache follows the header.* A page 0 write that throws has already replaced the cache,
  because that happens before the reserve byte is judged. Afterwards it agrees with the stored
  header if and only if the rejected page announced the stored page size
  (`PageInvariants.RejectedWriteCache`, with `CryptRuns.RejectedWriteUnsettlesCache` as an input).
- *Inside a phase the old contents stay readable.* A page 0 read is checked against the *write*
  side's cipher, so in a phase from no cipher to one page 0 is readable if and only if its stored byte 20 is
  already 32 (`CryptRuns.PlainToEncryptedPhase`, with `CryptRuns.UnreadableHeader` as an input).

## Model

| member | source | states |
|---|---|---|
| PageStore.RunKeeps | ysqlite3/vfs/page_transforming_file.hpp:26-71 | over every run of aligned accesses the stored bytes refine the keyed page map, and the file is as long as the map says |
| PageStore.ApplyIsStep | ysqlite3/vfs/page_transforming_file.hpp:26-71 | the aligned accesses of the run theorems are accesses of the byte-level file at page multiples and inside the header |
| PageStore.RunOpsIsRun | ysqlite3/vfs/page_transforming_file.hpp:26-71 | every run of aligned accesses is a run of the byte-level file |
| PageStore.WriteKeeps | ysqlite3/vfs/page_transforming_file.hpp:48-71 | a page write stores that page and disturbs no other one |
| PageStore.WriteOutcome | ysqlite3/vfs/page_transforming_file.hpp:48-71 | a page write goes through exactly when the reserve check and the encoder accept it, and leaves the store alone otherwise |
| PageStore.ReadOutcome | ysqlite3/vfs/page_transforming_file.hpp:26-47 | a page read past the end throws; otherwise it returns the header as stored and the decoded body, and throws exactly for a failed decoding or a refused reserve byte |
| PageFile.LargeWriteIsEncoded | ysqlite3/vfs/page_transforming_file.hpp:48-71 | a write of 512 bytes or more to the database stores bytes 0 to 99 of the file as they are and the encoding of all others, after byte 20 was accepted |
| PageFile.LargeReadIsDecoded | ysqlite3/vfs/page_transforming_file.hpp:26-47 | a read of that size returns bytes 0 to 99 as stored and all others decoded, and throws exactly for a short read, a failed decoding or a refused byte 20 |
| PageFile.SmallAccessIsPlain | ysqlite3/vfs/page_transforming_file.hpp:66-92 | accesses below 512 bytes and those to other files are forwarded unchanged |
| PageFile.CachedPageSize | ysqlite3/vfs/page_transforming_file.hpp:93-102 | after a page access that covers them the cache is the big-endian number in bytes 16 and 17, except that 1 is 65536; a failed read leaves it |
| PageStore.WriteIsRemembered | ysqlite3/vfs/page_transforming_file.hpp:48-71 | the page map takes up exactly the writes that go through, with the key they used |
| PageStore.OthersAreRemembered | ysqlite3/vfs/page_transforming_file.hpp:66-70 | a truncation drops exactly the pages cut off, a header write changes exactly its bytes of page 0 |
| PageInvariants.PageMapRefinement | ysqlite3/vfs/page_transforming_file.hpp:26-71 | after every run, from any file, a page read under the key it was last written with shows its last written bytes |
| PageInvariants.ExactStore | ysqlite3/vfs/page_transforming_file.hpp:26-71 | for every exactly inverse codec each written page is read back exactly, after every run |
| Rot13.Rot13Store | examples/rot13.cpp:18-29 | the same for the thirteen-up, thirteen-down loops, with no assumption left |
| Rot13.DecodeUndoesEncode | examples/rot13.cpp:18-29 | adding 13 and subtracting 13, both modulo 256, undo each other on every page |
| Rot13.EncodePage | examples/rot13.cpp:18-23 | the loop adds 13 modulo 256 to every byte of the span and changes nothing else |
| Rot13.DecodePage | examples/rot13.cpp:24-29 | the loop subtracts 13 modulo 256 from every byte of the span and changes nothing else |
| PageFile.OtherFormatsArePlain | ysqlite3/vfs/page_transforming_file.hpp:87-92 | over every run, files other than the main database are byte-identical to plain ones and read as such |
| PageInvariants.HeaderTransparency | ysqlite3/vfs/page_transforming_file.hpp:41-46 | after every run a small access inside the first 100 bytes sees the logical header of page 0 |
| PageInvariants.HeaderWriteThenPageRead | ysqlite3/vfs/page_transforming_file.hpp:32-70 | a small header write changes exactly those bytes of what a page 0 read returns, and a read that succeeded still does if and only if the new reserve byte passes |
| PageInvariants.CacheAgreement | ysqlite3/vfs/page_transforming_file.hpp:93-109 | over every run the cached page size is the big-endian number in bytes 16 and 17 of the stored file, with 1 read as 65536, once page 0 was accessed and until something unsettles it |
| CryptRuns.CacheOverRuns | ysqlite3/vfs/page_transforming_file.hpp:93-109 | the same over runs with pragmas in between |
| PageInvariants.SyncedIff | ysqlite3/vfs/page_transforming_file.hpp:93-109 | the condition of the cache theorems, spelled out: some access to page 0 went through, and since then no page 0 write threw, no truncation emptied the file and no small write touched bytes 16 and 17 |
| PageInvariants.RejectedWriteCache | ysqlite3/vfs/page_transforming_file.hpp:54-55 | after a page 0 write that throws the cache agrees with the stored header if and only if the rejected page has the same bytes 16 and 17 |
| CryptRuns.RejectedWriteUnsettlesCache | ysqlite3/vfs/page_transforming_file.hpp:93-109 | a concrete rejected page 0 after which cache and header disagree |
| CryptRuns.RunTracks | ysqlite3/vfs/crypt_file.hpp:82-104 | no run of accesses, pragmas and phases loses track of which bytes a page holds and under which settings |
| CryptRuns.EncryptedStore | ysqlite3/vfs/crypt_file.hpp:82-104 | after every run each page whose settings act like the read side's, unused key bytes aside, is read back outside IV and tag, exactly without a cipher; it throws only for a bad reserve byte on page 0 |
| CryptRuns.PlainPageMap | ysqlite3/vfs/crypt_file.hpp:82-100 | outside a phase and with fixed settings every written page is read back |
| CryptRuns.Reopened | ysqlite3/vfs/crypt_file.hpp:34-44 | a file opened again under settings that act like those a page was written with reads that page back, with or without the old key if there was no cipher |
| CryptConfig.UriMatchesPragmas | ysqlite3/vfs/crypt_file.hpp:35-44 | URI parameters and pragmas with the same values give the same settings, in either order |
| CryptRuns.ReencryptionSafety | ysqlite3/vfs/crypt_file.hpp:59-68 | inside a phase pages not yet rewritten are still read back and renewed ones are stored under the new settings; if all pages were written since what writes are encrypted with last changed (a rejected command or an unused key is no change), leaving settles the file and every page is read back |
| CryptRuns.RewrittenIff | ysqlite3/vfs/crypt_file.hpp:82-92 | the pages rewritten in a phase are those some write of it went through to |
| CryptRuns.RenewedIff | ysqlite3/vfs/crypt_file.hpp:57-71 | the renewed ones have such a write after which no pragma changed what writes are encrypted with |
| PhaseOutcome.ReencryptionIff | ysqlite3/vfs/crypt_file.hpp:59-68 | after a phase every page is read back if and only if each was last written under settings that act like the final ones and page 0's reserve byte suits them; phases from and to no cipher included, provided no stale page's stored bytes pass under the final settings |
| PhaseOutcome.PageAfterPhase | ysqlite3/vfs/crypt_file.hpp:59-100 | the same for one page |
| PhaseOutcome.PlainAfterPhase | ysqlite3/vfs/crypt_file.hpp:93-100 | after a phase that ends with no cipher no page throws, and each is returned exactly as stored, rewritten or not |
| Guarantees.GuaranteedIff | ysqlite3/vfs/crypt_file.hpp:51-104 | after every run of accesses, pragmas and phases a written page is returned under every sound cipher if and only if it was last written under settings that act like the read side's and page 0's reserve byte passes; nothing assumed |
| Guarantees.SameMap | ysqlite3/vfs/crypt_file.hpp:82-104 | which pages a run writes, and under which settings, does not depend on the cipher beyond where it fails to seal |
| PhaseOutcome.ReturnedIff | ysqlite3/vfs/crypt_file.hpp:93-104 | in any state a tracked page is returned exactly under settings that act like its own, unless its stored bytes pass under others |
| PhaseOutcome.SkippedPageIsLost | ysqlite3/vfs/crypt_file.hpp:59-68 | under a cipher that commits to its key, a page not written again under the phase's final settings throws on every read after it |
| LostPages.KeyedTagReturned | ysqlite3/vfs/crypt_file.hpp:93-104 | for a concrete cipher, in every state: a tracked page is returned exactly if its settings and the read side's have the same mark and page 0's reserve byte passes |
| LostPages.KeyedTagPhase | ysqlite3/vfs/crypt_file.hpp:59-68 | the exact condition for keeping every page of every phase under that cipher, with no assumption on settings or bytes |
| LostPages.SkippedPageExample | ysqlite3/vfs/crypt_file.hpp:59-68 | a run of four events that loses a page never rewritten in the phase |
| LostPages.ReplacedKeyExample | ysqlite3/vfs/crypt_file.hpp:57-68 | a run of five events that loses a page rewritten under a key replaced before leaving |
| LostPages.SkippedDecryptionExample | ysqlite3/vfs/crypt_file.hpp:59-98 | a run of four events after which a read goes through and returns other bytes than the page's |
| CryptRuns.PlainToEncryptedPhase | ysqlite3/vfs/crypt_file.hpp:93-104 | in every phase from no cipher to one, page 0 is readable if and only if its stored byte 20 is 32 |
| CryptRuns.UnreadableHeader | ysqlite3/vfs/crypt_file.hpp:93-104 | a plain page 0 readable before the phase and unreadable once the new cipher is set |
| CryptRuns.ReserveByte | ysqlite3/vfs/crypt_file.hpp:101-104 | on every run without small writes to byte 20, an encrypted page 0 carries reserve byte 32 in its logical contents, whatever the cipher |
| CryptRuns.StoredReserveByte | ysqlite3/vfs/crypt_file.hpp:101-104 | on those runs byte 20 of the stored file is 32 while its page 0 is encrypted |
| CryptRuns.TraceReplays | ysqlite3/vfs/crypt_file.hpp:82-104 | a run with pragmas is a run of keyed page accesses, each under the settings in force when it was made |
| CryptRuns.SettingsFollowPragmas | ysqlite3/vfs/crypt_file.hpp:51-79 | page accesses never change the settings |
| CryptConfig.ModeAndWriter | ysqlite3/vfs/crypt_file.hpp:51-79 | after any commands the write side is the fold of the key and cipher commands ignoring toggles, and the mode is the last toggle |
| CryptConfig.ReaderSettings | ysqlite3/vfs/crypt_file.hpp:59-64 | the read side is that fold outside a phase, and its value at the phase's opening inside one |
| CryptConfig.PhaseHasOpening | ysqlite3/vfs/crypt_file.hpp:59-64 | whenever a phase is open, one command opened it and none since has left it |
| CryptConfig.RejectedOrRepeated | ysqlite3/vfs/crypt_file.hpp:51-79 | rejected commands and repeated toggles change nothing |
| CryptConfig.CipherPragma | ysqlite3/vfs/crypt_file.hpp:69-70 | each of the four cipher names sets that cipher on the side writes use and nothing else; any other value is refused and changes nothing |
| CryptConfig.KeyPragma | ysqlite3/vfs/crypt_file.hpp:57-58 | a key literal that is accepted and derived sets that key on the side writes use and nothing else; otherwise nothing changes and the reply says why |
| CryptConfig.TransformationPragma | ysqlite3/vfs/crypt_file.hpp:59-68 | 1 enters a phase with a copy of the settings, 0 leaves it with the new ones, repeating either does nothing and any other value is refused |
| CryptConfig.OtherPragmas | ysqlite3/vfs/crypt_file.hpp:71-79 | pragmas of any other name are forwarded and change nothing |
| CryptConfig.UriAlone | ysqlite3/vfs/crypt_file.hpp:35-43 | one URI parameter alone does what its pragma does; none leaves no cipher and a key of zeros |
| Crypt.DecodingUndoesEncoding | ysqlite3/vfs/crypt_file.hpp:82-100 | decoding an encoded page succeeds and gives the page outside IV and tag |
| Crypt.EncodedLayout | ysqlite3/vfs/crypt_file.hpp:82-92 | the stored page is ciphertext, next IV, tag and the last four bytes of the page, in that order |
| Crypt.EncodedBytes | ysqlite3/vfs/crypt_file.hpp:82-152 | byte positions of a stored page: body sealed under the first 32, 24 or 16 key bytes, eight random bytes, the little-endian counter plus one, the tag, the last four bytes as they were; below 32 bytes it throws |
| Crypt.DecodedLayout | ysqlite3/vfs/crypt_file.hpp:93-100 | a stored page is unsealed with the IV and tag at those positions and keeps its last 32 bytes, also when the tag is wrong |
| Crypt.AcceptedReserve | ysqlite3/vfs/crypt_file.hpp:101-104 | with any cipher exactly the reserve byte 32 is accepted, without one every byte |
| Crypt.EndiannessIrrelevant | ysqlite3/vfs/crypt_file.hpp:142-152 | the reverse, add, reverse branch stores the same bytes as the little-endian one |
| Crypt.LeRoundTrip | ysqlite3/vfs/crypt_file.hpp:142-152 | four little-endian bytes hold a number modulo 2^32 |
| Crypt.LeBytes | ysqlite3/vfs/crypt_file.hpp:142-152 | the counter is stored least significant byte first |
| TrailerCounter.CounterAdvances | ysqlite3/vfs/crypt_file.hpp:82-152 | read-then-write-back cycles advance the counter by exactly the number of writes modulo 2^32, change nothing of the page outside IV and tag, and nothing else of the file |
| TrailerCounter.IvsNeverRepeat | ysqlite3/vfs/crypt_file.hpp:142-152 | over fewer than 2^32 read-then-write-back cycles no IV of a page is used twice, whatever the random source returns |
| TrailerCounter.IvsRepeatIff | ysqlite3/vfs/page_transforming_file.hpp:54-62 | any two page writes store the same IV if and only if the random bytes and the counters in the callers' buffers agree, so a buffer written twice without a read repeats its IV exactly if the random bytes repeat |
| TrailerCounter.OtherPagesUntouched | ysqlite3/vfs/page_transforming_file.hpp:48-71 | cycles on one page leave every other page's stored bytes as they were |
| TrailerCounter.EncodingCounts | ysqlite3/vfs/crypt_file.hpp:142-152 | each encoding adds one to the counter, wrapping at 2^32 |
| CryptFile.GenerateIv | ysqlite3/vfs/crypt_file.hpp:142-152 | in place: eight fresh bytes and the incremented counter, nothing else changed, on either byte order |
| CryptFile.CryptFile.constructor | ysqlite3/vfs/crypt_file.hpp:34-44 | the initial settings are those of the URI parameters, key before cipher, on the read side |
| CryptFile.CryptFile.FileControl | ysqlite3/vfs/crypt_file.hpp:51-79 | the fields and the reply move as the settings machine says |
| CryptFile.CryptFile.GenerateKey | ysqlite3/vfs/crypt_file.hpp:153-211 | a literal sets the key derived from what it means, and leaves it alone when it means nothing |
| CryptFile.CryptFile.EncodePage | ysqlite3/vfs/crypt_file.hpp:82-92 | in place over the span: the encoded page under the write side, or a throw |
| CryptFile.CryptFile.DecodePage | ysqlite3/vfs/crypt_file.hpp:93-100 | in place over the span: the decoded page under the read side, also when it throws |
| CryptFile.CryptFile.Split | ysqlite3/span.hpp:39-46 | the trailer and body spans are the last 32 bytes and the rest, and a span below 32 bytes throws despite the wrapping subtraction |
| Spans.Span.Subspan | ysqlite3/span.hpp:39-46 | throws exactly for an offset past the end, and otherwise starts at the offset and has as many elements as asked for or all that are left |
| Spans.SizesWrap | ysqlite3/span.hpp:39-46 | size arithmetic is modulo 2^64, and the default count is the largest size |
| TransformingFile.PageTransformingFile.Read | ysqlite3/vfs/page_transforming_file.hpp:26-47 | buffer, cache and outcome of a read under the subclass's present settings |
| TransformingFile.PageTransformingFile.Write | ysqlite3/vfs/page_transforming_file.hpp:48-71 | store, cache and outcome of a write; the caller's buffer is never changed and a throw leaves the store unchanged |
| TransformingFile.PageTransformingFile.ParseParameters | ysqlite3/vfs/page_transforming_file.hpp:93-109 | the cache is updated first, then the reserve byte decides |
| CryptSession.EncryptedDatabase.Perform | ysqlite3/vfs/crypt_file.hpp:51-104 | one event on the objects leads to the state, and gives the reply or data, of one step of the run the theorems speak about |
| CryptSession.EncryptedDatabase.Replay | ysqlite3/vfs/crypt_file.hpp:51-104 | any sequence of events on the objects is that run, with its answers, and can be followed by another |
| KeyLiteral.ParseKey | ysqlite3/vfs/crypt_file.hpp:153-204 | the parser with its shifted pointer computes the meaning of every literal, all accesses inside it |
| KeyLiteral.ParsePairs | ysqlite3/vfs/crypt_file.hpp:192-201 | the nested loops pack the digits after the odd one and stop at the first bad digit |
| KeyLiteral.HexValue | ysqlite3/vfs/crypt_file.hpp:168-201 | the bytes of a hexadecimal literal are the big-endian value of the digits it prints with 0-9, a-f and A-F |
| KeyLiteral.HexAccepted | ysqlite3/vfs/crypt_file.hpp:168-201 | a hexadecimal literal is accepted exactly when all its characters are among 0-9, a-f and A-F, two to a byte |
| KeyLiteral.FirstBadReported | ysqlite3/vfs/crypt_file.hpp:182-201 | otherwise the first other character is reported |
| KeyLiteral.HexDigitTable | ysqlite3/vfs/crypt_file.hpp:169-178 | each digit in either case has its value, and nothing else is a digit |
| KeyLiteral.RawMeaning | ysqlite3/vfs/crypt_file.hpp:164-167 | a raw literal means its characters, whatever they are |
| KeyLiteral.NoLiteral | ysqlite3/vfs/crypt_file.hpp:158-204 | a value is no literal exactly for missing or unequal quotes or a kind other than r and x |
| KeyLiteral.OddIsZeroExtended | ysqlite3/vfs/crypt_file.hpp:179-190 | a literal with an odd number of digits means the same as with a zero put before them, also when one of them is no digit |
| KeyLiteral.HexRoundTrip | ysqlite3/vfs/crypt_file.hpp:168-201 | parsing undoes printing of any byte string with the digits 0-9, a-f and A-F, each in either case |
| Base64Theorems.DecoderIsBaseConversion | ysqlite3/base64.hpp:205-229 | n symbols give floor(6n/8) bytes whose base-256 value is the base-64 value of the symbols divided by 2^(6n mod 8) |
| Base64Theorems.EncoderIsBaseConversion | ysqlite3/base64.hpp:88-141 | the symbols of an encoding are the base-64 digits of the bytes' value shifted by the bits the decoder drops |
| Base64Theorems.RoundTrip | ysqlite3/base64.hpp:79-244 | decoding an encoding, with its alphabet or detection and under either behaviour, returns the bytes |
| Base64Theorems.ReencodingIffCanonical | ysqlite3/base64.hpp:79-244 | among accepted texts re-encoding gives the text back if and only if it is canonical |
| Base64Theorems.EncoderImage | ysqlite3/base64.hpp:79-144 | the encoder's image is exactly the canonical texts |
| Base64Theorems.DetectionIsUnion | ysqlite3/base64.hpp:344-389 | detection succeeds with r exactly when a fixed alphabet does, and the two never disagree |
| Base64Theorems.AlphabetIsStable | ysqlite3/base64.hpp:367-386 | an alphabet fixed after a prefix is kept to the end |
| Base64Theorems.AdvertisedSizes | ysqlite3/base64.hpp:324-341 | the encoding size is exact and the decoding size an upper bound |
| Base64Letters.EncodedLetters | ysqlite3/base64.hpp:79-144 | an encoding is one symbol for each six bits and then an equals sign for each byte missing from the last group of three |
| Base64Letters.DecodedLetters | ysqlite3/base64.hpp:199-244 | symbols decode as base-64 digits, whatever may follow the first equals sign |
| Base64Letters.AcceptedIff | ysqlite3/base64.hpp:199-244 | a text is accepted if and only if all before the first equals sign is of the alphabet, or with detection of one of the two, and, unless decoding is loose, all after it is equals signs |
| Base64Letters.CanonicalLetters | ysqlite3/base64.hpp:79-144 | canonical texts, character by character: whole quanta of symbols, ending in a symbol with two zero bits and one equals sign, or four zero bits and two |
| Base64Letters.TwoZeroBits | ysqlite3/base64.hpp:124-134 | the symbols with two zero bits at the end are AEIMQUYcgkosw048 |
| Base64Letters.FourZeroBits | ysqlite3/base64.hpp:104-118 | those with four are AQgw |
| Base64Letters.SizesInFigures | ysqlite3/base64.hpp:324-341 | the advertised sizes are a third and a quarter of the size, rounded up, times four and three |
| Base64Codec.Decode | ysqlite3/base64.hpp:199-244 | the streaming loop with its shifts computes the decoding, errors included |
| Base64Codec.DecodeInPlace | ysqlite3/base64.hpp:294-313 | decoding over the input gives the same result; thrown or not, exactly the bytes of the readable symbols are written over the front and everything past them is unchanged |
| Base64Codec.OverwriteSymbols | ysqlite3/base64.hpp:208-229 | for every input the write cursor stays strictly behind the read cursor once a symbol was read and the unread input is intact, where the loop stops and when it throws |
| Base64Codec.Encode | ysqlite3/base64.hpp:79-144 | the streaming encoder computes the encoding, padding included |
| Base64Codec.ShiftJoinIsJoined | ysqlite3/base64.hpp:219-220 | the truncated shift-and-or is the pending bits followed by the new symbol's high bits |
| Bytes.ShlOrIsBitwise | ysqlite3/base64.hpp:219-220 | shifting and adding a small enough number is shifting and bitwise or |
| Base64.TableLookup | ysqlite3/base64.hpp:84-86 | the encoder's two tables, character by character, and that the model uses the same symbols |
| StatementHandles.HandlesConserved | ysqlite3/statement.cpp:19-30 | over every run each handle is owned by exactly one object, released once or finalised once |
| StatementHandles.Moving | ysqlite3/statement.cpp:19-208 | move construction empties the source into the new object and move assignment exchanges the two, all others unchanged |
| StatementHandles.Ending | ysqlite3/statement.cpp:24-202 | releasing gives the handle away, closing and destroying have it finalised, and nothing else changes |
| StatementHandles.Program.MoveConstruct | ysqlite3/statement.cpp:19-22 | the new object has the handle, the old one none, all others unchanged |
| StatementHandles.Program.MoveAssign | ysqlite3/statement.cpp:204-208 | the two objects exchange their handles, also an object with itself |
| StatementHandles.Program.Close | ysqlite3/statement.cpp:67-74 | the handle is finalised once and forgotten, whatever the error code |
| StatementHandles.Program.Release | ysqlite3/statement.cpp:197-202 | the handle is given away and forgotten |
| Transactions.BooksBalance | ysqlite3/transaction.cpp:7-56 | over every run, per database, successful begins are successful commits plus rollbacks plus active objects |
| Transactions.Beginning | ysqlite3/transaction.cpp:7-10 | a successful BEGIN makes an active object, one that fails in the constructor ends the process |
| Transactions.Moving | ysqlite3/transaction.cpp:12-56 | move construction takes the transaction over; move assignment rolls the target back first and empties the source |
| Transactions.Ending | ysqlite3/transaction.cpp:18-49 | a commit counts as a commit, a rollback and a destruction as a rollback; one that fails leaves the object active |
| Transactions.Program.Commit | ysqlite3/transaction.cpp:43-49 | a failing commit leaves the object active, a successful one ends it |
| Transactions.Program.MoveAssign | ysqlite3/transaction.cpp:51-56 | rolls back first, then swaps; a failing rollback ends the process |

## Left out

- AES-GCM, PBKDF2 and the random source: function parameters; nothing is claimed about wrong keys or tampering beyond the lemmas that name a property of the cipher. That a cipher reads only as many bytes of the key as it is long is part of the model.
- `PhaseOutcome.ReencryptionIff`: asks that no stale page's stored bytes pass under the final settings by accident; that depends on the cipher and the bytes, and `Guarantees.GuaranteedIff` is what holds without it.
- A key derivation that fails: modelled as leaving the key untouched, although the library might have written part of it.
- Pragma calls with a null value, and where the result string of a pragma is placed.
- Accesses that straddle pages, change the page size during a run, or are shorter than 512 bytes outside the first 100: the run theorems require aligned pages and header accesses, as SQLite makes them.
- Pages never written: gaps left by writing past the end read as zeros in `ByteFile`, and no theorem says what they decode to.
- Reads inside a phase of a page already rewritten under other settings: the code decodes them under the old ones, so nothing is promised.
- `sqlite3_file_wrapper`, `sqlite3_vfs_wrapper`, `file.cpp`, `vfs.cpp`: forwarding; the parent file is a byte sequence whose only failure is a short read.
- Base64 over general iterators: texts are character sequences and arrays.
- `StatementHandles.Program.Destroy`: clears the object's slot; that a destroyed object is not used again is the language's rule, not part of the model.
- The pairing of statement and database pointers in `Statement`: moves transfer only the statement.
- `Transactions`: databases are identities, not reference counts of shared pointers.
- `finally.hpp`, `database.cpp`, `results.cpp`, the SQL functions, the shell and the extension entry points.
