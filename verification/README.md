# NTAG 424 DNA: a verified model of the `ntag424` crate

The crate speaks the NTAG 424 DNA protocol (NT4H2421Gx, with AN12304 for LRP and AN10922 for key
diversification). This project models its protocol code in Dafny and proves what it is for: that
host and tag stay in step, that chunked transfers are one read or one write, that keys end up where
they should, and that what a tag mirrors into a URL is what the server reads out of it.

AES-128 is any keyed permutation of blocks; every result holds for all of them. CMAC, CBC, LRP, the
checksum, padding, framing and codecs are concrete. MACs are plain functions: nothing assumes that
they do not collide, and injectivity is proved of their inputs.

## How it is laid out

- `Octets`, `Blocks`, `Wrappers`: bytes, exclusive or, numerals, buffers, results.
- `Aes`, `Cbc`, `Lrp`, `Suite`: the ciphers in place, and the two secure-messaging suites.
- `Wire`, `SecureChannel`, `Transport`, `Exchange`: MAC inputs, padding, frames, the host's session
  object, and the link to the tag, which may lose a frame or its answer or, when it is not honest,
  answer anything.
- `Tag`: an honest tag as a state machine over APDUs. Randoms are any stream it draws from.
- `ReadData`, `WriteData`, `IsoFiles`: the chunk loops of all modes.
- `Handshake`, `Lockstep`: authentication, and whole runs of operations.
- `Crc`, `KeyChange`, `Provision`, `KeyDiversification`: key material and runs over the key table.
- `CapabilityContainer`: that codec.
- `Hex`, `Sdm`, `SdmCrypto`, `SdmVerifier`, `SdmTag`, `Verification`: SDM settings, the verifier,
  what a tag renders, and replay protection.
- `Utf8`, `Template`, `TemplateLayout`, `NdefUri`, `Escaping`, `EndToEnd`: the URL template compiler,
  the NDEF record, the template grammar, and the theorem from template to verdict.

Classes stand where the crate updates fields (`Authenticated`, `Unauthenticated`, the output
buffer, the compiler's locals, the counter store); loops and buffers written in place are loops and
arrays. Each is proved against a function, and the lemmas are about the functions.
What host and tag share, or build and parse, is also stated on its own, over literal bytes, names and
numbers: key labels and vectors, MAC inputs, frames, the checksum's polynomial, hex digits, counters,
placeholder names, prefix codes.

## Where the code and its documentation differ

- `reset` documents that running it again after an interruption is safe because completed steps are
  idempotent. They are not: the cryptogram is masked with the derived key while the tag already
  holds zero. `Provision.ResetAgain` gives the exact condition, `Provision.ResetAgainRefused` a
  key for which the second run is refused. What does hold is that Key 0 is last
  (`Provision.MasterKeyLast`).
- `Sdm::try_new` documents that a tamper status overlapping the encrypted range must lie in its
  plaintext half. It also accepts one that starts on the byte before the range; its second byte is
  then read from the ciphertext. `SdmTag.RoundTripsExactly` gives the exact condition. Compiled
  templates never do this (`NdefUri.SettingsExactly`).
- The comment on `picc_key` says that derivation inputs start with the key number. They start with
  the UID. The separation it claims holds because of lengths and padding
  (`KeyDiversification.TagInputsSeparate`).
- The documentation of `sdm_url_config` says prefixes with a shared root are matched longest first.
  The table is searched in order, and `urn:` hides the five `urn:epc:` entries and `urn:nfc:` behind
  it. `NdefUri.LongestMatchExactly` says that these URLs are all that is affected. Round trips hold.
- The comment at `ntag424/src/commands/read_data.rs:235` says that offset plus length is checked
  against 24 bits. Each is checked on its own, so an accepted request may name other places than its
  chunks (`ReadData.TruncatedRead`; `Wire.NamesChunksExactly` says when). It is never sent to an
  honest tag, whose files end before: `ReadData.ReadDataMac` and the other loops promise `InReach`.
  The plain loops check every chunk and promise it whatever answers.
- ChangeKey's checksum is 32 bits: `KeyChange.SomeWrongOldKeyAccepted` builds a wrong old key that
  passes it for every current key. `KeyChange.UnwrapsExactly` says exactly which do.
- `read_file_unauthenticated` and `write_file_unauthenticated` remember the selected file. If the
  answer to a selection is lost, the tag has moved on, and the next call that names the remembered
  file reads or writes the other one and succeeds (`IsoFiles.LostSelectionGoesWrong`).
  `IsoFiles.HitsExactly` says exactly when; as long as no selection has failed it does not happen
  (`IsoFiles.HeardCallsHitNamed`).
- `AuthenticatedSession` documents that failing calls consume the session so that it cannot get out
  of step, and that a plain transfer may borrow it because a success counts. A failed plain transfer
  keeps the session: after a lost answer the tag is one command on, and stays so after the next
  success (`Lockstep.LostAnswerFallsBehind`); after a refusal it has no session at all
  (`Lockstep.RefusalEndsSession`). `Lockstep.Perform` and `Lockstep.AgreeExactly` say exactly when a
  kept session is still in step, and that out of step a secured operation fails and changes nothing,
  unless the tag takes its first MAC by accident (`Lockstep.OutOfStepIsShut`). For the consuming methods the documented claim holds.
- `with_offset` keeps positions up to 255, which it says is the size of a file. Behind a prefix
  of more than 8 characters, positions in the URL exceed those in the file, and a template may
  build and have no URL verifier (`EndToEnd.UrlVerifierExactly`, `EndToEnd.LongUrlHasNoVerifier`).
- Without `alloc`, `parse_ndef_uri` puts the URL in a string of 256 bytes and panics beyond. Templates
  that build can get there (`Escaping.LongUrlPanics`); `NdefUri.RecordParses` gives the exact condition.

## Model

| member | source | states |
|---|---|---|
| Cbc.DecryptUndoesEncrypt | ntag424/src/crypto/suite.rs:261-304 | CBC decryption under any keyed permutation undoes CBC encryption, for any number of blocks |
| Cbc.EncryptSplit | ntag424/src/crypto/suite.rs:261-280 | encrypting `a ++ b` is encrypting `a` and then `b` with the last ciphertext block of `a` as IV |
| Cbc.Encrypt | ntag424/src/crypto/suite.rs:261-280 | the in-place loop leaves the recursive CBC encryption in the buffer; accepts exactly positive multiples of 16, and otherwise changes nothing |
| Cbc.Decrypt | ntag424/src/crypto/suite.rs:284-304 | the same for decryption, whose loop has to save each ciphertext block before it overwrites it |
| Cbc.EncryptedIsCbc | ntag424/src/crypto/suite.rs:261-280 | block for block: the ciphertext is the encipherment of plaintext exclusive-or the ciphertext before it, the IV before the first |
| Cmac.CmacIs | ntag424/src/crypto/suite.rs:162-175 | a CMAC is the last value of the chain that NIST SP 800-38B section 6.2 describes, with the subkeys of section 6.1 |
| Lrp.GeneratePlaintexts | ntag424/src/crypto/lrp.rs:25-37 | the running-key loop produces the sixteen plaintexts of AN12304 |
| Lrp.GenerateUpdatedKeys | ntag424/src/crypto/lrp.rs:40-50 | the running-key loop produces the updated keys of AN12304 |
| Lrp.TablesAre | ntag424/src/crypto/lrp.rs:25-50 | plaintexts and updated keys from the ladder of running keys: 0x55 or 0xAA enciphered first, 0x55 at each step, 0xAA for what is given out; a base key has the first updated key |
| Lrp.EvalLrp | ntag424/src/crypto/lrp.rs:72-87 | there is a chain `ys` from the updated key in which each value enciphers the plaintext its nibble picks; the result is the zero block enciphered under the last value, or that value if `last` is off |
| Lrp.Inc | ntag424/src/crypto/lrp.rs:89-99 | the nibble carry chain adds one modulo 16^length |
| Lrp.LoadCounter | ntag424/src/crypto/lrp.rs:152-165 | counters of 1 to 16 bytes load to their nibbles, high nibble first; others are refused |
| Lrp.StoreCounter | ntag424/src/crypto/lrp.rs:167-172 | storing is the inverse of loading |
| Lrp.IncrementedCounter | ntag424/src/crypto/lrp.rs:89-99 | incrementing the nibbles of `n` gives the nibbles of `n + 1`, through every carry and the wrap-around |
| Lrp.CountersDistinct | ntag424/src/crypto/lrp.rs:179-220 | the counters of fewer than 16^k consecutive blocks are pairwise distinct |
| Lrp.DecryptUndoesEncrypt | ntag424/src/crypto/lrp.rs:179-220 | LRICB decryption undoes encryption from the same counter, for any block count (AN12304 section 3.3) |
| Lrp.EncryptSplit | ntag424/src/crypto/lrp.rs:179-197 | `a ++ b` in one call is `a` and then `b` with the counter stepped past the blocks of `a` |
| Lrp.DecryptSplit | ntag424/src/crypto/lrp.rs:203-220 | the same splitting law for decryption |
| Lrp.EncryptWraps | ntag424/src/crypto/lrp.rs:179-220 | only the counter modulo 16^k matters |
| Lrp.EncryptInPlace | ntag424/src/crypto/lrp.rs:179-197 | the loop leaves in the buffer, for each block, its encipherment under the finished evaluation of its own counter (LRICB) and start + blocks modulo 256^length in the counter; refusals change neither |
| Lrp.DecryptInPlace | ntag424/src/crypto/lrp.rs:203-220 | the same for decryption |
| Lrp.BlockIsLrp | ntag424/src/crypto/lrp.rs:243-261 | as a block cipher for CMAC_LRP: the finished evaluation over the 32 nibbles of the block |
| Suite.BuildSessionVectorAes | ntag424/src/crypto/suite.rs:135-146 | the vector filled byte by byte is label, counter, length and the interleaved randoms of NT4H2421Gx section 9.1.7 |
| Suite.BuildSessionVectorLrp | ntag424/src/crypto/suite.rs:150-160 | the LRP vector is the same interleaving between its own marks |
| Suite.DeriveAesSuite | ntag424/src/crypto/suite.rs:219-226 | which key is which: the MAC key is the CMAC of the vector that starts 5A A5, the encryption key that of the one that starts A5 5A, byte by byte |
| Suite.DeriveLrpSuite | ntag424/src/crypto/suite.rs:381-397 | the key with UK[0] of the session master key authenticates, the one with UK[1] enciphers; EncCtr is 0 |
| Suite.MacIs | ntag424/src/crypto/suite.rs:228-230 | every second byte of the CMAC under the MAC key, in either suite |
| Suite.EncryptedIs | ntag424/src/crypto/suite.rs:232-240 | CBC under the encryption key from the enciphered IV block, or LRICB over EncCtr in eight nibbles |
| Suite.IvInputIs | ntag424/src/crypto/suite.rs:204-213 | the IV block: A5 5A for commands and 5A A5 for answers, TI, CmdCtr low byte first, zeros |
| Suite.IvInputInjective | ntag424/src/crypto/suite.rs:204-213 | direction and command counter can be read off the block that is enciphered into the IV |
| Suite.DecryptUndoesEncrypt | ntag424/src/crypto/suite.rs:216-255 | two ends that hold equal suites and counters agree on the plaintext, in either mode and direction |
| Suite.LrpEncryptThreads | ntag424/src/crypto/suite.rs:403-427 | two LRP messages one after the other are one message of both, through the 2^32 wrap-around of EncCtr, and leave the same EncCtr |
| Suite.MacStepped | ntag424/src/crypto/suite.rs:399-401 | EncCtr does not enter a MAC |
| Suite.Encrypt | ntag424/src/crypto/suite.rs:232-240 | in place: the enciphered buffer, and EncCtr stepped once per block modulo 2^32 in LRP mode; a refusal changes neither |
| Suite.Decrypt | ntag424/src/crypto/suite.rs:416-427 | the same for decryption |
| Wire.MacInputInjective | ntag424/src/commands/secure_channel.rs:293-309 | prefix, counter and bytes can be read off a MAC input |
| Wire.MacsAre | ntag424/src/commands/secure_channel.rs:293-309 | command and response MACs, byte by byte: code, counter low byte first, TI, data; responses with CmdCtr + 1 |
| Wire.NoMacInputReuse | ntag424/src/commands/secure_channel.rs:187-209 | of all MAC inputs that a session object has computed for its commands and their answers, over at most 2^16 acknowledged commands, no two are equal |
| Wire.NoIvInputReuse | ntag424/src/crypto/suite.rs:204-213 | likewise of all blocks it has enciphered into IVs |
| Wire.StripFinds | ntag424/src/commands/secure_channel.rs:276-285 | stripping returns `n` exactly when position `n` holds 0x80 and only zeros follow |
| Wire.StripPad | ntag424/src/commands/write_data.rs:286-298 | padding and stripping give the message back, at every length |
| Wire.StripM2Padding | ntag424/src/commands/secure_channel.rs:276-285 | the backward scan finds the one place padding can start, or reports that there is none |
| Wire.ApduFrames | ntag424/src/commands/secure_channel.rs:238-252 | a frame has its exact body length in Lc, and its body and code can be read back |
| Wire.FramesAre | ntag424/src/commands/read_data.rs:121-128 | a frame is 90, code, P1, P2, Lc, body, 00; a header is file number, offset and length, three bytes each, low byte first |
| Wire.HeaderDecodes | ntag424/src/commands/read_data.rs:121-128 | the header decodes to file number, offset and length, modulo 2^24 each |
| Wire.HeaderWraps | ntag424/src/commands/read_data.rs:235-236 | offsets that wrap at 2^32 in the host address the same bytes |
| Wire.NamesChunksExactly | ntag424/src/commands/read_data.rs:235-238 | the commands of a chunked transfer name the offsets of their chunks if and only if the last one begins at an offset of at most 24 bits |
| SecureChannel.Authenticated.Rekey | ntag424/src/session/authenticated.rs:65-75 | NonFirst replaces the suite and keeps TI and CmdCtr |
| SecureChannel.Authenticated.AdvanceCounter | ntag424/src/session/authenticated.rs:93-98 | CmdCtr steps by one modulo 2^16 and nothing else changes |
| SecureChannel.FillMacInput | ntag424/src/commands/secure_channel.rs:293-309 | the buffer holds prefix, counter, TI and both parts, in this order, up to the returned length |
| SecureChannel.ComputeCmdMac | ntag424/src/commands/secure_channel.rs:86-97 | the MAC is over code, current CmdCtr, TI, header and data |
| SecureChannel.EncryptCommand | ntag424/src/commands/secure_channel.rs:108-118 | enciphers in place for the command direction at the current CmdCtr and steps EncCtr, or refuses and changes nothing |
| SecureChannel.DecryptResponse | ntag424/src/commands/secure_channel.rs:130-140 | the same for responses |
| SecureChannel.VerifyResponseMacAndAdvance | ntag424/src/commands/secure_channel.rs:187-209 | returns the body exactly when its last eight bytes are its MAC at CmdCtr + 1; CmdCtr advances exactly then, and a bad MAC leaves it alone |
| SecureChannel.AssembleApdu | ntag424/src/commands/secure_channel.rs:238-252 | the positions written one after another make the frame |
| SecureChannel.SendMac | ntag424/src/commands/secure_channel.rs:217-271 | one frame with the right MAC is sent, or none if it is too long; on success the answer was authentic and CmdCtr advanced |
| Exchange.CheckedOwn | ntag424/src/commands/secure_channel.rs:86-97 | an honest tag in step accepts the MAC the host computes |
| Exchange.VerifiedOwn | ntag424/src/commands/secure_channel.rs:187-209 | the host accepts the MAC an honest tag in step computes |
| Exchange.DeafRefuses | ntag424/src/commands/secure_channel.rs:217-271 | a command whose MAC the tag does not take is refused whatever it is, changes no key and no file, and ends the tag's session |
| Exchange.SentOneMore | ntag424/src/commands/read_data.rs:219-240 | each further command of a chunked transfer addresses the next chunk |
| Exchange.StoredOneMore | ntag424/src/commands/write_data.rs:189-206 | a chunk spliced in behind the chunks before it makes one splice of all of them |
| Octets.SpliceIs | ntag424/src/commands/write_data.rs:189-206 | a splice holds the new bytes in their range and the old ones everywhere else |
| ReadData.ValidateRequest | ntag424/src/commands/read_data.rs:76-118 | a request is sent exactly if the file number has 5 bits, offset and length have 24, and the buffer is neither empty nor too short |
| ReadData.ChunksFit | ntag424/src/commands/read_data.rs:49-74 | chunks are exactly as long as an answer of 256 bytes allows: with a MAC, and padded if enciphered |
| ReadData.ReadDataMac | ntag424/src/commands/read_data.rs:198-241 | on `Ok(n)` the first `n` bytes of the buffer are the file bytes from the offset, `n` short of the target only at the end of the file; CmdCtr advanced once per command; every command addresses its chunk, and no address of more than 24 bits is sent to an honest tag; keys and files untouched; terminates whatever answers |
| ReadData.TruncatedRead | ntag424/src/commands/read_data.rs:235-238 | an accepted request whose second command names another place: 249 bytes from offset 0xFFFFFF |
| ReadData.ReadDataMacOneApdu | ntag424/src/commands/read_data.rs:243-278 | one MAC read returns what the tag serves for its range |
| ReadData.OpenResponse | ntag424/src/commands/read_data.rs:361-395 | an encrypted answer is opened to its deciphered bytes without padding, with the error cases of length and padding |
| ReadData.FullReadAccepted | ntag424/src/commands/read_data.rs:339-410 | what an honest tag enciphers, the host deciphers to the file bytes, and both step alike |
| ReadData.ReadDataFull | ntag424/src/commands/read_data.rs:295-337 | as for MAC, and never short, whatever answers |
| ReadData.ReadDataPlain | ntag424/src/commands/read_data.rs:154-180 | one plain read: a longer answer is cut, not refused |
| ReadData.ReadFilePlainChunked | ntag424/src/session/authenticated.rs:122-160 | the plain loop refines one read; the session counts exactly the acknowledged commands, and on failure the tag is at most one command further on; it panics only when a whole further chunk would not fit the buffer |
| WriteData.ValidateHeader | ntag424/src/commands/write_data.rs:80-114 | a write is sent exactly if the file number has 5 bits, the offset has 24, and the data has 1 to 2^24 - 1 bytes |
| WriteData.ChunksFit | ntag424/src/commands/write_data.rs:56-78 | chunks are exactly as long as a command body of 255 bytes allows |
| WriteData.SecureWriteEnds | ntag424/src/commands/write_data.rs:211-235 | an honest tag stores all of a secured chunk and acknowledges it, or refuses it and changes nothing |
| WriteData.SealedPayload | ntag424/src/commands/write_data.rs:286-302 | the tag gets back exactly the data that was padded and enciphered |
| WriteData.WriteDataMac | ntag424/src/commands/write_data.rs:180-209 | on success the file is the old file with the data spliced in and CmdCtr advanced by ceil(len / 240); on error it holds the first chunks, all acknowledged ones and at most one more; every command addresses its chunk |
| WriteData.WriteDataFull | ntag424/src/commands/write_data.rs:250-275 | the same with 239-byte chunks, padded and enciphered |
| WriteData.WriteFilePlainChunked | ntag424/src/session/authenticated.rs:164-192 | on success one splice; on error the first chunks, all acknowledged ones and at most one more; the session counts exactly the acknowledged ones, and the tag is at most one command further on |
| WriteData.WriteDataMacOneApdu | ntag424/src/commands/write_data.rs:211-235 | one MAC write is stored whole or not at all |
| WriteData.WriteDataFullOneApdu | ntag424/src/commands/write_data.rs:277-327 | one FULL write is stored whole or not at all, and host and tag step EncCtr alike |
| IsoFiles.SelectEf | ntag424/src/commands/iso_select_file.rs:58-71 | selecting a file changes the tag, even if the host never hears of it |
| IsoFiles.SelectNdefApplication | ntag424/src/session/unauthenticated.rs:59-70 | once per session, one frame with the AID D2760000850101; it ends a session of the tag |
| IsoFiles.IsoFrames | ntag424/src/commands/iso_read_binary.rs:34-104 | the three commands byte by byte, the offset in P1 and P2, and the identifiers E103, E104, E105 of files 1, 2, 3 |
| IsoFiles.SelectFile | ntag424/src/session/unauthenticated.rs:93-97 | a remembered file is not selected again; any other one is, and then the tag has it selected; a failed selection that reached the tag leaves the tag on the named file and the host remembering the other one |
| IsoFiles.IsoReadBinary | ntag424/src/commands/iso_read_binary.rs:34-104 | one read of the selected file: offsets above 0x7FFF and empty buffers are refused before anything is sent |
| IsoFiles.IsoUpdateBinary | ntag424/src/commands/iso_update_binary.rs:48-112 | one update is stored whole or not at all |
| IsoFiles.ReadFileUnauthenticated | ntag424/src/session/unauthenticated.rs:87-125 | on `Ok(n)` the buffer holds the bytes of the file that the tag has selected, short only at its end; that is the named file exactly when this call selected it or no selection reached the tag unheard since it was remembered |
| IsoFiles.ReadChunks | ntag424/src/session/unauthenticated.rs:105-125 | command `k` reads chunk `k`; terminates whatever answers |
| IsoFiles.WriteFileUnauthenticated | ntag424/src/session/unauthenticated.rs:136-175 | on success one splice into the file that the tag has selected, on error a chunk-aligned prefix of it or nothing; the selected file is the named one under the same exact condition |
| IsoFiles.WriteChunks | ntag424/src/session/unauthenticated.rs:154-175 | command `k` carries chunk `k`, with its exact length in Lc |
| IsoFiles.AccessFiles | ntag424/src/session/unauthenticated.rs:87-175 | any reads and writes of a new session over a lossy link: every call acts on the file that the tag has selected, and the record says which |
| IsoFiles.HitsExactly | ntag424/src/session/unauthenticated.rs:93-97 | over a run: a call whose selection did not fail is of the named file exactly unless that file is the last one heard to be selected and a later selection reached the tag unheard |
| IsoFiles.HeardCallsHitNamed | ntag424/src/session/unauthenticated.rs:93-97 | as long as no selection of the session has failed, every read and write that succeeds is of the named file |
| IsoFiles.LostSelectionGoesWrong | ntag424/src/session/unauthenticated.rs:93-97 | where it fails: one file selected, the selection of another one reaches the tag and its answer is lost, the first file named again: the read returns the other file's bytes, the write goes into the other file, and both succeed |
| IsoFiles.LostSelectionSteps | ntag424/src/commands/iso_select_file.rs:58-71 | the tag's part of that run, for any two files |
| Handshake.RotateBack | ntag424/src/commands/authenticate/aes.rs:186-191 | undoing the rotation gives RndA exactly when the field is RndA rotated left |
| Handshake.FirstFrames | ntag424/src/commands/authenticate/aes.rs:104-116 | the first frames of all four handshakes, byte by byte |
| Handshake.BuildPart2 | ntag424/src/commands/authenticate/aes.rs:153-166 | part 2 is one CBC string of RndA and the rotated RndB |
| Handshake.FinishAuth | ntag424/src/commands/authenticate/aes.rs:173-206 | accepts exactly when the deciphered field is RndA rotated left by one; returns TI, capabilities and a suite whose MAC key is the CMAC of the vector 5A A5 .. and whose encryption key is that of A5 5A .., each of the 32 bytes stated |
| Handshake.FinishAuthNonFirst | ntag424/src/commands/authenticate/aes.rs:213-231 | the same for NonFirst, with the same keys |
| Handshake.VerifyAndExtract | ntag424/src/commands/authenticate/lrp.rs:216-257 | accepts exactly when the untruncated MAC is right and the echoed capabilities are ours; EncCtr steps from 0 to 1 |
| Handshake.Part2AesAnswer | ntag424/src/commands/authenticate/aes.rs:153-206 | the honest tag accepts the host that holds the key, and answers so that the host accepts |
| Handshake.Part2LrpAnswer | ntag424/src/commands/authenticate/lrp.rs:160-190 | the same in LRP mode |
| Handshake.WrongModeRefused | ntag424/src/commands/authenticate/lrp.rs:115-140 | First authentication in the mode the tag is not in is refused |
| Handshake.NoSessionRefused | ntag424/src/commands/authenticate/aes.rs:35-79 | NonFirst is refused by a tag that has no session |
| Handshake.FirstAes | ntag424/src/commands/authenticate/aes.rs:91-147 | with the tag's key only the link can fail; on success both ends hold equal suites and TI, and CmdCtr 0; the MAC and the encryption key are the ones `Handshake.FinishAuth` names |
| Handshake.NonFirstAes | ntag424/src/commands/authenticate/aes.rs:35-79 | the same, TI and CmdCtr kept |
| Handshake.FirstLrp | ntag424/src/commands/authenticate/lrp.rs:115-190 | as for AES, with UK[0] for MACs and UK[1] for encryption, and EncCtr 1 on both ends |
| Handshake.NonFirstLrp | ntag424/src/commands/authenticate/lrp.rs:38-105 | as for AES, with UK[0] for MACs and UK[1] for encryption, and EncCtr 0 on both ends |
| Lockstep.Perform | ntag424/src/session/authenticated.rs:195-557 | every operation keeps the invariant: CmdCtr is the number of commands acknowledged since First, and the tag's session is the host's, as many commands further on as reached the tag unacknowledged. A failure drops the session, unless a plain transfer kept it; a kept session still agrees with the tag exactly when the operation succeeded or no command of it reached the tag unacknowledged. Out of step, a secured operation whose first MAC the tag does not take by accident fails and changes no key and no file |
| Lockstep.PerformPlain | ntag424/src/session/authenticated.rs:332-349 | a plain transfer on a borrowed session: the host counts what was acknowledged, at most one command more reaches the tag and only on failure; from agreement it leads to agreement exactly when none did |
| Lockstep.PerformFirst | ntag424/src/session/unauthenticated.rs:206-252 | First authentication in the tag's mode starts a session in step, or only the link failed; in the other mode it fails, and keys and files stay |
| Lockstep.PerformNonFirst | ntag424/src/session/authenticated.rs:520-557 | NonFirst re-keys a session, keeping its TI and count, in step or behind; a tag that has lost its session refuses it |
| Lockstep.Run | ntag424/src/session/authenticated.rs:195-557 | the invariant holds over every run over a lossy link, in either mode, in step or not, and every state of the tag is explained by the operations and their outcomes; host and tag agree after it exactly when the tag has its session and the commands that went unheard are none or whole turns of the counter, and these are at most as many as plain transfers that failed and kept their session; a run ends early only at a wrong key or file mode, or where two different MAC inputs have one MAC |
| Lockstep.NothingRepeats | ntag424/src/session/authenticated.rs:93-98 | in every session of a run, over at most 2^16 acknowledged commands, all MAC inputs and all IV inputs the host has computed are distinct |
| Lockstep.AgreeExactly | ntag424/src/session/authenticated_session.rs:25-29 | a host that trails by `n` commands agrees with the tag exactly when the tag still has its session and `n` is a multiple of 2^16 |
| Lockstep.LostAnswerFallsBehind | ntag424/src/session/authenticated_session.rs:25-29 | a kept session out of step after a success: a plain read whose answer is lost, then one that succeeds; host one command on, tag two |
| Lockstep.RefusalEndsSession | ntag424/src/session/authenticated_session.rs:25-29 | a plain read the tag refuses ends the tag's session, and the host keeps its own |
| Lockstep.OutOfStepIsShut | ntag424/src/session/authenticated_session.rs:15-22 | out of step, the tag refuses a secured operation exactly when it has no session or the MAC inputs of the operation's first command, at the host's CmdCtr and at the tag's, do not collide |
| Lockstep.ReadsBack | ntag424/src/session/authenticated.rs:351-495 | over a whole run, a successful read returns what the last successful write of the range put there, across modes, lost frames, re-authentications and key changes |
| Lockstep.LeavesFileAlong | ntag424/src/session/authenticated.rs:195-557 | operations that do not write to a file leave its bytes alone, however many there are |
| Crc.ComputeCrc32 | ntag424/src/commands/change_key.rs:26-39 | the nested bit loop computes the register, and gives it out little-endian without complement |
| Crc.ChecksumIs | ntag424/src/commands/change_key.rs:26-39 | the checksum is the last state of a register that starts at FFFFFFFF and takes each bit with the polynomial EDB88320 |
| Crc.RegisterLinear | ntag424/src/commands/change_key.rs:26-39 | the register is linear in its start and its input under exclusive or |
| Crc.Crc32Affine | ntag424/src/commands/change_key.rs:26-39 | the checksum register is affine: two inputs of one length differ by the register of their difference |
| Crc.SameCrc | ntag424/src/commands/change_key.rs:26-39 | two strings of one length have one checksum exactly when their difference leaves nothing in an empty register |
| Crc.RegisterInjective | ntag424/src/commands/change_key.rs:26-39 | feeding bytes loses nothing of the register |
| Crc.AppendedCrcIsZero | ntag424/src/commands/change_key.rs:26-39 | a string followed by its checksum drives the register to zero |
| Crc.BurstDetected | ntag424/src/commands/change_key.rs:26-39 | no non-zero burst of four bytes leaves an empty register |
| KeyChange.UnwrapsExactly | ntag424/src/commands/change_key.rs:54-71 | for every old key the host may use: the tag takes the unmasked key exactly when old and current key differ by a string of empty register |
| KeyChange.RightOldKey | ntag424/src/commands/change_key.rs:62-69 | with the right old key the tag accepts, and gets exactly the new key |
| KeyChange.WrongOldKeyRefused | ntag424/src/commands/change_key.rs:62-69 | an old key wrong only within four consecutive bytes is always refused |
| KeyChange.SomeWrongOldKeyAccepted | ntag424/src/commands/change_key.rs:62-69 | for every key there is a wrong old key that the checksum lets through, and then a wrong key goes in |
| KeyChange.FillMasked | ntag424/src/commands/change_key.rs:62-69 | the plaintext filled in field by field is the padded cryptogram |
| KeyChange.OtherKeyEnds | ntag424/src/commands/change_key.rs:103-147 | the tag's answer to Case 1 for every old key: the new table and an acknowledgement, or a refusal |
| KeyChange.KeyChangeRefused | ntag424/src/commands/change_key.rs:103-147 | without a session, in one opened with another key than Key 0, or with a MAC it does not take, the tag refuses every key change and keeps its table |
| KeyChange.ChangeKey | ntag424/src/commands/change_key.rs:54-72 | success means the slot holds the unmasked key and both ends are in step; failure leaves the table alone or holds the same slot; with an acceptable old key only the link can fail |
| KeyChange.ChangeMasterKey | ntag424/src/commands/change_key.rs:83-95 | Case 2: success means Key 0 holds exactly the new key and the session is over |
| Provision.ProvisionKeys | ntag424/src/high_level/provision.rs:333-351 | wherever the run stops, the table is the one after some number of its steps; success means all five |
| Provision.ResetKeys | ntag424/src/high_level/reset.rs:192-207 | the same for the reset sequence |
| Provision.Reset | ntag424/src/high_level/reset.rs:149-158 | the session is opened in LRP or, failing that, in AES, and the key sequence that follows ends as `Provision.ResetKeys` says |
| Provision.MasterKeyLast | ntag424/src/high_level/reset.rs:192-207 | at every interruption point Key 0 is the old one unless the whole run is done |
| Provision.ProvisionInstalls | ntag424/src/high_level/provision.rs:333-351 | from all-zero keys nothing is refused and a complete run ends in exactly the five keys at version 1 |
| Provision.ResetRestores | ntag424/src/high_level/reset.rs:192-207 | from a tag that holds the keys a complete reset ends in the factory table |
| Provision.ResetAgain | ntag424/src/high_level/reset.rs:129-135 | a reset run again after `n` steps restores the factory table exactly when the keys already reset were zero, and passes the tag exactly when they have an empty register |
| Provision.ResetAgainRefused | ntag424/src/high_level/reset.rs:129-135 | a concrete key with which the second reset is refused |
| KeyDiversification.Double | ntag424/src/crypto/key_diversification.rs:219-230 | the carry loop is multiplication by x in GF(2^128) (NIST SP 800-38B section 6.1) |
| KeyDiversification.DoubleInjective | ntag424/src/crypto/key_diversification.rs:219-230 | doubling is injective |
| KeyDiversification.DiversifyAes128 | ntag424/src/crypto/key_diversification.rs:167-214 | the buffers and running state compute the two-block form of AN10922 section 2.2 |
| KeyDiversification.DiversifiedIsCmac | ntag424/src/crypto/key_diversification.rs:167-214 | from 16 bytes of input on that is CMAC of 0x01 || M |
| KeyDiversification.DiversifiedIsNotCmac | ntag424/src/crypto/key_diversification.rs:167-214 | below 16 bytes it is not: a block function on which the two differ |
| KeyDiversification.DiversifiedPadded | ntag424/src/crypto/key_diversification.rs:167-214 | for 1 to 30 bytes: with d = 01, the input, 80 and zeros, the key is the CMAC of d with its second block masked by both subkeys |
| KeyDiversification.DiversifiedWhole | ntag424/src/crypto/key_diversification.rs:167-214 | for 31 bytes the key is the CMAC of 01 and the input |
| KeyDiversification.InputsInFull | ntag424/src/crypto/key_diversification.rs:128-152 | the inputs byte by byte: UID, the AID D2760000850101, key number, `NTAG424DNA`; for Key 1 the letters `PICC` |
| KeyDiversification.InputInjective | ntag424/src/crypto/key_diversification.rs:186-196 | the padded block, with whether it was padded, determines the input |
| KeyDiversification.TagInputsSeparate | ntag424/src/high_level/mod.rs:75-80 | equal padded blocks mean equal UID, key number and system identifier, and never the PICC key's |
| KeyDiversification.DiversifyNtag424 | ntag424/src/crypto/key_diversification.rs:128-152 | the input assembled in place is UID, AID, key number and system identifier |
| KeyDiversification.DeriveKeysForUid | ntag424/src/high_level/provision.rs:144-157 | the five keys of a tag: Key 1 from the constant input, the others from UID and key number |
| KeyDiversification.DerivedInputsDistinct | ntag424/src/high_level/provision.rs:144-157 | over all tags and keys, padded inputs coincide only for the same key of the same tag, and for Key 1 |
| CapabilityContainer.AccessRoundTrip | ntag424/src/types/cc.rs:114-138 | bytes survive decoding and encoding; conditions survive the converse exactly when they do not alias a named one |
| CapabilityContainer.AccessIs | ntag424/src/types/cc.rs:114-138 | which byte is which condition |
| CapabilityContainer.EntryIs | ntag424/src/types/cc.rs:241-265 | the eight bytes of an entry |
| CapabilityContainer.HeaderIs | ntag424/src/types/cc.rs:241-250 | the seven bytes of the header |
| CapabilityContainer.FromBytes | ntag424/src/types/cc.rs:180-236 | the offset loop computes the recursive parse, and stays within the data whatever the data |
| CapabilityContainer.ToBytes | ntag424/src/types/cc.rs:241-265 | the appended pieces are header and entries, in at most 31 bytes |
| CapabilityContainer.BytesOfParsed | ntag424/src/types/cc.rs:180-265 | whenever parsing succeeds, serialising the result gives a prefix of the data |
| CapabilityContainer.RoundTripsExactly | ntag424/src/types/cc.rs:180-265 | a container survives serialising and parsing before any padding exactly when no raw byte aliases and its length field is right |
| CapabilityContainer.With | ntag424/src/types/cc.rs:314-372 | each of the six builders edits its field of the first entry of a kind and nothing else |
| CapabilityContainer.EditsStayCanonical | ntag424/src/types/cc.rs:314-372 | every edit, of read access, write access or size, keeps a container that survives the round trip, unless it puts in an access byte that has a name of its own |
| CapabilityContainer.DefaultContent | ntag424/src/types/cc.rs:148-176 | the default is such a container, and its bytes are those of a factory tag |
| Hex.DecodeHexInto | ntag424/src/crypto/sdm/hex.rs:32-39 | the loop decodes all bytes, or reports the first bad character |
| Hex.NibbleIs | ntag424/src/crypto/sdm/hex.rs:10-17 | a digit has a value exactly if it is 0-9, a-f or A-F, and that one |
| Hex.DecodedIs | ntag424/src/crypto/sdm/hex.rs:32-39 | two digits make a byte, the high one first |
| Hex.DecodeRender | ntag424/src/crypto/sdm/hex.rs:19-39 | decoding finds what a tag renders, wherever it stands |
| Sdm.TryNewAcceptsExactly | ntag424/src/types/file_settings/sdm.rs:461-627 | the checks accept exactly the settings whose mirrors keep apart, with the encrypted range in the MAC window and the tamper status outside, in the plaintext half, or straddling the start |
| Sdm.OverlapExactly | ntag424/src/types/file_settings/sdm.rs:461-627 | two mirrors overlap exactly when they share a position |
| SdmCrypto.ParsePiccDataTag | ntag424/src/crypto/sdm/picc.rs:20-50 | the moving offset finds UID and counter where the tag byte says they are |
| SdmCrypto.PiccIs | ntag424/src/crypto/sdm/picc.rs:20-50 | bit 7 of the tag byte announces the UID, bit 6 the counter, at which positions, and what is refused |
| SdmCrypto.BlobIs | ntag424/src/crypto/sdm/picc.rs:52-80 | what is parsed is the CBC plaintext from a zero IV, or the LRICB plaintext from the eight random bytes in front |
| SdmCrypto.DecryptPiccData | ntag424/src/crypto/sdm/picc.rs:52-80 | both modes: a copy deciphered in place and parsed |
| SdmCrypto.PiccRoundTrip | ntag424/src/crypto/sdm/picc.rs:20-80 | a blob opens to exactly what a tag sealed in it, in both modes and for all contents |
| SdmCrypto.BuildVector | ntag424/src/crypto/sdm/keys.rs:54-68 | the vector written at a moving offset holds what is mirrored, zero-filled |
| SdmCrypto.DeriveSdmKeys | ntag424/src/crypto/sdm/keys.rs:49-107 | which key is which, over vectors given byte by byte: C3 3C enciphers and 3C C3 authenticates; in LRP mode UK[0] authenticates and UK[1] enciphers |
| SdmCrypto.VectorsDistinct | ntag424/src/crypto/sdm/keys.rs:49-96 | different tags or counters have different session vectors, as have the two AES keys |
| SdmCrypto.SdmMacIs | ntag424/src/crypto/sdm/keys.rs:37-45 | every second byte of the CMAC under the MAC key |
| SdmCrypto.FileDataIs | ntag424/src/crypto/sdm/verifier.rs:543-594 | CBC from the enciphered counter and zeros, or LRICB from the counter, low byte first, and three zeros in twelve nibbles |
| SdmCrypto.FileDataRoundTrip | ntag424/src/crypto/sdm/verifier.rs:543-594 | file data opens to what was sealed, in both modes |
| SdmVerifier.ExtractPiccData | ntag424/src/crypto/sdm/verifier.rs:491-540 | identity data of all three sources, with the error of the first thing that is wrong |
| SdmVerifier.DecryptEncFileData | ntag424/src/crypto/sdm/verifier.rs:543-594 | decoded into one buffer and deciphered there |
| SdmVerifier.LongRange | ntag424/src/crypto/sdm/verifier.rs:543-570 | ranges of more than 513 characters are refused, ranges of up to 512 are deciphered |
| SdmVerifier.VerifyInner | ntag424/src/crypto/sdm/verifier.rs:439-488 | the steps in order compute the verdict, with the error of the first step that fails; `SdmVerifier.PlainCounterIs` and `SdmVerifier.BlobCounterIs` say which number the counter is |
| SdmVerifier.PlainCounterIs | ntag424/src/crypto/sdm/verifier.rs:511-527 | the counter of a plain mirror is the number that its six hex digits write, most significant first |
| SdmVerifier.BlobCounterIs | ntag424/src/crypto/sdm/verifier.rs:480-482 | the counter of a blob is b0 + 256 b1 + 65536 b2 of the three bytes behind tag byte and UID |
| SdmVerifier.Start | ntag424/src/crypto/sdm/verifier.rs:346-365 | the lowest configured source: one is there, and none before it |
| SdmVerifier.VerifyShifts | ntag424/src/crypto/sdm/verifier.rs:301-362 | the shifted verifier on a buffer that continues `s` bytes further on finds the same, and the same errors at positions `s` further on |
| SdmVerifier.ConstructedIsValid | ntag424/src/crypto/sdm/verifier.rs:147-190 | a verifier made from accepted settings passes `validate` |
| SdmVerifier.ShiftedIsValid | ntag424/src/crypto/sdm/verifier.rs:201-291 | and still does after `with_offset` |
| SdmVerifier.ValidExactly | ntag424/src/crypto/sdm/verifier.rs:201-291 | `validate` accepts a verifier exactly when the constructor makes it of some accepted settings |
| SdmVerifier.ValidIsOrdered | ntag424/src/crypto/sdm/verifier.rs:201-291 | a verifier that passes `validate` takes its slices in order |
| SdmTag.RoundTrip | ntag424/src/crypto/sdm/verifier.rs:439-630 | for every accepted configuration that does not straddle, any UID, counter, tamper status, randomness and file: the verifier takes out exactly what the tag put in, in both modes |
| SdmTag.RoundTripsExactly | ntag424/src/types/file_settings/sdm.rs:610-622 | the round trip holds for every tap exactly when the tamper status does not start on the byte before the encrypted range |
| SdmTag.StraddledTamper | ntag424/src/crypto/sdm/verifier.rs:596-630 | in that case everything else is read as it was put in, the first tamper byte too, and in the place of the second the first character of the ciphertext, a hex digit |
| SdmTag.StraddlingIsAccepted | ntag424/src/types/file_settings/sdm.rs:610-622 | settings that do so and are accepted |
| Verification.Verify | ntag424/src/high_level/verification.rs:139-199 | accepts exactly what reads and, with a counter, exceeds the stored one; stores the counter exactly then; a refusal leaves the store alone |
| Verification.VerifyAll | ntag424/src/high_level/verification.rs:139-199 | over any run, accepted counters of a UID strictly increase and the store holds the last accepted one |
| Verification.NoReplay | ntag424/src/high_level/verification.rs:180-193 | a tap with a counter is accepted at most once, however often it is presented |
| Utf8.AsciiReplaced | ntag424/src/sdm_url.rs:1037-1040 | ASCII in the place of ASCII keeps a string well-formed UTF-8 |
| Utf8.CharsAreScalars | ntag424/src/sdm_url.rs:1037-1040 | the characters are exactly the encodings of the scalar values (RFC 3629 section 3) |
| Template.BytesEqAt | ntag424/src/sdm_url.rs:1056-1068 | the comparison loop decides whether the needle stands there |
| Template.ParsePlaceholder | ntag424/src/sdm_url.rs:1093-1137 | the placeholder that the name before the first closing brace spells, over the nine names written out: `uid`, `ctr`, `tt`, `mac`, `picc` and the four with a content; no brace is unterminated, any other name invalid with its range |
| Template.NdefBytes.Push | ntag424/src/sdm_url.rs:245-255 | appends one byte, or reports a full buffer and changes nothing |
| Template.NdefBytes.ExtendBytes | ntag424/src/sdm_url.rs:269-284 | appends the slice, or reports a full buffer |
| Template.NdefBytes.PushZeroes | ntag424/src/sdm_url.rs:257-267 | appends that many zero characters, or reports a full buffer |
| Template.Compiler.TakeInside | ntag424/src/sdm_url.rs:698-757 | one turn of the loop inside brackets takes one token and has its effect or its error |
| Template.Compiler.TakeOutside | ntag424/src/sdm_url.rs:759-844 | one turn of the loop outside brackets |
| Template.ParseTemplate | ntag424/src/sdm_url.rs:677-909 | the loop computes the specified result on every UTF-8 template and never reads past it |
| TemplateLayout.AcceptsExactly | ntag424/src/sdm_url.rs:677-909 | a template is accepted exactly when its tokens are well formed and fit; then the output is the concatenation of their renderings and every offset 7 plus the length rendered before |
| TemplateLayout.CompiledExactly | ntag424/src/sdm_url.rs:696-851 | the same for every prefix: which tokens may follow which, and what has been recorded |
| TemplateLayout.FieldsAreZero | ntag424/src/sdm_url.rs:838-841 | every placeholder comes out as zeros within the output |
| TemplateLayout.FieldsApart | ntag424/src/sdm_url.rs:804-841 | no two placeholders share a byte |
| TemplateLayout.EncApart | ntag424/src/sdm_url.rs:698-757 | the encrypted range is zeros, and every placeholder keeps outside, except a `{tt}` wholly inside |
| Escaping.LexedExactly | ntag424/src/sdm_url.rs:696-851 | the grammar: a template has these tokens exactly when it is them, written one behind the other, with backslashes before reserved characters and no bracket behind a single one |
| NdefUri.DetectUriPrefix | ntag424/src/sdm_url.rs:1044-1054 | the first code whose text, written out for all 35, the URL starts with, or 0; 0x04 exactly for `https://` not followed by `www.` |
| NdefUri.TableAbbreviates | ntag424/src/sdm_url.rs:931-967 | every entry of the table is the text of its code in the URI Record Type Definition |
| NdefUri.HttpsExactly | ntag424/src/sdm_url.rs:1044-1054 | code 0x04 is chosen exactly for `https://` not followed by `www.` |
| NdefUri.ParseNdefUri | ntag424/src/sdm_url.rs:993-1042 | every well-formed record reads as the text of its code, written out for all of them, and its content; the first error otherwise; panics when NLEN cuts the prefix code off, and without `alloc` when the URL has more than 256 bytes |
| NdefUri.LongestMatchExactly | ntag424/src/sdm_url.rs:1044-1054 | the documented longest match, and exactly where the code departs from it: the entry found is the longest one that the URL starts with if and only if the URL starts with neither `urn:epc:` nor `urn:nfc:` |
| NdefUri.OnlyUrnHides | ntag424/src/sdm_url.rs:931-967 | the one entry of the table that stands before longer ones which start with it is `urn:` |
| NdefUri.NfcUrnIsHidden | ntag424/src/sdm_url.rs:931-967 | `urn:nfc:sn` gets the entry `urn:` although `urn:nfc:` is in the table |
| NdefUri.Build | ntag424/src/sdm_url.rs:508-670 | computes the plan: record, settings, prefix, and the errors in their order; the record is well formed, its byte 6 is the first code whose text the URL starts with, and the MAC and PICC key numbers are those of the options |
| NdefUri.RecordIs | ntag424/src/sdm_url.rs:530-562 | the seven bytes in front of the content |
| NdefUri.BuildsExactly | ntag424/src/sdm_url.rs:508-670 | a template builds exactly when its tokens are well formed, the record fits buffer and file, and the encrypted range fits the MAC window and the tamper status |
| NdefUri.BuiltFromTokens | ntag424/src/sdm_url.rs:508-562 | NLEN, payload length and prefix code are consistent with the content, and the file size is kept |
| NdefUri.SettingsExactly | ntag424/src/sdm_url.rs:564-670 | of the checks on settings a well-formed template can only fail those two, and its tamper status never straddles |
| NdefUri.RecordParses | ntag424/src/sdm_url.rs:993-1042 | a record parses to its prefix and content, whatever follows it in the file: always with `alloc`, and without it exactly when both have at most 256 bytes together, else it panics |
| NdefUri.BuiltParsesBack | ntag424/src/sdm_url.rs:993-1042 | building and parsing back gives the URL's prefix and the rendered body, without `alloc` exactly when they have at most 256 bytes |
| Escaping.EscapeRoundTrip | ntag424/src/sdm_url.rs:780-791 | for every string and choice of placeholders: it parses back to the string and as many zeros as the mirrors are long, without `alloc` exactly when these have at most 256 bytes |
| Escaping.EscapedBuilds | ntag424/src/sdm_url.rs:508-670 | for every string and every choice of placeholders, spelled by the names written out: the string escaped and the placeholders behind it build exactly when the record fits 256 bytes and the file, and then the settings mirror what each name spells at the offset where it stands: `{picc:uid}` plans an encrypted blob of the UID only, and so for the other names |
| Escaping.LongUrlPanics | ntag424/src/sdm_url.rs:971-974 | one that builds and whose record the build without `alloc` panics on |
| EndToEnd.RenderingChanges | ntag424/src/crypto/sdm/verifier.rs:439-630 | a tap changes mirrors only, and leaves ASCII there |
| EndToEnd.TappedParses | ntag424/src/sdm_url.rs:993-1042 | a tapped record still parses, to the URL with the tag's bytes in it, without `alloc` exactly when the URL has at most 256 bytes |
| EndToEnd.UrlVerifierExactly | ntag424/src/high_level/provision.rs:230-249 | a template that builds has a URL verifier exactly when its highest position plus prefix length is at most 262, and always behind a prefix of at most 8 characters |
| EndToEnd.LongUrlHasNoVerifier | ntag424/src/crypto/sdm/verifier.rs:301-342 | one that builds and has none: `{tt}` at the end of a long `https://www.` URL |
| EndToEnd.TemplateToVerdict | ntag424/src/high_level/provision.rs:230-249 | template to record, tap, URL, shifted verifier: it takes out exactly what the tag put in, for every template that builds and whose highest position plus prefix length is at most 262 |
| EndToEnd.ForgedRecord | ntag424/src/high_level/provision.rs:230-249 | for any bytes behind a planned record's header, forged or not: the URL verifier on the parsed URL and the file verifier on the record agree, verdicts and errors, with positions moved by the shift |
| EndToEnd.ProvisionedTapReads | ntag424/src/high_level/verification.rs:139-199 | the server that holds the master key reads a provisioned tag's own UID, counter (as the number the tag counts, mirrored in hex digits most significant first or sealed low byte first) and tamper status off the tapped URL, for every template that builds, mirrors the UID and has a URL verifier |

## Left out

- AES-128 rounds and P-224 ECDSA originality: library code; AES is an abstract keyed permutation.
- Transport I/O, async, PC/SC: one exchange is a step of `Transport.Link`, which chooses what is lost or forged.
- Randomness of the host: the caller's `rnd_a` is a parameter, as in the code.
- Single-APDU getters, status-word tables, versions, `Configuration`, access-right nibbles: one-branch facts.
- File settings on the wire, and with them the `change_file_settings` steps and file rewrites of `provision` and `reset`: the model keeps their key sequences.
- `decrypt_full_fixed` and the commands that use it: the same steps as a FULL read of one chunk.
- The choice of mode in `read_file` and `write_file`: each mode is proved for files of that mode.
- Read counter limits and retrieval rights of SDM settings: they do not take part in verification.
- Short file identifiers of the ISO commands: the session never passes one.
- Constant-time comparison, zeroisation, secrecy: not functional correctness.
- The tag model ends a session on every error it reports to a native command, and answers reads and writes as NT4H2421Gx section 10 has it; a tag that behaves otherwise is not part of this model.
- Lockstep.Run: goes on only while the host names the tag's own keys and the communication modes of its files; what a wrong key leads to is left to the single operations, because nothing excludes that a permutation makes two keys agree. Where a MAC fits by accident the run ends, because nothing excludes collisions.
- Provision.Reset: leaves out the file settings and file rewrites between authentication and keys, which touch no key.
- NdefUri.ParsedUri: requires an NLEN of at least 5 in an otherwise well-formed header; `NdefUri.Parse` and `NdefUri.ParseNdefUri` have the panic that the code meets below that.
- SdmVerifier.VerifyShifts: shifts are those that can be negated in 32 bits; the code answers `None` to the one that cannot.
