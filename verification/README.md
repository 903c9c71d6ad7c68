# A verified model of the WhatsApp Web client core

This project models the parts of the client whose correctness is hardest to see from one function
at a time, and proves what they promise over all inputs and all runs:

- **Signal session** (`SignalSession`, `SignalRuns`, `SignalKeys`, `SignalWire`): X3DH-like agreement, the
  symmetric chain with its bounded store of skipped keys, whole runs over a network that drops, reorders,
  duplicates and corrupts messages, and every key of a run down to HMAC.
- **Key store** (`KeyStoreValues`, `KeyStoreDisk`, `KeyStoreRefinement`): the journaled file store, step
  by step with a crash possible between any two file operations, and its agreement with the in-memory
  store over runs with any number of crashes.
- **Noise** (`NoiseHandshake`, `NoiseStandard`, `WaNoise`, `NoiseTransport`): the XX handshake, its
  agreement with the token lists of the standard, its protobuf wire form, framing, and the transport
  session over arbitrary chunks.
- **Codecs** (`WABinary`, `WABinaryLaws`, `Protobuf`, `MessageContent`, `WireBytes`): binary node trees,
  varints and fields, message contents, and the wire formats byte by byte.
- **Pipeline** (`Pipeline`): texts from protobuf through Signal, node, Noise and frames, and back.
- **Controllers** (`Pairing`, `PairingRuns`, `Reconnect`, `Dedup`, `PreKeys`): event- and timer-driven
  state machines over every interleaving.
- **HKDF** (`Hkdf`): the buffer loop against section 2 of RFC 5869.

Code that the program runs step by step (loops, buffers filled in place, objects with changing
fields) is modelled as methods and classes. Each such method is proved equal to a function of its
inputs or of the old state, and the lemmas are about those functions, so they hold of the methods.

## Assumptions

- Cryptographic primitives are arbitrary functions (`Crypto.Primitives`). All that is assumed is
  `Crypto.Lawful`: output lengths, Diffie-Hellman commutes, decryption undoes encryption under the
  same key, nonce and associated data. `LawsAreConsistent` shows that some primitives satisfy it.
- The runs of `SignalRuns` allow any message to be delivered at any time. The only limit on the
  adversary is `NoForgedHeader`: a message under a header key that the peer never used does not pass
  authenticated decryption.
- Random values, ephemeral keys, key pairs, clock readings, new request ids (never empty), jitter and the
  success of a send are parameters.
- The key store runs alone: one `set` or recovery at a time, a finished recovery before the next
  `set`, no I/O error other than a crash.

## Where the code does not do what it says

- The pairing controller says that only the attempt in flight may resolve a flow
  (`src/Socket/pairing-controller.ts:72`, `src/Socket/pairing-controller.ts:163`). While a retry waits
  after a failed send no attempt is in flight, and the id of an expired attempt is accepted:
  `ExpiredAttemptAccepted` is a run, `InFlightExactly` says in which states the promise is kept, and
  `PayloadSettlesExactly` gives the rule the code follows.
- Two keys can share a file of the key store. `SameFileExactly` says which pairs do, any such pair
  breaks the agreement with the in-memory store (`SharedFileBreaksAgreement`), and `AgreementExactly`
  shows distinct files to be necessary and sufficient.
- A stored object that looks like a stored buffer does not come back: `ReviveSerialized` and
  `OwnKeyAgreesExactly` are equivalences.
- The Diffie-Hellman step restarts the receive counter but keeps old skipped keys. The session
  invariant holds for the new chain exactly if every key still stored lies below the new message's
  counter (`NewHeaderExactly`); otherwise an old key shadows the new chain
  (`NewHeaderKeepsOldKeys`, with `SkippedKeyIgnoresHeader`). Honest runs never take the step.
- A plain text of 75 bytes starting with "XS1" is taken for an encrypted one by a receiver that has a
  session. `PlainTextArrives` covers every receiver: the text arrives unchanged exactly if the receiver
  has no session or the text is not of that form.
- Reconnects are bounded only if every grant is waited for: n closes without a wait are n grants
  (`UnwaitedClosesAllGranted`), and one grant that was not waited for can already end in too many
  (`UnwaitedGrantExceeds`). Without the discipline the bound holds exactly if no retry is allowed
  (`UnwaitedGrantsExceedExactly`).
- Two different messages can share a deduplication key: `KeysCollideExactly` says which, and
  `KeysDistinct` that none do if all ids, or all addresses, are free of colons.
- The first Noise message is hashed without the empty payload that section 5.3 of revision 34 appends
  to every message: `WriteMessage1IsStandard`. Both ends do so.
- A later Noise message that ends behind its tokens is accepted with an empty payload, where the standard
  would find the authentication tag missing: `ReadMessageAIsStandard` and `ReadMessageBIsStandard` say
  exactly which messages are accepted.
- For empty input the Noise key derivation uses 32 zero bytes where the Noise specification
  (section 4.3 of revision 34) uses an empty string. Both ends do so, and agreement holds.

## Model

| member | source | states |
|---|---|---|
| Hkdf.Compute | src/Utils/crypto.ts:57-79 | the buffer-filling loop returns the first `length` bytes of the block stream, for every length |
| Hkdf.DeriveIsRfc | src/Utils/crypto.ts:57-79 | for every length up to 255*32, byte k of the output is byte k mod 32 of T(k/32+1) of section 2.3 of RFC 5869, under the extract step of section 2.2 written out: HMAC under the salt, or under 32 zero bytes without one |
| Hkdf.ShorterIsPrefix | src/Utils/crypto.ts:66-78 | a shorter request is a prefix of a longer one |
| Hkdf.WithHkdfIsLawful | src/Utils/crypto.ts:57-79 | the derivation meets the length law that the session code relies on |
| SignalSession.KdfRoot | src/Signal/session.ts:76-79 | new root and chain key are the two halves of one 64-byte derivation |
| SignalSession.InitialSession | src/Signal/session.ts:176-189 | root and chain key are the two halves of the master secret |
| SignalSession.SkipMessageKeys | src/Signal/session.ts:246-262 | the loop agrees with the recursive description of skipping, including when it gives up |
| SignalSession.SignalDecrypt | src/Signal/session.ts:264-319 | the step-by-step decryption succeeds exactly when, and with exactly the session and plaintext that, the functional description says |
| SignalSession.SessionManager.EncryptFor | src/Signal/session.ts:394-400 | an unknown address fails and changes nothing; otherwise exactly that session advances |
| SignalSession.SessionManager.DecryptFrom | src/Signal/session.ts:402-408 | any failed decryption leaves every stored session unchanged |
| SignalRuns.SkipKeysExact | src/Signal/session.ts:246-262 | skipping from r to i succeeds iff i = r or the store then holds at most MAX_SKIP + 1 keys, and stores exactly the keys r..i-1 of the ideal chain |
| SignalRuns.ReceiveKeepsReceiver | src/Signal/session.ts:264-319 | delivering any message keeps: chain key is the r-fold derivation, skipped keys are the keys at their indices and lie below r, store bounded, accepted counters distinct |
| SignalRuns.StepKeepsInv | src/Signal/session.ts:226-319 | every event of either party keeps the invariant of both directions |
| SignalRuns.RunKeepsInv | src/Signal/session.ts:226-319 | the invariant holds after every admissible run |
| SignalRuns.RunKeepsHeaders | src/Signal/session.ts:226-244 | header keys never change in any run, so honest messages never take the Diffie-Hellman branch |
| SignalRuns.HonestAcceptance | src/Signal/session.ts:264-319 | an honest message i is accepted iff i is a skipped index, or i >= r and skipped + (i - r) <= MAX_SKIP + 1; it yields the sent plaintext and carries the known header key |
| SignalRuns.StoreFillsExactly | src/Signal/session.ts:54-262 | the edge of the window in numbers: to a fresh receiver message 101 is accepted and fills the store with 101 keys, message 102 is refused |
| SignalRuns.NoReplay | src/Signal/session.ts:296-298 | no message with an accepted counter is ever accepted again |
| SignalRuns.InvGivesSafety | src/Signal/session.ts:264-319 | from the invariant: no counter twice, honest messages give the sent plaintext, at most 101 skipped keys |
| SignalRuns.SkippedKeyIgnoresHeader | src/Signal/session.ts:268-281 | supporting fact: a stored skipped key decides alone, whatever the header key says |
| SignalRuns.NewHeaderKeepsOldKeys | src/Signal/session.ts:286-318 | after the Diffie-Hellman step an old skipped key at or above the restarted counter is still there, unchanged |
| SignalRuns.NewHeaderExactly | src/Signal/session.ts:286-318 | the step restores the session invariant, for the new chain, iff every key still stored lies below the counter of the message that brought the new header key |
| SignalRuns.DecryptChangesSession | src/Signal/session.ts:264-319 | a successful decryption never leaves the session as it was |
| SignalRuns.SessionsAgree | src/Signal/session.ts:161-224 | initiator and responder derive equal root and chain keys and know each other's header key |
| SignalRuns.RatchetSafety | src/Signal/session.ts:161-319 | for every agreement and every admissible run, in both directions: no counter decrypted twice, accepted honest messages give the sent plaintext, bounded store, exact acceptance window |
| SignalKeys.EncryptIsHmac | src/Signal/session.ts:81-244 | one encryption in full: counter, header key, iv and the plaintext sealed under HMAC-derived message key; the chain key moves on by its own derivation and nothing else changes |
| SignalKeys.ChainIsHmac | src/Signal/session.ts:81-85 | the n-th chain and message keys as iterated HMACs under the labels "WhisperChain" and "WhisperMessageKeys", written as bytes |
| SignalKeys.NthMessageIsHmac | src/Signal/session.ts:226-244 | in any run the i-th message is sealed under the message key i steps down the chain |
| SignalKeys.DecryptIsHmac | src/Signal/session.ts:283-319 | one decryption by the chain in full: root key, chain and counter it starts from, also after the Diffie-Hellman step under "WhisperRatchet", how far it walks, and under which key and from which bytes it opens |
| SignalKeys.DecryptBySkippedKey | src/Signal/session.ts:268-281 | a stored key is used iff it opens the ciphertext, and is then gone |
| SignalKeys.InitiatorIsHmac | src/Signal/session.ts:161-190 | the whole fresh session of the initiator: four agreements in order, "WhisperText", both chains on the second half, its own and the other header key |
| SignalKeys.ResponderIsHmac | src/Signal/session.ts:192-224 | the same for the responder, from the other halves |
| SignalWire.EncodeSignalWire | src/Signal/wire.ts:16-25 | the header written in place is magic, version, 32-bit counter and key; a key of another length is refused |
| SignalWire.WireRoundTripExactly | src/Signal/wire.ts:16-39 | the envelope gives the message back iff its counter fits 32 bits |
| WireBytes.EnvelopeLayout | src/Signal/wire.ts:16-51 | every byte of an envelope: the zero in front, "KXS1", version, counter, header key, ciphertext |
| WireBytes.EnvelopeReadExactly | src/Signal/wire.ts:27-57 | exactly which bytes are accepted as an envelope, whatever their version, and what is read from them |
| KeyStoreValues.ReviveSerialized | src/Auth/key-store.ts:29-55 | revive undoes serialize iff no object in the value is tagged as a buffer |
| KeyStoreValues.TaggedRevivesExactly | src/Auth/key-store.ts:43-48 | an object tagged as a buffer revives to the bytes of its text, and not at all without one |
| KeyStoreValues.KeyFileIsOrdinary | src/Auth/key-store.ts:24-27 | a key file is never the journal and never a scratch file |
| KeyStoreValues.SameFileExactly | src/Auth/key-store.ts:24-27 | exactly which two keys share a file |
| KeyStoreValues.SanitizeExactly | src/Auth/key-store.ts:24-27 | letters, digits and `._-@` are kept, each other character becomes an underscore; an id is kept iff it has only such characters |
| KeyStoreValues.FileNamesExactly | src/Auth/key-store.ts:17-70 | the names of key files, scratch files and the journal, spelled out for every type |
| KeyStoreValues.KeptKeysDiffer | src/Auth/key-store.ts:24-27 | for kept ids two keys share a file iff they are equal, or a sender key id spells out the rest of a longer type name |
| KeyStoreValues.PreKeyFilesDiffer | src/Auth/key-store.ts:24-27 | two pre-keys with decimal ids share a file iff the ids are equal |
| KeyStoreDisk.FileStore.AtomicWrite | src/Auth/key-store.ts:17-22 | create, fill and rename, cut short wherever the process dies |
| KeyStoreDisk.FileStore.ApplyEntries | src/Auth/key-store.ts:142-149 | the entry loop, cut short wherever the process dies |
| KeyStoreDisk.FileStore.BuildJournal | src/Auth/key-store.ts:119-135 | one entry per change, in order, a null value becoming a deletion |
| KeyStoreDisk.FileStore.Set | src/Auth/key-store.ts:116-152 | a batch does journal, entries, unlink in this order, up to any crash point |
| KeyStoreDisk.FileStore.RecoverJournal | src/Auth/key-store.ts:74-94 | recovery replays a readable journal and removes it, up to any crash point |
| KeyStoreDisk.FileStore.Get | src/Auth/key-store.ts:100-114 | the ids whose file parses and revives, with their values, and no others |
| KeyStoreDisk.AtomicWritePrefix | src/Auth/key-store.ts:17-22 | an interrupted atomic write shows nothing, a finished one exactly its content |
| KeyStoreDisk.ReplayAfterPrefix | src/Auth/key-store.ts:81-88 | replaying the whole journal after any applied prefix gives the same files |
| KeyStoreDisk.SetPrefix | src/Auth/key-store.ts:116-152 | a batch cut anywhere shows the old files, a pending journal, or the whole batch |
| KeyStoreDisk.RecoveriesConverge | src/Auth/key-store.ts:74-94 | any number of recoveries cut anywhere keep the disk pending or settled on the whole batch |
| KeyStoreDisk.CrashAtomicity | src/Auth/key-store.ts:74-152 | crash anywhere in a batch, crashes anywhere in any number of recoveries, one full recovery: the files are as before iff the journal was not yet in place, and otherwise as after the whole batch |
| KeyStoreDisk.GetExactly | src/Auth/key-store.ts:100-114 | what is answered for each id, by what its file holds; nothing for a missing, torn or unrevivable one |
| KeyStoreDisk.UnreadableJournalStays | src/Auth/key-store.ts:74-94 | recovery leaves an unreadable journal alone |
| KeyStoreRefinement.MemoryStore.Get | src/Signal/store.ts:7-14 | the asked ids that are present, with their values |
| KeyStoreRefinement.MemoryStore.Set | src/Signal/store.ts:15-28 | all changes in order, null values deleting |
| KeyStoreRefinement.BatchKeepsCoupling | src/Auth/key-store.ts:116-152 | a completed batch keeps every key's file equal to what memory holds for it |
| KeyStoreRefinement.StoresAgree | src/Auth/key-store.ts:70-153 | over every run of calls on keys with distinct files and untagged values, any number of batches crashing anywhere and recovered through further crashes, the file store answers as the in-memory store that takes each crashing batch whole or not at all |
| KeyStoreRefinement.FreshStoresAgree | src/Auth/key-store.ts:70-153 | the same from an empty folder and an empty map, with nothing else assumed |
| KeyStoreRefinement.StoresAgreeAfterCrash | src/Auth/key-store.ts:74-152 | after a crash and recovery the file store answers all later calls as memory does, with the whole batch or none of it |
| KeyStoreRefinement.SharedFileBreaksAgreement | src/Auth/key-store.ts:24-27 | any two different keys on one file break the agreement, with every non-null untagged value |
| KeyStoreRefinement.AgreementExactly | src/Auth/key-store.ts:24-153 | from empty stores: the stores agree over all runs on a set of keys, crashes included, iff no two of these keys share a file |
| KeyStoreRefinement.OrdinaryKeysAgree | src/Auth/key-store.ts:24-153 | the stores agree over all runs on keys with kept ids, without sender keys that spell out a longer type name; nothing is assumed of their files |
| KeyStoreRefinement.PreKeysStayApart | src/Auth/key-store.ts:24-153 | the file store finds a pre-key under its own number, as it was written, and under no other |
| KeyStoreRefinement.StoredBytes | src/Auth/key-store.ts:29-32 | a stored byte value lies on disk as an object tagged "buffer" with its base64 text |
| KeyStoreRefinement.OwnKeyAgreesExactly | src/Auth/key-store.ts:29-55 | a value written and read back under its own key is answered alike by both stores iff nothing in it is tagged as a buffer |
| KeyStoreRefinement.SenderKeyShadowsMemory | src/Auth/key-store.ts:24-27 | the sender key "memory-x" and the sender key memory "x" are such a pair |
| NoiseHandshake.Derive2IsRfc | src/Noise/handshake.ts:71-84 | the two outputs are the first 64 bytes of RFC 5869 with the chaining key as salt, empty input replaced by 32 zero bytes |
| NoiseHandshake.Nonce | src/Noise/handshake.ts:127-132 | the buffer written in place is four zero bytes and the 64-bit counter |
| NoiseHandshake.CounterRoundTrip | src/Noise/handshake.ts:127-132 | the counter can be read back, so nonces do not repeat below 2^64 |
| NoiseHandshake.Handshake.constructor | src/Noise/handshake.ts:184-236 | the state of a new party |
| NoiseHandshake.Handshake.DoMixDh | src/Noise/handshake.ts:90-124 | chaining key, key and nonce change together, or nothing on bad key lengths |
| NoiseHandshake.Handshake.DoEncryptAndHash | src/Noise/handshake.ts:134-149 | whole new state and ciphertext |
| NoiseHandshake.Handshake.DoDecryptAndHash | src/Noise/handshake.ts:151-170 | whole new state and plaintext; a failure changes nothing |
| NoiseHandshake.Handshake.DoWriteMessage1 | src/Noise/handshake.ts:240-247 | whole new state and message, or the error |
| NoiseHandshake.Handshake.DoReadMessage1 | src/Noise/handshake.ts:309-320 | whole new state, or the error |
| NoiseHandshake.Handshake.DoWriteMessageA | src/Noise/handshake.ts:323-340 | whole new state and message, also where an error leaves it half-way |
| NoiseHandshake.Handshake.DoReadMessageA | src/Noise/handshake.ts:252-285 | whole new state and payload, also where an error leaves it half-way |
| NoiseHandshake.Handshake.DoWriteMessageB | src/Noise/handshake.ts:290-305 | whole new state and message, also where an error leaves it half-way |
| NoiseHandshake.Handshake.DoReadMessageB | src/Noise/handshake.ts:343-367 | whole new state and payload, also where an error leaves it half-way |
| NoiseHandshake.DecryptUndoesEncrypt | src/Noise/handshake.ts:134-170 | from equal states, one side reads what the other wrote and they stay equal |
| NoiseHandshake.MessageAAgrees | src/Noise/handshake.ts:252-340 | message A carries the payload and static key across and leaves equal states |
| NoiseHandshake.MessageBAgrees | src/Noise/handshake.ts:290-367 | message B carries the payload and static key across and leaves equal states |
| NoiseHandshake.XXAgreement | src/Noise/handshake.ts:240-382 | after any honest run with payloads of any length: equal hash and chaining key, each learns the other's static key and payload; the first 32 bytes derived from the chaining key are what the initiator sends and the responder reads under, the next 32 the other way round |
| NoiseStandard.StartIsStandard | src/Noise/handshake.ts:173-236 | a new party has the symmetric state of section 5.2: the protocol name as bytes, padded, and the prologue hashed behind it |
| NoiseStandard.NonceIsStandard | src/Noise/handshake.ts:127-132 | the nonce byte by byte |
| NoiseStandard.MixKeyIsStandard | src/Noise/handshake.ts:90-95 | the first derived output becomes the chaining key, the second the cipher key, and the nonce restarts at 0 |
| NoiseStandard.WriteMessage1IsStandard | src/Noise/handshake.ts:240-247 | the first message is the token list "e", without a payload |
| NoiseStandard.ReadMessage1IsStandard | src/Noise/handshake.ts:309-320 | reading it, refused exactly when too short |
| NoiseStandard.WriteMessageAIsStandard | src/Noise/handshake.ts:323-340 | the responder's message is the token list "e, ee, s, es" of section 7.5 and the payload, byte for byte, with its whole new state; refused exactly when a key is missing or of wrong length |
| NoiseStandard.ReadMessageAIsStandard | src/Noise/handshake.ts:252-285 | reading it: exactly which messages are accepted, and the state and payload then |
| NoiseStandard.WriteMessageBIsStandard | src/Noise/handshake.ts:290-305 | the initiator's last message is the token list "s, se" and the payload |
| NoiseStandard.ReadMessageBIsStandard | src/Noise/handshake.ts:343-367 | reading it, likewise |
| NoiseStandard.OutOfTurn | src/Noise/handshake.ts:240-370 | in the wrong role or at the wrong step every message function fails and changes nothing, and the split fails |
| NoiseStandard.WriteErrorLeaves | src/Noise/handshake.ts:290-340 | a failing write leaves the state behind the tokens it had done |
| NoiseStandard.ReadErrorLeaves | src/Noise/handshake.ts:252-285 | a failing read leaves the state and keys behind the tokens it had read |
| NoiseStandard.SplitExactly | src/Noise/handshake.ts:370-383 | which derived key each role sends and reads under, nonces from 0, only after the last step |
| WaNoise.ClientHashSequence | src/Noise/wa-noise.ts:140-169 | supporting fact: chaining key is the padded protocol name; the hash mixes header, static key and ephemeral key, each once and in this order; the frame starts with the header |
| WaNoise.StartWaNoiseHandshake | src/Noise/wa-noise.ts:140-169 | state and first frame of a client, for keys of any length; refused exactly when the hello is too large for a frame |
| WaNoise.HelloFits | src/Noise/wa-noise.ts:71-78 | with 32-byte keys the hello always fits a frame |
| WaNoise.ContinueWaNoiseHandshake | src/Noise/wa-noise.ts:178-228 | whole new state, finish frame and keys, or failure with the state it leaves |
| WaNoise.ServerHelloRoundTrip | src/Noise/wa-noise.ts:95-123 | a server hello parses back to the message A it was made of, with its 48-byte encrypted static |
| WaNoise.PairRoundTrip | src/Noise/wa-noise.ts:71-86 | client hello and client finish come back from their frame, with anything behind it, whenever they fit one |
| WaNoise.FinishFitsExactly | src/Noise/wa-noise.ts:80-86 | a client finish fits a frame iff its encrypted payload has at most MAX_FRAME - 60 bytes |
| WaNoise.WaAgreement | src/Noise/wa-noise.ts:95-228 | the handshake through the protobuf messages completes iff the finish payload has at most MAX_FRAME - 76 bytes, and then both sides agree on hash, chaining key, static keys and payloads; the client sends under the first derived key and the server under the second |
| WireBytes.HelloLayout | src/Noise/wa-noise.ts:71-169 | every byte of a client's first frame |
| WireBytes.FinishLayout | src/Noise/wa-noise.ts:80-86 | every byte of a client finish with a short payload |
| WireBytes.ServerHelloLayout | src/Noise/wa-noise.ts:95-123 | a short server hello, given as bytes, is understood as its three parts |
| WireBytes.ServerHelloExactly | src/Noise/wa-noise.ts:95-123 | exactly which server hellos are accepted, by the fields in them |
| NoiseTransport.EncodeFrame | src/WABinary/frame.ts:12-22 | the frame of a payload, refused exactly when longer than 0xffffff |
| NoiseTransport.DecodeEncodedFrame | src/WABinary/frame.ts:12-37 | a frame in front of any bytes is pulled off exactly |
| WireBytes.FrameLayout | src/WABinary/frame.ts:12-22 | three bytes of length, most significant first, then the payload |
| WireBytes.FrameReadExactly | src/WABinary/frame.ts:28-37 | a frame is found iff its length bytes and as many bytes as they say are there |
| NoiseTransport.NoiseSession.Seal | src/Noise/session.ts:34-38 | the sealed frame under the current nonce; the nonce is spent even when the frame is too large |
| NoiseTransport.NoiseSession.Open | src/Noise/session.ts:43-55 | all whole frames in order, whole new state, also on failure; afterwards no whole frame is left |
| NoiseTransport.DrainContinues | src/Noise/session.ts:43-55 | opening a longer buffer continues where opening its front stopped |
| NoiseTransport.BadFrameExactly | src/Noise/session.ts:43-55 | a frame shorter than a tag or not authentic fails the buffer, is used up and spends no nonce; any other gives its plaintext |
| NoiseTransport.ChunkingIndependence | src/Noise/session.ts:43-55 | two cuttings of the same bytes both fail, or give the same plaintexts and leftover; the read nonce is the same either way, and after a failure what one handed out is a front of what the other did |
| NoiseTransport.SealedStreamArrives | src/Noise/session.ts:34-55 | any cutting of sealed frames, with an unfinished one behind, yields what was sent in order |
| WABinary.Writer.WriteBlob | src/WABinary/encode.ts:55-83 | appends the length-prefixed bytes of a string or binary |
| WABinary.Writer.WriteJid | src/WABinary/encode.ts:85-97 | appends a pair split at the first at sign, or the plain string |
| WABinary.Writer.WriteListStart | src/WABinary/encode.ts:103-113 | appends the list header |
| WABinary.Writer.WriteNode | src/WABinary/encode.ts:115-146 | appends exactly the encoding of the tree, attributes and children by loops |
| WABinary.EncodeBinaryNode | src/WABinary/encode.ts:149-153 | the bytes of a tree |
| WABinary.BinaryReader.NextString | src/WABinary/decode.ts:126-129 | follows the string reader; the cursor stays inside the buffer on every input |
| WABinary.BinaryReader.NextToken | src/WABinary/decode.ts:74-124 | every token kind, including packed digits and dictionary indices; the cursor stays inside |
| WABinary.BinaryReader.UnpackDigits | src/WABinary/decode.ts:100-107 | the loop over packed bytes agrees with the recursive description of unpacking, on every input |
| WABinary.BinaryReader.NextNode | src/WABinary/decode.ts:140-184 | ends on every byte string with a node or an error, the cursor inside the buffer |
| WABinary.ReadNode | src/WABinary/decode.ts:140-184 | a node that is read moves the cursor forward and not past the end; mutual recursion over remaining bytes |
| WABinary.DecodeBinaryNode | src/WABinary/decode.ts:187-190 | decoding ends on every byte string |
| WABinaryLaws.BlobRoundTripExactly | src/WABinary/encode.ts:55-83 | a string survives iff its length is below 2^32 |
| WABinaryLaws.ListHeaderExactly | src/WABinary/encode.ts:103-113 | a list header survives iff the count fits 16 bits |
| WABinaryLaws.ValueAt | src/WABinary/encode.ts:85-126 | every attribute value comes back, packed as a JID or not |
| WABinaryLaws.UnpackExactly | src/WABinary/decode.ts:95-109 | packed digits unpack to the digit of every half byte within the announced size, in order, low halves of 15 left out |
| WABinaryLaws.DigitCountExactly | src/WABinary/decode.ts:100-107 | as many digits as announced come out iff there is no filler among them |
| WABinaryLaws.AttrsAt | src/WABinary/decode.ts:147-154 | distinct attributes come back in order |
| WABinaryLaws.NodeAt | src/WABinary/decode.ts:140-184 | an encoded tree anywhere in a buffer is read back with the cursor right behind it |
| WABinaryLaws.NodeRoundTrip | src/WABinary/decode.ts:140-190 | decoding an encoding followed by anything consumes exactly the encoding and restores the tree, strings becoming bytes |
| WABinaryLaws.PrefixFree | src/WABinary/encode.ts:115-153 | no encoding is a proper prefix of another, and equal encodings mean equal trees up to string contents |
| WABinaryLaws.ReencodeDecoded | src/WABinary/encode.ts:149-153 | encoding what was decoded gives the same bytes |
| WABinaryLaws.ReadNodeWellSized | src/WABinary/decode.ts:140-184 | whatever tree is read from a buffer of less than 2^32 / 6 bytes, the wire form can carry it |
| WABinaryLaws.DecodedReencodes | src/WABinary/decode.ts:140-190 | for every such buffer that decodes, encoding the tree and decoding again gives the same tree up to string contents |
| WireBytes.BlobLayout | src/WABinary/encode.ts:55-83 | the tags and length bytes of strings and binaries in each length class |
| WireBytes.ListLayout | src/WABinary/encode.ts:103-113 | the three list headers as bytes |
| WireBytes.ValueLayout | src/WABinary/encode.ts:85-126 | exactly which attribute values are packed as a pair, and where they are split |
| WireBytes.NodeLayout | src/WABinary/encode.ts:115-146 | small nodes of every kind as bytes |
| WireBytes.ListReadExactly | src/WABinary/decode.ts:67-72 | every list header that is read, and that no other is |
| WireBytes.BlobReadExactly | src/WABinary/decode.ts:76-87 | a string is read iff its length and as many bytes are there, for each tag |
| WireBytes.TokenReadExactly | src/WABinary/decode.ts:74-124 | every other string tag: empty string, pairs, decimal and dictionary tokens, and the tags that are refused |
| WireBytes.PackedReadExactly | src/WABinary/decode.ts:93-109 | packed digits: their count, their bytes and their digits |
| WireBytes.ContentReadExactly | src/WABinary/decode.ts:154-180 | contents by their first byte: nodes, bytes or text |
| WireBytes.SetAttrExactly | src/WABinary/decode.ts:147-152 | a repeated attribute keeps its place and takes the last value |
| Protobuf.WriteVarint | src/WAProto/protobuf.ts:100-109 | the loop writes the varint of its value |
| Protobuf.ReadVarintAt | src/WAProto/protobuf.ts:13-25 | the 32-bit loop, with its or-ed bits, wrapping shift count and length limit |
| Protobuf.ReadBigVarintAt | src/WAProto/protobuf.ts:27-38 | the unbounded loop |
| Protobuf.ReadFieldAt | src/WAProto/protobuf.ts:45-75 | one field of each wire type, slices stopping at the end of the buffer |
| Protobuf.ParseFields | src/WAProto/protobuf.ts:41-78 | the field loop ends on every input and agrees with field-by-field reading |
| Protobuf.FieldBytes | src/WAProto/protobuf.ts:80-86 | none iff no length-delimited field has the number |
| Protobuf.VarintRoundTrip | src/WAProto/protobuf.ts:13-109 | every 32-bit varint is read back from the front of any bytes |
| Protobuf.BigVarintRoundTrip | src/WAProto/protobuf.ts:27-141 | every varint is read back by the unbounded reader |
| Protobuf.ParseIsHomomorphic | src/WAProto/protobuf.ts:41-141 | encoded fields in front of any bytes are exactly the first fields parsed |
| Protobuf.ParseEncoded | src/WAProto/protobuf.ts:41-141 | a list of encoded fields parses to exactly that list |
| Protobuf.LookupEncoded | src/WAProto/protobuf.ts:80-86 | lookup in the parse finds the first encoded field of that number |
| WireBytes.VarintLayout | src/WAProto/protobuf.ts:100-109 | varints of up to three bytes, byte by byte |
| WireBytes.FieldReadExactly | src/WAProto/protobuf.ts:41-78 | one field of every wire type off the front of any bytes, slices cut at the end, the four other types refused |
| WireBytes.OverlongVarints | src/WAProto/protobuf.ts:13-25 | a sixth byte counts from bit 3, a seventh is refused, bits above 32 are cut |
| WireBytes.BrokenOffVarints | src/WAProto/protobuf.ts:13-38 | a varint that the input breaks off counts as far as it goes |
| MessageContent.ContentRoundTrip | src/WAProto/message.ts:16-94 | every content comes back, except that one kind is kept and a reaction loses its sender flag; anything else arrives as empty text |
| MessageContent.FirstKindWins | src/WAProto/message.ts:52-94 | a buffer with several contents gives one: conversation before extended text before reaction, the first field of each number |
| MessageContent.ReactionKeyExactly | src/WAProto/message.ts:67-87 | what is read of a reaction's key, field by field, and of its text |
| MessageContent.EmptyIsAbsent | src/WAProto/message.ts:16-42 | empty texts, addresses and ids are encoded as if they were absent |
| WireBytes.TextLayout | src/WAProto/message.ts:17-20 | a plain text as bytes |
| WireBytes.ExtendedLayout | src/WAProto/message.ts:21-25 | an extended text as bytes |
| WireBytes.ReactionLayout | src/WAProto/message.ts:26-42 | a reaction as bytes |
| WireBytes.BareKeyLayout | src/WAProto/message.ts:28-37 | a key with nothing but an id as bytes |
| WireBytes.UnknownBytesExactly | src/WAProto/message-codec.ts:28-47 | bytes that are no known message: legacy envelopes by type, other bytes as text iff none of the first 32 is a control character |
| MessageContent.LegacyRoundTrip | src/WAProto/message-codec.ts:17-47 | a text in the legacy envelope is still understood |
| Pipeline.BuildOutboundFrame | src/Messages/engine.ts:135-159 | with a session the envelope and the advanced session, without one the plain content; refused exactly when the header key is not 32 bytes |
| Pipeline.MessageNodeRoundTrip | src/Protocol/message-node.ts:17-40 | a message node and its body come back, and it is delivered under its address, id and participant, not as sent by the receiver |
| Pipeline.PayloadHandled | src/Messages/engine.ts:233-281 | any payload of up to MAX_FRAME bytes: dropped if no node can be read or it is no message; otherwise delivered under a non-empty "from", else "to", else nothing, with id, sender flag and participant by membership among the attributes, and with the content of each kind of node, envelopes decrypted iff there is a session |
| Pipeline.EncodedNodeHandled | src/Messages/engine.ts:233-281 | the same for every well-sized tree that was encoded, whose strings arrive as bytes |
| Pipeline.MessageNodeLayout | src/Protocol/message-node.ts:17-40 | the node of an outgoing message with its names as bytes |
| Pipeline.PlainDelivery | src/Messages/engine.ts:242-275 | without sessions the content arrives, as far as contents are carried, under the address, id and participant it was sent with |
| Pipeline.EncryptedDelivery | src/Messages/engine.ts:242-275 | with sessions in step and the message in the window the content arrives likewise, and the session handed on is the one after this message |
| Pipeline.EncryptedTextArrives | src/Messages/engine.ts:135-275 | a non-empty text through protobuf, Signal, node, seal and frames arrives unchanged under its address, id and participant, for any chunking and any other payloads around it, and the session advances by this message |
| Pipeline.AgreedSessionsCarryText | src/Messages/engine.ts:135-275 | the same, seal and frames included, from key agreement on, after any admissible run and in both directions |
| Pipeline.TextsInOrder | src/Messages/engine.ts:135-275 | a list of texts sent under one session after the other is delivered complete and in order, the receiver threading its session, and both sides end in step |
| Pipeline.ConversationArrives | src/Messages/engine.ts:135-275 | from key agreement, any admissible run and a completed handshake on: a list of texts sealed at one end of the link and cut in any way arrives at the other end in order, in either direction |
| Pipeline.PlainTextArrives | src/Messages/engine.ts:135-275 | a plain text, sealed and cut in any way, to a receiver with or without a session: it arrives unchanged iff there is no session or the text is not 75 bytes starting with "XS1"; otherwise it is decrypted as the message its bytes spell |
| Pipeline.PlainTextLooksWrapped | src/Messages/engine.ts:256-260 | the body of a plain text has the shape of an envelope iff the text is 75 bytes long and starts with "XS1" |
| Pipeline.PlainTextDelivery | src/Messages/engine.ts:252-275 | what every receiver makes of a plain text, in both cases |
| Pipeline.PlainTextUnchangedExactly | src/Messages/engine.ts:256-275 | that outcome is the unchanged text and session iff there is no session or the text is not of that form |
| Pairing.RetryDelays | src/Protocol/pairing.ts:302-305 | 500 ms doubled per attempt, 8 s from the fifth on |
| Pairing.WindowExactly | src/Socket/pairing-controller.ts:365-400 | how long the next attempt is held back, in milliseconds, after a send that worked and one that failed |
| Pairing.AttemptExactly | src/Socket/pairing-controller.ts:317-412 | every branch of an attempt with what it leaves behind, numbers written out |
| Pairing.RequestExactly | src/Socket/pairing-controller.ts:220-416 | exactly when a request starts a flow, its deadline, and its first request |
| Pairing.CancelExactly | src/Socket/pairing-controller.ts:119-127 | cancelling rejects the active flow with the reason and forgets its ids, or does nothing |
| Pairing.FormatExactly | src/Web/pairing.ts:21-27 | a code with a dash is kept, another is cleaned and, if eight characters are left, split four and four |
| Pairing.CleanOne | src/Web/pairing.ts:21-27 | what cleaning makes of each character |
| Pairing.CleanAppends | src/Web/pairing.ts:21-27 | cleaning works character by character |
| Pairing.PairingController.CleanupFlow | src/Socket/pairing-controller.ts:91-103 | timers cleared, exactly the flow's ids forgotten, the lock freed iff it was this flow's |
| Pairing.PairingController.SettleFlow | src/Socket/pairing-controller.ts:105-117 | whole new state; a settled flow is left alone |
| Pairing.PairingController.Attempt | src/Socket/pairing-controller.ts:317-412 | whole new state in each of its branches |
| Pairing.PairingController.Request | src/Socket/pairing-controller.ts:220-416 | a flow starts iff the request is not turned away |
| Pairing.PairingController.OnPayload | src/Socket/pairing-controller.ts:133-218 | whole new state for every parsed payload |
| Pairing.PairingController.OnOverallTimer | src/Socket/pairing-controller.ts:268-281 | whole new state when the overall timer fires |
| Pairing.PairingController.OnAttemptTimer | src/Socket/pairing-controller.ts:387-412 | whole new state when an attempt timer fires |
| Pairing.PairingController.Cancel | src/Socket/pairing-controller.ts:119-127 | whole new state on cancel |
| Pairing.PairingController.IsActiveIq | src/Socket/pairing-controller.ts:426-430 | true iff the id is that of the attempt in flight |
| Pairing.PairingController.IsBusy | src/Socket/pairing-controller.ts:425 | true iff a flow is active and unsettled |
| PairingRuns.StepKeepsInv | src/Socket/pairing-controller.ts:91-413 | every event keeps the invariant of flows, ids, timers and the log of requests |
| PairingRuns.ControllerSafety | src/Socket/pairing-controller.ts:91-413 | over every interleaving: at most one unsettled flow and it is the active one; ids known exactly for its requests; overall timer armed iff unsettled; at most maxAttempts requests, each later one after the window of the one before |
| PairingRuns.SettledForever | src/Socket/pairing-controller.ts:105-117 | a settled flow never changes and never sends again, in any continuation, so it settles at most once |
| PairingRuns.PayloadSettlesExactly | src/Socket/pairing-controller.ts:133-218 | a payload settles a flow iff its id was issued for the unsettled flow and no other attempt is in flight; otherwise nothing changes |
| PairingRuns.PayloadResultExactly | src/Socket/pairing-controller.ts:175-217 | a settled flow is resolved iff the payload carries a code, with that code kept or cleaned and split; an error code or nothing rejects it, each with its reason |
| PairingRuns.OverallTimeoutSettles | src/Socket/pairing-controller.ts:268-281 | when its overall timer fires an unsettled flow is rejected as timed out |
| PairingRuns.OverallTimerWaits | src/Socket/pairing-controller.ts:267-281 | before its deadline or unarmed, the overall timer does nothing |
| PairingRuns.ExpiredAttemptAccepted | src/Socket/pairing-controller.ts:170-180 | a run in which an expired attempt's id resolves the flow |
| PairingRuns.InFlightExactly | src/Socket/pairing-controller.ts:72-180 | in a reachable state only the attempt in flight can resolve iff there is one or no flow is active |
| Reconnect.ReconnectManager.DoBeginConnect | src/Socket/reconnect-manager.ts:92-98 | a new, higher generation |
| Reconnect.ReconnectManager.DoMarkOpen | src/Socket/reconnect-manager.ts:100-108 | resets attempts for the current generation only |
| Reconnect.ReconnectManager.DoOnClose | src/Socket/reconnect-manager.ts:110-160 | grants exactly for the current generation, not intended, not fatal, within the retries |
| Reconnect.ReconnectManager.StartWait | src/Socket/reconnect-manager.ts:162-165 | a new token overtakes earlier waits |
| Reconnect.ReconnectManager.EndWait | src/Socket/reconnect-manager.ts:166-171 | -1 iff cancelled or overtaken |
| Reconnect.DelaysGrow | src/Socket/reconnect.ts:24-35 | without jitter delays never shrink and stay at the cap |
| Reconnect.WaitExactly | src/Socket/reconnect.ts:24-35 | a wait is the base delay times two to the attempts so far, at most the cap; with jitter anything below that |
| Reconnect.CloseExactly | src/Socket/reconnect-manager.ts:110-160 | a close is granted iff it is current, not wanted, not after a cancel, no logout and not status 401 or 403, with attempts left; and the whole new state |
| Reconnect.ReconnectingMeansGranted | src/Socket/reconnect-manager.ts:92-177 | in every run, while the manager says it is reconnecting it was not cancelled and a reconnect was granted since the last open |
| Reconnect.BoundedRetries | src/Socket/reconnect-manager.ts:110-171 | in every run whose grants are waited for, at most maxRetries grants between two opens and no wait above the cap |
| Reconnect.UnwaitedGrantsExceedExactly | src/Socket/reconnect-manager.ts:140-171 | without the waits the bound on grants holds in all runs iff no retry is allowed |
| Reconnect.UnwaitedClosesAllGranted | src/Socket/reconnect-manager.ts:110-160 | from any state in which a close is granted, n closes without a wait are n grants |
| Reconnect.UnwaitedGrantExceeds | src/Socket/reconnect-manager.ts:110-171 | from every reachable state with a grant not yet waited for, some continuation without an open exceeds the bound |
| Reconnect.StaleEventsIgnored | src/Socket/reconnect-manager.ts:100-113 | supporting fact: a stale open or close changes nothing and is never granted |
| Reconnect.StaleEventsErased | src/Socket/reconnect-manager.ts:92-177 | stale opens and closes can be struck from any run without changing where it ends |
| Reconnect.CountersGrow | src/Socket/reconnect-manager.ts:92-177 | generations and tokens never go back over any run |
| Reconnect.CancelledWaitsFail | src/Socket/reconnect-manager.ts:162-177 | a wait pending at cancel returns -1 whatever happens before it ends |
| Reconnect.WaitReturnsExactly | src/Socket/reconnect-manager.ts:162-177 | over any run: a wait returns its delay iff no other wait and no cancel came in between and the manager was not cancelled before, or has begun to connect since; otherwise -1 |
| Reconnect.FlagExactly | src/Socket/reconnect-manager.ts:92-177 | what each event makes of the reconnecting flag |
| Dedup.MessageDeduper.DropExpired | src/Messages/dedup.ts:37-42 | exactly the expired entries go |
| Dedup.MessageDeduper.Check | src/Messages/dedup.ts:20-31 | whole new table and the verdict |
| Dedup.AcceptedExactly | src/Messages/dedup.ts:20-42 | a key is new iff none of the last maxSize acceptances is of it and still alive |
| Dedup.DedupWindow | src/Messages/dedup.ts:20-42 | over every run with a clock that does not go back: the table is the newest part of the time-sorted acceptances, never above maxSize, and two acceptances of a key are more than ttl apart or have maxSize others between them |
| Dedup.KeysCollideExactly | src/Messages/dedup.ts:15-17 | two messages share a key iff they are equal or the address of one continues, behind a colon, with what the id of the other starts with |
| Dedup.KeysDistinct | src/Messages/dedup.ts:15-17 | if all ids, or all addresses, are free of colons, different messages have different keys |
| Dedup.ForeignKeySuppresses | src/Messages/dedup.ts:15-31 | for every such pair, in a fresh window with room for an entry: the second is turned away at once as a duplicate of the first |
| PreKeys.PreKeyStore.GenerateAndStorePreKeys | src/Signal/prekeys.ts:18-44 | a batch of consecutive new ids |
| PreKeys.PreKeyStore.EnsurePreKeyPool | src/Signal/prekeys.ts:93-109 | the counting loop tops up unless the newest ids are all there |
| PreKeys.PreKeyStore.TakePreKey | src/Signal/prekeys.ts:111-120 | gives and removes a present key |
| PreKeys.GenerateExactly | src/Signal/prekeys.ts:18-44 | exactly the next `count` ids are added, nothing else changes |
| PreKeys.EnsureExactly | src/Signal/prekeys.ts:93-109 | the newest minCount ids are present afterwards iff the pool was full or the older of them were there |
| PreKeys.EnsureFillsSmallPools | src/Signal/prekeys.ts:93-109 | for minCount up to thirty the newest minCount ids are always present afterwards |
| PreKeys.TopUpExactly | src/Signal/prekeys.ts:93-109 | a pool is left as it is iff nothing is asked for or the newest minCount ids are all there; otherwise exactly thirty ids are added with their pairs |
| PreKeys.PoolSafety | src/Signal/prekeys.ts:18-120 | over every run from an empty store: ids in range, none issued or taken twice, exactly the issued and untaken ones stored, and every pair stored or handed out is the one made for its id |

## Left out

- UTF-8, base64 and JSON text: strings are byte sequences, JSON is a value tree, base64 a faithful pair of functions; a string that is not valid UTF-8 is not changed on decoding as it is in the original.
- KeyStoreValues.ReviveSerialized: numbers are reals (no NaN or infinity, which JSON turns into null), `undefined` fields do not occur, and a tagged object whose data is not text counts as an error also where the original would coerce an array.
- Object key order: attributes and fields keep insertion order; JavaScript's reordering of integer-like keys is not modelled.
- Key store: readers during a `set`, the queue of waiting `set` calls, `clear`, and the race with the recovery started on construction.
- MessageContent.LegacyRoundTrip: the printable-text fallback looks at the first 32 bytes where the original looks at 32 UTF-16 units.
- MessageContent.ContentRoundTrip: message kinds without an encoding of their own (images, protocol messages) all arrive as empty text, and a reaction loses its sender flag; nothing more can be said of them.
- Noise certificates, strict mode, and the third output of the key derivation, which no caller asks for.
- A Diffie-Hellman that rejects a low-order point: agreement is a total function on 32-byte keys.
- Handing leftover handshake bytes to the transport session: the connection code does not do it, and it is not part of this model.
- Pipeline.ConversationArrives: the texts cross one transport link; the hop between two clients, where a server opens and seals again, is not modelled.
- WABinary: a content that is a single node object (written as its string form by the original) has no counterpart; dictionary and packed-digit tokens are decoded but never written.
- Pairing flows are records indexed by identity, not separate objects, so aliasing of a flow by its timers is not captured; one clock reading serves a whole event; `send` does not call back into the controller.
- Reasons of rejected pairing requests are abbreviated; cleaning a code knows ASCII letters and white space only.
- Pairing payload parsing: the controller receives id, code and error as already parsed.
- Message engine: events, receipts, acknowledgements and the deduplication of emitted messages (Dedup covers the window itself).
- Reconnect: log reasons of decisions, and a negative or fractional base delay.
- Session serialization, `establishSessions` (the two init functions in one call), signed pre-key rotation and signatures, groups, contacts, media and login classification are not modelled.
