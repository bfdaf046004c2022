# Cryptonote support code in Dafny

A model of the parts of the repository on which money and messages depend: ring signatures and one-time keys, the
base58 addresses, variable-length integers, JSON and HTTP text, the streaming hashes and the stream cipher, the
chunked-body reader, the blocking queue, the cooperative event, lock and latch, and the sparse shuffle. Each module
is one component. Code that updates state step by step is a class or a loop, proved against a function that says
what the whole input means; the theorems are about those functions. Code that only composes operations is functions
and lemmas.

What holds of the code and what does not:

- **Signatures** (`Curve`, `RingSignature`, `Transcripts`, `OneTimeKeys`, `Cofactor`). The curve is an abstract
  group of which only the laws are used, with encodings of 32 bytes; `LawsHaveAModel` shows the laws are consistent.
  What is hashed is stated byte by byte: a scalar is the hash of the message and of every commitment at its place
  (`RingHashed`, `ChallengeHashed`) or of the derivation and the index (`ScalarHashed`), and different inputs are
  different bytes. Completeness holds for every ring, position, message and randomness, and the vectors accepted
  under the honest image are exactly those that the signer can make (`RingRange`). Two accepted signatures on one
  transcript give the exponent of every member whose challenges differ; its key and the image equal the multiples
  exactly when they have the prime order, and in any case up to a point of order eight, because the checks do not
  clear the cofactor. Signatures of one key have one image up to such a point, and byte for byte if and only if the
  images have the same part of order eight (`Linkable`). `TorsionKey` is an accepted key that no secret key belongs
  to, and `TwoImages` an accepted second image of one key.
- **Text** (`Varint`, `Base58`, `Json`, `JsonGrammar`, `Http`, `HttpText`). Round trips in both directions, each
  with its exact condition where the code does not meet it for all inputs. An accepted address is canonical if and
  only if some byte of its payload ends the tag (`AddrCanonical`, `CutOffTagAccepted`). A JSON value is read back
  from its text if and only if its strings and keys are in the parser's raw form and nothing extends a number
  (`PrintParse`, `QuoteNotKept`, `SpaceNotKept`), as the printer escapes nothing; the texts that are read at all,
  and as what, are given by syntax trees (`ParseExact`), and the last value of a repeated key is the one that counts
  (`BuildMeans`). An HTTP response is read back if and only if its headers are safe, its length header is the
  decimal length of its body and an error status has a body (`ReplyRoundTrip`, `BareError`, `HandSetLength`).
- **Streams** (`Blake256`, `BlakePieces`, `BlakeDigest`, `Groestl`, `GroestlDigest`, `ChaCha8`, `ChaChaBlock`,
  `Chunked`, `ChunkedGrammar`). The pieces of an input give the result of the whole. For BLAKE-256 this is false for
  some lengths: `UpdatesExact` says for which, and `UpdatesTaken` what is hashed instead. For Groestl it is true if
  and only if no piece has 2^31 bytes (`PiecesExact`), and for a chunked body if and only if its content stays below
  2^32 bytes (`ReadBody`). The result of the whole is what the padding rules, the rounds of RFC 8439 and the grammar
  of chunked bodies say (`DigestRuns`, `HashRuns`, `DoubleRoundIs`, `ContentExact`).
- **Concurrency** (`BlockingQueue`, `GroupClose`, `Event`, `EventLock`, `Latch`). Invariants over every
  interleaving, linearizability, and lists of waiters threaded through stack frames that are never read after their
  frame is gone. The latch loses its sleepers if and only if an increase wraps its counter to exactly zero
  (`RunKeepsIff`, `SleeperLostInRun`).

Parameters stand for what the model does not contain: random scalars, the choice of the thread that a notification
wakes, the next random position of the shuffle, the compression functions and the hash of an address. Words of the
source that wrap are written with their modulus; bytes are numbers below 256, or `bv8` where they are combined bit by
bit. `std::map` is a Dafny map, or a sequence sorted by key where the order is printed. An exception is a `Failed`,
`None` or `Thrown` result.

Odd behaviour of the code is kept: `readNumber` accepts a lone minus sign, a header value loses a colon that a space
follows, `setStatus` leaves the length of its error text behind, and the weight in `decode_block` does wrap after the
eleventh symbol although a comment says it never overflows; it is not used again.

`dafny verify dfyconfig.toml` checks the whole project.

## Model

| member | source | states |
|---|---|---|
| WideArith.Mul128 | src/Common/int-util.h:60-84 | the two result words are the exact 128-bit product of any two 64-bit words |
| WideArith.AddPartialProducts | src/Common/int-util.h:74-81 | with both carries detected by wrap-around the four partial products add up exactly, and the high word never falls below its first term, which is the source's assertion |
| WideArith.WrappedSum | src/Common/int-util.h:74-80 | a wrapped sum is below a summand exactly when it lost 2^64 |
| WideArith.DivWithRemainder | src/Common/int-util.h:86-90 | quotient times divisor plus remainder is the dividend with the old remainder or-ed into its high half; for a 32-bit dividend that is one digit of a long division, which fits 32 bits when the old remainder is below the divisor |
| WideArith.Div128By32 | src/Common/int-util.h:93-108 | quotient times divisor plus remainder is the 128-bit dividend, remainder below the divisor |
| Varint.WriteVarint | src/Common/varint.h:28-36 | the loop writes the canonical encoding of any value |
| Varint.ReadVarint | src/Common/varint.h:46-69 | the shifting loop returns what the shift-free reader returns, for every width and input, including both error codes and end of input |
| Varint.DecodeEncode | src/Common/varint.h:28-69 | for every width, reading a written value of that width followed by anything gives the value and the exact length |
| Varint.EncodeDecode | src/Common/varint.h:46-69 | every terminated prefix that is accepted is the encoding of the value read, and the value fits the width |
| Varint.DecodeLength | src/Common/varint.h:46-69 | at most ceil(bits/7) bytes are consumed |
| Varint.CutOff | src/Common/varint.h:51-68 | a read that stops without a last group has eaten the whole input, continuation bytes only |
| Varint.PrefixFree | src/Common/varint.h:28-36 | no encoding is a prefix of the encoding of another value |
| Varint.EncodeLength | src/Common/varint.h:28-36 | a value of the given width takes at most ceil(bits/7) bytes |
| Varint.StreamReadVarint | src/Common/StreamTools.cpp:86-172 | for every unsigned width the stream reader accepts exactly the terminated encodings, with the same values, and throws on all else |
| Varint.ReadMeans | src/Common/varint.h:46-69 | terminated or cut off, the value read is that of the groups consumed, seven bits a byte and the low group first |
| Varint.OverflowExact | src/Common/varint.h:57-59 | overflow is reported if and only if a byte that is reached is too large for the bits left |
| Varint.NonCanonicalExact | src/Common/varint.h:60-62 | a zero group is reported if and only if one is reached that is not the first and had room |
| Base58.AlphabetIs | src/Common/base58.cpp:34 | the alphabet is six runs of consecutive characters, 58 in all |
| Base58.ReverseAlphabet | src/Common/base58.cpp:41-52 | the filled table gives each symbol its place in the alphabet and -1 to every other character in its span |
| Base58.DecodedSizes | src/Common/base58.cpp:68-77 | the filled table inverts the table of encoded sizes and holds -1 elsewhere |
| Base58.Tables.constructor | src/Common/base58.cpp:41-91 | both tables are as described once built |
| Base58.BlockFits | src/Common/base58.cpp:36 | 256^n is at most 58^e(n) for every block size, so no block overruns its symbols |
| Base58.BlockRoundTrip | src/Common/base58.cpp:122-168 | an encoded block is acceptable and decodes to its bytes |
| Base58.BlockInjective | src/Common/base58.cpp:122-168 | an acceptable block is the encoding of what it decodes to |
| Base58.BytesToWord | src/Common/base58.cpp:93-112 | the fall-through switch computes the big-endian value of 1 to 8 bytes |
| Base58.WordToBytes | src/Common/base58.cpp:114-120 | the last bytes of the big-endian word are the base-256 digits of the number |
| Base58.EncodeBlock | src/Common/base58.cpp:122-135 | fills exactly its slice with the padded base-58 digits and writes nowhere else |
| Base58.OverflowRefused | src/Common/base58.cpp:153-163 | a partial sum of 2^64 or more can only come from a block that must be refused |
| Base58.DecodeBlock | src/Common/base58.cpp:137-168 | accepts exactly the blocks of a possible length, good symbols and a value below 256^n, writes their bytes and on refusal nothing |
| Base58.EncodeFullBlocks | src/Common/base58.cpp:180-184 | the loop over the full blocks leaves the encoding of what is done in front of the encoding of the rest |
| Base58.Encode | src/Common/base58.cpp:171-192 | the whole text is the encoding, block by block |
| Base58.DecodeFullBlocks | src/Common/base58.cpp:209-214 | the loop decodes the full blocks or refuses a text that has no decoding |
| Base58.Decode | src/Common/base58.cpp:194-224 | returns the decoding, or false exactly for texts without one |
| Base58.DecodeEncode | src/Common/base58.cpp:171-224 | decoding undoes encoding for every byte string |
| Base58.EncodeDecode | src/Common/base58.cpp:171-224 | encoding undoes decoding for every accepted text, so the two are inverse bijections |
| Base58.BadLength | src/Common/base58.cpp:202-206 | a text whose last block has an impossible length is refused |
| Base58.EncodeAddr | src/Common/base58.cpp:226-234 | tag, data and the first four bytes of their hash, encoded |
| Base58.DecodeAddr | src/Common/base58.cpp:236-256 | refuses bad text, short data, a wrong checksum and an unreadable tag, else splits tag and data |
| Base58.AddrRoundTrip | src/Common/base58.cpp:226-256 | every 64-bit tag and every data come back from the address made of them, for every hash |
| Base58.AddrCanonical | src/Common/base58.cpp:236-256 | an accepted address is the one made of what was read if and only if some byte of its payload is below 128, that is, ends the tag |
| Base58.CutOffTagAccepted | src/Common/base58.cpp:236-256 | a lone continuation byte under a good checksum is accepted as tag 0, though the address of tag 0 is another text |
| Base58.AddrAccepted | src/Common/base58.cpp:235-256 | an address is accepted if and only if it decodes to bytes that end in the first four bytes of the hash of the rest and the rest starts with a tag; then to that tag and what follows it |
| Base58.AddrSealed | src/Common/base58.cpp:226-233 | every address decodes to the tag and the data and, behind them, the first four bytes of their hash |
| Base58.WrongChecksumRefused | src/Common/base58.cpp:235-256 | bytes with any other four bytes behind them are refused |
| Base58.SymbolsAre | src/Common/base58.cpp:34 | where each run of the alphabet starts |
| Base58.BlockTight | src/Common/base58.cpp:36 | every block size has the fewest symbols that hold all its values |
| Curve.MulAdd | src/crypto/crypto-ops.h:42-103 | scalar multiples add up, from the group laws |
| Curve.MulMul | src/crypto/crypto-ops.h:42-119 | multiples of multiples |
| Curve.MulMod | src/crypto/crypto-ops.h:42-119 | multiples of a point of order q depend on the scalar modulo q |
| Curve.BaseOrder | src/crypto/crypto-ops.h:84-118 | no multiple of the base point below the q-th is zero |
| Curve.ScalarUnique | src/crypto/crypto-ops.h:84-118 | equal multiples of the base point have scalars equal modulo q |
| Curve.SamePoint | src/crypto/crypto-ops.h:103-118 | for an odd order q a point is determined by its multiples by eight and by q |
| Curve.LawsHaveAModel | src/crypto/crypto-ops.h:42-119 | the laws assumed of the curve are met by a concrete group that also has points outside the prime-order part |
| RingSignature.MulSubBalances | src/crypto/crypto.cpp:161-183 | the response k - c x satisfies c x + r = k modulo the order |
| RingSignature.Opens | src/crypto/crypto.cpp:161-204 | the response opens the commitment of the signer |
| RingSignature.HashPointOrder | src/crypto/crypto.cpp:206-214 | a key hashed to the curve lands in the subgroup of prime order |
| RingSignature.Extract | src/crypto/crypto.cpp:185-204 | two openings of one commitment give the exponent of the key up to order eight, and exactly if and only if the key has prime order |
| RingSignature.SignatureComplete | src/crypto/crypto.cpp:161-204 | every signature made with a secret key passes the check under its public key |
| RingSignature.SignatureSound | src/crypto/crypto.cpp:185-204 | two accepted signatures on one commitment with different challenges give the secret key, if and only if the key has prime order |
| RingSignature.ScanAccepts | src/crypto/crypto.cpp:321-336 | the loop gets through if and only if all scalars are reduced and all keys decode |
| RingSignature.RingAccepts | src/crypto/crypto.cpp:302-340 | a ring signature is accepted if and only if everything decodes, scalars are reduced and the challenges sum to the hash of the transcript |
| RingSignature.CheckRingSignature | src/crypto/crypto.cpp:302-340 | the loop with its growing buffer and sum returns the verdict, reject and abort included |
| RingSignature.GenerateRingSignature | src/crypto/crypto.cpp:240-300 | aborts exactly on an undecodable image or other member, else fills the array with the ring signature for the given randomness |
| RingSignature.SameTranscript | src/crypto/crypto.cpp:240-340 | signer and verifier build the same commitments, the signer's own by opening and the others' by simulation |
| RingSignature.RingComplete | src/crypto/crypto.cpp:240-340 | for every ring, secret position, message and randomness the generated signature is accepted |
| RingSignature.RingExplained | src/crypto/crypto.cpp:240-340 | every vector accepted under the honest image is the one generated from k = c_s sec + r_s and the other members' parts |
| RingSignature.RingRange | src/crypto/crypto.cpp:240-340 | under the honest image a vector is accepted if and only if some randomness generates it |
| RingSignature.RingSound | src/crypto/crypto.cpp:302-340 | two accepted signatures over one ring, image and transcript give for every member whose challenges differ an exponent x that opens both its key and the image, up to order eight and exactly if and only if they have prime order |
| RingSignature.ForkDiffers | src/crypto/crypto.cpp:302-340 | if their hashes differ, so do the challenges of some member |
| RingSignature.ImageDetermined | src/crypto/crypto.cpp:206-223 | two exponents that agree on a key up to order eight agree on its image up to order eight |
| RingSignature.Linkable | src/crypto/crypto.cpp:302-340 | two forks over any rings in which the challenges of one key differ have images equal up to order eight, and byte for byte if and only if the q-th multiples of the images are equal |
| Transcripts.ChallengeHashed | src/crypto/crypto.cpp:155-183 | the challenge of a signature is the hash of the message, the key and the encoded commitment, modulo the order |
| Transcripts.OneInjective | src/crypto/crypto.cpp:155-183 | message, key and commitment are told apart by those bytes |
| Transcripts.SignatureAccepts | src/crypto/crypto.cpp:185-204 | a signature is accepted if and only if key and scalars are good and its challenge is the hash of what it opens to; it aborts exactly for a bad key |
| Transcripts.SignatureRange | src/crypto/crypto.cpp:161-204 | the signatures accepted under a key are exactly those that its owner can make |
| Transcripts.RingLaid | src/crypto/crypto.cpp:229-238 | the buffer of a ring holds the message and, from its end on, two encodings of 32 bytes for each member |
| Transcripts.RingHashed | src/crypto/crypto.cpp:229-340 | the scalar of a ring is the hash of exactly those bytes modulo the order |
| Transcripts.RingInjective | src/crypto/crypto.cpp:229-238 | messages and commitments are told apart by those bytes |
| Transcripts.RingAcceptsHashed | src/crypto/crypto.cpp:302-340 | a ring signature is accepted if and only if everything decodes, scalars are reduced and the challenges sum to the hash of those bytes for what it opens to |
| Transcripts.RingAborts | src/crypto/crypto.cpp:302-340 | exactly when the verifier aborts instead of rejecting |
| Transcripts.KeyHashed | src/crypto/crypto.cpp:206-214 | a key is hashed to a point and that is doubled three times |
| Cofactor.TorsionKey | src/crypto/crypto.cpp:185-204 | a concrete key of order two with two accepted signatures on one commitment and no secret key: the prime order in SignatureSound is needed |
| Cofactor.TwoImages | src/crypto/crypto.cpp:302-340 | one prime-order key with two accepted images, one of them no multiple of the hashed key: the condition in Linkable can fail, and the conditions of RingSound can be met |
| OneTimeKeys.SameDerivation | src/crypto/crypto.cpp:80-93 | sender and receiver compute the same derivation, 8 a r G |
| OneTimeKeys.DerivedKeysMatch | src/crypto/crypto.cpp:107-133 | the public key of the derived secret key is the derived public key |
| OneTimeKeys.UnderiveDerive | src/crypto/crypto.cpp:107-153 | underiving a derived key gives the bytes of the base key |
| OneTimeKeys.DeriveUnderive | src/crypto/crypto.cpp:107-153 | deriving from an underived key gives its bytes back |
| OneTimeKeys.ReceiverRecognises | src/crypto/crypto.cpp:80-153 | the receiver recovers a spend key from an output if and only if the output was made for it, and owns the secret key of the output |
| OneTimeKeys.IndexFits | src/crypto/crypto.cpp:95-105 | every 64-bit output index fits the ten bytes kept for it |
| OneTimeKeys.HashInputsDistinct | src/crypto/crypto.cpp:95-105 | different derivations or indices are hashed from different bytes |
| OneTimeKeys.NamesOnce | src/crypto/crypto.cpp:95-105 | the bytes hashed for an output are the derivation and a text that a 64-bit read takes as the index to its end, and only one text does |
| OneTimeKeys.ScalarHashed | src/crypto/crypto.cpp:95-105 | the scalar of an output is the hash of exactly those bytes modulo the order |
| OneTimeKeys.KeysHashed | src/crypto/crypto.cpp:107-153 | that hash shifts the secret key, the public key and, back again, the derived key |
| OneTimeKeys.OutputsDistinct | src/crypto/crypto.cpp:95-105 | derivations and indices are told apart by those bytes |
| BlockingQueue.DataNotified | src/Common/BlockingQueue.h:47-48 | one notification pays for one more item, whichever sleeper is picked |
| BlockingQueue.SpaceNotified | src/Common/BlockingQueue.h:63-70 | one notification pays for one more free slot although closers sleep on the same condition |
| BlockingQueue.PushKeeps | src/Common/BlockingQueue.h:36-50 | a push keeps the invariant: sleepers are covered by woken threads, and none sleep on a closed queue |
| BlockingQueue.PopKeeps | src/Common/BlockingQueue.h:52-73 | so does a pop |
| BlockingQueue.CloseKeeps | src/Common/BlockingQueue.h:75-86 | so does a close, waiting or not |
| BlockingQueue.StepKeeps | src/Common/BlockingQueue.h:36-86 | every scheduling step keeps the invariant: fresh calls, resumed threads and spurious wake-ups |
| BlockingQueue.RunKeeps | src/Common/BlockingQueue.h:36-86 | the invariant holds in every reachable state |
| BlockingQueue.NobodyForgotten | src/Common/BlockingQueue.h:36-86 | when nobody is on the way to the mutex, poppers sleep only beside an empty open queue, pushers beside a full open one, closers beside an undrained one, and pushers and poppers never both |
| BlockingQueue.StepAgrees | src/Common/BlockingQueue.h:36-86 | every step moves a sequential bounded queue by the event it logs |
| BlockingQueue.RunAgrees | src/Common/BlockingQueue.h:36-86 | in every run the logged history is one of the sequential queue |
| BlockingQueue.Conservation | src/Common/BlockingQueue.h:36-73 | in every legal history accepted values are the delivered ones followed by the queue, within the capacity |
| BlockingQueue.AfterClose | src/Common/BlockingQueue.h:36-86 | after a close nothing is accepted, after close and drain nothing delivered |
| BlockingQueue.Linearizable | src/Common/BlockingQueue.h:36-86 | over every run: linearizable, first in first out, bounded, and final once a pop has reported the end |
| BlockingQueue.Queue.constructor | src/Common/BlockingQueue.h:32-33 | starts as the initial monitor |
| BlockingQueue.Queue.PushCritical | src/Common/BlockingQueue.h:36-50 | the critical section does the monitor's push step and returns, waits or refuses accordingly |
| BlockingQueue.Queue.PopCritical | src/Common/BlockingQueue.h:52-73 | likewise for pop, which returns false only when closed and empty |
| BlockingQueue.Queue.CloseCritical | src/Common/BlockingQueue.h:75-86 | likewise for close, which waits only on request and beside an undrained queue |
| BlockingQueue.Queue.CloseResumed | src/Common/BlockingQueue.h:81-85 | the loop of close(true) after a wake-up does the monitor's step: it waits again beside an undrained queue, else returns |
| GroupClose.StepKeeps | src/Common/BlockingQueue.h:115-120 | the counter is the group size less the decrements modulo 2^64, and the decrements that closed are those congruent to the group size |
| GroupClose.RunKeeps | src/Common/BlockingQueue.h:115-120 | in every interleaving of loads and decrements |
| GroupClose.ClosedByTheLast | src/Common/BlockingQueue.h:108-127 | the calls of close are exactly those of the decrements congruent to the group size modulo 2^64, so one, by the groupSize-th, until the counter has gone round its word |
| Waiters.WaiterList.Append | src/System/Event.cpp:94-105 | appends a record; only the last record, whose frame is alive, is written |
| Waiters.WaiterList.PushAll | src/System/Event.cpp:84-92 | hands back all contexts in order of arrival; the records it visits are exactly the list, each of a live frame |
| Event.StepKeeps | src/System/Event.cpp:76-109 | every blocking wait is in the list or was handed back, once and in order |
| Event.RunKeeps | src/System/Event.cpp:76-109 | over every run of clear, set and wait |
| Event.BlockedSinceReset | src/System/Event.cpp:76-109 | after every run that leaves the event unsignalled there is a point k, the start or a clear that found the event signalled, with no set after it, and the list is exactly the waits after k in order of arrival |
| Event.Event.constructor | src/System/Event.cpp:36-37 | starts unsignalled |
| Event.Event.Get | src/System/Event.cpp:71-74 | tells whether the event is signalled |
| Event.Event.Clear | src/System/Event.cpp:76-82 | a new list when signalled, else nothing; stale pointers are never followed |
| Event.Event.Set | src/System/Event.cpp:84-92 | hands back exactly the blocked contexts, once |
| Event.Event.BeginWait | src/System/Event.cpp:94-105 | blocks if and only if unsignalled and puts a record of the live frame at the end |
| Event.Event.EndWait | src/System/Event.cpp:105-109 | a frame may go once its context was handed back; no list that is still read holds its record |
| Event.SignalledSinceSet | src/System/Event.cpp:76-92 | in every run the event is signalled if and only if it was set and not cleared since |
| EventLock.TryLockKeeps | src/System/EventLock.cpp:23-29 | one turn of the constructor keeps: one holder and the event clear, or none, the event set and the list empty |
| EventLock.UnlockKeeps | src/System/EventLock.cpp:31-33 | so does the destructor, which moves exactly the contexts that the event hands back |
| EventLock.StepKeeps | src/System/EventLock.cpp:23-33 | so does every step of every context |
| EventLock.RunKeeps | src/System/EventLock.cpp:23-33 | over every run |
| EventLock.MutualExclusion | src/System/EventLock.cpp:23-33 | at most one holder, none exactly when the event is set, and then nobody is left asleep or in the list |
| EventLock.TryLockOn | src/System/EventLock.cpp:23-29 | one turn on the event object: takes the lock if and only if the event was set, else waits |
| EventLock.UnlockOn | src/System/EventLock.cpp:31-33 | sets the event and hands back the blocked contexts |
| Latch.StepKeepsIff | src/System/Latch.cpp:76-117 | a step keeps the invariant if and only if it is not an increase that wraps to zero while somebody waits |
| Latch.SleepersLost | src/System/Latch.cpp:76-85 | after such an increase the next one drops the sleepers without handing them back |
| Latch.SleeperLostInRun | src/System/Latch.cpp:76-117 | a run of four calls from the start that loses a sleeper |
| Latch.RunKeepsIff | src/System/Latch.cpp:76-117 | over every run the invariant holds at the end if and only if no increase wrapped to zero under sleepers; once lost, sleepers stay lost |
| Latch.AllWoken | src/System/Latch.cpp:76-117 | in every run that ends at zero every wait was handed back once and in order, if and only if no increase wrapped to zero under sleepers |
| Latch.BlockedSinceZero | src/System/Latch.cpp:76-117 | after every run that ends above zero the list is exactly the waits since the increase that last raised the counter from zero, in order of arrival |
| Latch.Latch.constructor | src/System/Latch.cpp:36-37 | starts at zero with nobody waiting |
| Latch.Latch.Increase | src/System/Latch.cpp:76-85 | adds modulo the word and starts a new list when leaving zero; sound if and only if it does not wrap to zero under waiters |
| Latch.Latch.Decrease | src/System/Latch.cpp:87-100 | hands back exactly the blocked contexts when it reaches zero, else nobody |
| Latch.Latch.BeginWait | src/System/Latch.cpp:102-113 | blocks if and only if the counter is not zero |
| Latch.Latch.EndWait | src/System/Latch.cpp:113-117 | a frame may go once its context was handed back |
| Latch.CounterIs | src/System/Latch.cpp:76-100 | in every run the counter is what the increases add less what the decreases take, modulo the word |
| Shuffle.Partition | src/Common/ShuffleGenerator.h:30-56 | emitted and live values always share out the values |
| Shuffle.Permutation | src/Common/ShuffleGenerator.h:30-56 | n calls emit a permutation of 0..n-1 |
| Shuffle.Injective | src/Common/ShuffleGenerator.h:30-56 | different in-range choices give different outputs |
| Shuffle.Surjective | src/Common/ShuffleGenerator.h:30-56 | every arrangement comes from some choices |
| Shuffle.ExactlyOne | src/Common/ShuffleGenerator.h:30-56 | every permutation comes from exactly one sequence of choices |
| Shuffle.OneMore | src/Common/ShuffleGenerator.h:30-56 | one more draw from the dense array |
| Shuffle.Generator.constructor | src/Common/ShuffleGenerator.h:27-28 | starts with all values live |
| Shuffle.Generator.Next | src/Common/ShuffleGenerator.h:30-56 | the sparse map stands for the dense array: each call emits what the dense shuffle draws, and throws exactly when exhausted |
| Shuffle.Generator.Reset | src/Common/ShuffleGenerator.h:58-61 | all values are live again |
| Shuffle.DrawnExample | src/Common/ShuffleGenerator.h:30-56 | four draws worked out: the last live value takes the place of the one drawn |
| Chunked.BodyContent | external/miniupnpc/miniwget.c:177-244 | a well-formed chunked body (section 4.1 of RFC 7230, without extensions) means the concatenated data of its chunks |
| Chunked.DataStep | external/miniupnpc/miniwget.c:229-243 | copying a part of a chunk leaves the meaning of the stream |
| Chunked.LeadStep | external/miniupnpc/miniwget.c:185-189 | skipping a part of a left-over line end does too |
| Chunked.CollectDigits | external/miniupnpc/miniwget.c:185-196 | the digits collected so far and the rest of the stream keep its meaning |
| Chunked.FinishLine | external/miniupnpc/miniwget.c:197-212 | the line is complete exactly when its LF has arrived, and the meaning is kept |
| Chunked.SizeOf | external/miniupnpc/miniwget.c:201-208 | the shifting loop computes the hexadecimal value modulo 2^32 |
| Chunked.ContentBuffer.Append | external/miniupnpc/miniwget.c:229-240 | grows when needed and appends, used never above allocated, exactly when the new length fits its 32-bit word |
| Chunked.Reader.ReadSize | external/miniupnpc/miniwget.c:182-227 | one pass over a size line, which may be cut anywhere |
| Chunked.Reader.Receive | external/miniupnpc/miniwget.c:177-244 | one read: content so far plus what is still to come is unchanged, the end is reported only at the zero chunk, and only a content of 2^32 bytes or more leaves what the source defines |
| Chunked.ReadBody | external/miniupnpc/miniwget.c:177-244 | every cutting of a stream into reads gives its content if that is below 2^32 bytes, and none does otherwise |
| Chunked.ReadWellFormed | external/miniupnpc/miniwget.c:177-244 | every cutting of a well-formed body gives the data of its chunks if they are below 2^32 bytes, and none does otherwise |
| ChunkedGrammar.HexDigitIs | external/miniupnpc/miniwget.c:200-208 | every character of 0123456789abcdef, in either case, counts as its place |
| ChunkedGrammar.HexIs | external/miniupnpc/miniwget.c:183-208 | no other byte is a digit |
| ChunkedGrammar.HexTextValue | external/miniupnpc/miniwget.c:200-208 | the hexadecimal text of a number is read as the number |
| ChunkedGrammar.SpellContent | external/miniupnpc/miniwget.c:177-244 | a stream spelled as size lines and their data means that data |
| ChunkedGrammar.ContentSpelled | external/miniupnpc/miniwget.c:177-244 | whatever has a content is spelled like that; a line with a chunk extension has none |
| ChunkedGrammar.ContentExact | external/miniupnpc/miniwget.c:177-244 | a stream without chunk extensions has a content if and only if it is a sentence of the grammar with that data |
| ChunkedGrammar.UsualBody | external/miniupnpc/miniwget.c:177-244 | pieces of data, each behind its length in hexadecimal, mean their concatenation |
| Blake256.UpdateHolds | src/crypto/blake256.c:127-155 | for joining lengths the state after an update is that of the longer message: buffer, counter and compressions |
| BlakePieces.UpdateExact | src/crypto/blake256.c:127-155 | an update is right for all contents if and only if nothing is buffered, or the piece is non-empty and either shorter than a block or long enough modulo the block to fill it |
| BlakePieces.UpdatesHold | src/crypto/blake256.c:127-155 | any number of pieces that join leaves the state of the whole message |
| BlakePieces.TakenHolds | src/crypto/blake256.c:127-155 | an update of any length leaves the state of a definite message: the concatenation if it joins, else the whole blocks of the piece in front of the buffered bytes, or without them if the piece has no rest |
| BlakePieces.UpdatesTaken | src/crypto/blake256.c:127-155 | the same for any number of updates |
| BlakePieces.JoinedTaken | src/crypto/blake256.c:127-155 | pieces that all join are taken as their concatenation |
| BlakePieces.HeldOnce | src/crypto/blake256.c:127-155 | a state holds one message only |
| BlakePieces.UpdatesHoldIff | src/crypto/blake256.c:127-155 | given pieces leave the state of their concatenation if and only if they are taken as it |
| BlakePieces.BrokenStays | src/crypto/blake256.c:127-155 | bytes that were dropped or overtaken are not repaired by any later update |
| BlakePieces.UpdatesExact | src/crypto/blake256.c:127-155 | updates of given lengths absorb the whole message for all contents if and only if every one of them joins |
| BlakePieces.HashPieces | src/crypto/blake256.c:127-202 | the loop of updates and the final step give the digest of what the pieces leave, for every list of pieces, and of the concatenation when every piece joins |
| Blake256.LengthOfMessage | src/crypto/blake256.c:163-167 | the length bytes are the 64-bit big-endian bit length |
| Blake256.FinishByOne | src/crypto/blake256.c:169-188 | one byte of padding: the last block and its counter |
| Blake256.FinishInBlock | src/crypto/blake256.c:173-188 | padding inside the block, with the counter switched off when no message bit is in it, although the counter wraps below zero on the way |
| Blake256.FinishOverBlock | src/crypto/blake256.c:177-188 | padding over two blocks, the second without a counter |
| Blake256.FinishedCalls | src/crypto/blake256.c:162-198 | the compressions are exactly the blocks of the padded message (section 2.1.3 of the BLAKE proposal to SHA-3), each with the message bits so far or no counter |
| Blake256.Hasher.Update | src/crypto/blake256.c:127-155 | the object does the update step for every length |
| Blake256.Hasher.Finish | src/crypto/blake256.c:162-198 | the object does the final step and returns its chaining value |
| Blake256.Hash | src/crypto/blake256.c:209-214 | the digest of every message below 2^64 bits |
| Blake256.MixKey | src/crypto/blake256.c:238-249 | the pad is the zero-filled key combined with the constant |
| Blake256.HmacHash | src/crypto/blake256.c:225-318 | equals the keyed hash of section 2 of RFC 2104, long keys hashed first |
| BlakeDigest.PaddedIs | src/crypto/blake256.c:162-202 | the padded message is the message, the two marker bits, the fewest zeros between them, and the length in bits |
| BlakeDigest.DigestRuns | src/crypto/blake256.c:127-214 | the digest is the last value of a run of the compression over its blocks, each with the number of message bits so far |
| BlakeDigest.HmacIs | src/crypto/blake256.c:225-318 | the inner pad is the key filled with zeros and mixed with 0x36, the outer one with 0x5c, and the hashes are nested in that order (section 2 of RFC 2104) |
| BlakeDigest.HmacLongKey | src/crypto/blake256.c:225-253 | a key longer than a block stands for its digest |
| Groestl.DigestedConcat | src/crypto/groestl.c:163-176 | digesting can be interrupted at any block boundary |
| Groestl.CountStep | src/crypto/groestl.c:172-174 | the two counters with their carry count blocks modulo 2^64 |
| Groestl.State.Transform | src/crypto/groestl.c:163-176 | digests and counts every full block |
| Groestl.State.Update | src/crypto/groestl.c:226-269 | digested blocks and buffer make up the bytes given so far plus the part of the piece that its length as an int admits; that is the whole piece if and only if it has fewer than 2^31 bytes |
| Groestl.TakenAll | src/crypto/groestl.c:229-230 | the length survives the conversion to int if and only if it is below 2^31 |
| Groestl.TakenTooFew | src/crypto/groestl.c:229-260 | 2^31 bytes are dropped, and of 2^32 + 5 five are taken |
| Groestl.PiecesExact | src/crypto/groestl.c:226-269 | the message that updates absorb is the concatenation of the pieces if and only if each has fewer than 2^31 bytes |
| Groestl.State.PutPadding | src/crypto/groestl.c:280-300 | 0x80 and zeros up to the length field, over one block or two |
| Groestl.State.WriteCounters | src/crypto/groestl.c:302-314 | the byte loops write the block count big-endian |
| Groestl.State.Final | src/crypto/groestl.c:275-332 | the digest is that of the message, padded with 0x80, zeros and the 64-bit block count |
| Groestl.LastBlock | src/crypto/groestl.c:280-316 | the padded message cut before its last block |
| Groestl.PaddingFits | src/crypto/groestl.c:280-300 | the padding ends where the block count has room |
| Groestl.HashPieces | src/crypto/groestl.c:226-332 | any sequence of byte-aligned updates gives the hash of what they absorb, and of the concatenation when every piece has fewer than 2^31 bytes |
| GroestlDigest.PaddedIs | src/crypto/groestl.c:275-320 | the padded message is the message, 0x80, the fewest zeros that fill a block, and the number of blocks |
| GroestlDigest.HashRuns | src/crypto/groestl.c:163-345 | the digest is the output of a run of the compression over the blocks of the padded message, in order |
| ChaCha8.Involution | src/crypto/chacha8.c:40-167 | applying the cipher twice restores the input |
| ChaCha8.PrefixOfInput | src/crypto/chacha8.c:40-167 | a prefix of the input gives a prefix of the output |
| ChaCha8.CounterCarries | src/crypto/chacha8.c:133-138 | the two counter words count as one 64-bit word |
| ChaCha8.XorByBytes | src/crypto/chacha8.c:115-131 | combining words combines their bytes |
| ChaCha8.Scramble | src/crypto/chacha8.c:89-114 | eight rounds, two at a time, and the addition of the input (quarter round of section 2.1 of RFC 8439) |
| ChaCha8.BlockOfStream | src/crypto/chacha8.c:73-155 | the bytes written for a block are those of the keystream at their positions |
| ChaCha8.LoadBlock | src/crypto/chacha8.c:67-72 | a short last piece is read by way of the temporary buffer |
| ChaCha8.Encipher | src/crypto/chacha8.c:40-167 | on two ranges of one memory, every byte is combined with keystream byte i mod 64 of block i / 64, for every length, when the output is the input, lies before it, overlaps it from below or lies behind it; nothing else is written |
| ChaCha8.EncipherBlock | src/crypto/chacha8.c:67-155 | one turn writes the output for its piece of the input and goes on with the next block number |
| ChaCha8.Unread | src/crypto/chacha8.c:66-165 | output that does not start inside the input beyond its start never covers input that is still to be read |
| ChaChaBlock.QuarterRoundIs | src/crypto/chacha8.c:32-36 | a quarter round on any four different places changes these as one on four words does, and no others |
| ChaChaBlock.QuarterExample | src/crypto/chacha8.c:32-36 | the example of section 2.1.1 of RFC 8439 |
| ChaChaBlock.DoubleRoundIs | src/crypto/chacha8.c:90-99 | a quarter round on each column and then on each diagonal |
| ChaChaBlock.MixedIs | src/crypto/chacha8.c:89-114 | eight rounds and the input added word by word |
| ChaChaBlock.InputBytes | src/crypto/chacha8.c:49-64 | the input is the constant, the key, the block number and the iv, byte for byte and in that order |
| ChaChaBlock.StreamRuns | src/crypto/chacha8.c:61-138 | the keystream is mixed block by block, with a block number whose low word starts at zero and carries into the high one |
| ChaChaBlock.LowByteFirst | src/crypto/chacha8.c:24-25 | words are stored with the low byte first |
| Text.NatRoundTrip | src/HTTP/HttpResponse.cpp:76 | decimal text reads back as its number |
| Text.NatValueMeans | src/HTTP/HttpResponse.cpp:76 | digits stand for their places in 0123456789 and each place to the left for ten times more |
| Text.SpacesAre | src/Common/JsonValue.cpp:663-666 | the six characters that count as white space |
| Text.LessMeans | src/Common/JsonValue.cpp:858-915 | the order of the keys: the first difference decides, and a prefix comes first |
| Json.InsertSorted | src/Common/JsonValue.cpp:858-915 | inserting a member keeps the keys in order |
| Json.BuildSorted | src/Common/JsonValue.cpp:858-915 | the members of an object are in the order of their keys, and members that are in order already are kept as they are |
| Json.NumberParsed | src/Common/JsonValue.cpp:785-856 | a number without a needless zero is read to its end and no further |
| Json.IntegerRoundTrip | src/Common/JsonValue.cpp:785-856 | every 64-bit integer is read back from its text |
| Json.WordRoundTrip | src/Common/JsonValue.cpp:742-783 | the three words are read back |
| Json.StringRoundTrip | src/Common/JsonValue.cpp:917-943 | every raw string is read back |
| Json.KeyRoundTrip | src/Common/JsonValue.cpp:871-884 | every raw key without spaces is read back |
| Json.PrintParse | src/Common/JsonValue.cpp:605-943 | a nested value is read back from its text, consuming exactly the text, if and only if its strings and keys are raw, its integers in range, its keys in order and without spaces, and nothing after an integer extends it |
| Json.GoodPrintParse | src/Common/JsonValue.cpp:605-943 | the inductive half: every such value is read back |
| Json.IntegerGoesOn | src/Common/JsonValue.cpp:785-801 | digits and dots after an integer are taken for a part of it |
| Json.QuoteNotKept | src/Common/JsonValue.cpp:655-656 | a string that holds a quote is cut at it |
| Json.SpaceNotKept | src/Common/JsonValue.cpp:872-884 | a key loses its spaces |
| Json.ArrayPrintParse | src/Common/JsonValue.cpp:704-740 | the same for arrays |
| Json.ObjectPrintParse | src/Common/JsonValue.cpp:858-915 | the same for objects |
| Json.StringIsRaw | src/Common/JsonValue.cpp:917-943 | every string that is read is raw |
| Json.KeyIsRaw | src/Common/JsonValue.cpp:871-884 | every key that is read is raw and without spaces |
| Json.ParseGood | src/Common/JsonValue.cpp:663-943 | whatever is accepted is a value of the class |
| Json.ParsePrintParse | src/Common/JsonValue.cpp:605-943 | printing what was parsed and parsing it again is a fixed point |
| Json.PrintInjective | src/Common/JsonValue.cpp:605-661 | no two values of the class print alike |
| Json.Stream.SkipSpaces | src/Common/JsonValue.cpp:663-686 | leading white space is dropped |
| Json.Stream.ReadWord | src/Common/JsonValue.cpp:742-783 | reads exactly the expected characters or fails |
| Json.Stream.ReadNumber | src/Common/JsonValue.cpp:785-856 | the loop and its checks do what the parser function says, out-of-range numbers included |
| Json.Stream.ReadString | src/Common/JsonValue.cpp:917-943 | so does the string loop |
| Json.Stream.ReadKey | src/Common/JsonValue.cpp:871-884 | so does the key loop |
| Json.Stream.ReadMember | src/Common/JsonValue.cpp:866-892 | so does the reading of one member |
| Json.Stream.ReadObject | src/Common/JsonValue.cpp:858-915 | so does the object loop |
| Json.Stream.ReadArray | src/Common/JsonValue.cpp:704-740 | so does the array loop |
| Json.Stream.ReadValue | src/Common/JsonValue.cpp:663-686 | the stream operator returns what the parser function returns and leaves the rest |
| Json.Write | src/Common/JsonValue.cpp:605-661 | the stream operator prints the text of every value |
| Json.WriteItems | src/Common/JsonValue.cpp:607-619 | the loop prints the items with commas between them |
| Json.WriteMember | src/Common/JsonValue.cpp:629-643 | one member |
| Json.WriteMembers | src/Common/JsonValue.cpp:629-643 | the loop prints the members in the order of their keys |
| Json.InsertMeans | src/Common/JsonValue.cpp:858-915 | assigning a member of an object keeps the others and replaces the one with its key |
| Json.BuildMeans | src/Common/JsonValue.cpp:858-915 | the members of an object are the keys read, each with the value that was read last for it |
| Json.ObjectMeans | src/Common/JsonValue.cpp:858-915 | so for every object that is read |
| JsonGrammar.ParseExact | src/Common/JsonValue.cpp:663-943 | a text is read as a value, leaving a rest, if and only if it is the text of a syntax tree of that value with that rest behind it; a number takes every digit and dot there is |
| JsonGrammar.RefusedExact | src/Common/JsonValue.cpp:663-943 | a text is refused if and only if no tree has it |
| JsonGrammar.TreeRead | src/Common/JsonValue.cpp:663-943 | the text of every tree, with white space anywhere it may stand, is read as the value of the tree |
| JsonGrammar.TreeStands | src/Common/JsonValue.cpp:663-943 | whatever is read is the text of a tree |
| JsonGrammar.StringRead | src/Common/JsonValue.cpp:917-943 | characters with a quote only after a backslash are read to the closing quote, without the spaces after a backslash |
| JsonGrammar.KeyRead | src/Common/JsonValue.cpp:871-884 | a key is read without any of its spaces |
| JsonGrammar.NearestInteger | src/Common/JsonValue.cpp:785-856 | the value of an integer text is the 64-bit integer nearest to the number it names |
| JsonGrammar.ListOfThree | src/Common/JsonValue.cpp:607-619 | items are printed between brackets with commas and nothing else |
| JsonGrammar.RecordOfTwo | src/Common/JsonValue.cpp:629-643 | members are printed between braces, each a quoted key, a colon and its value |
| JsonGrammar.WordsAndQuotes | src/Common/JsonValue.cpp:620-657 | how the words, integers and strings are printed |
| Http.BuiltConsistent | src/HTTP/HttpResponse.cpp:56-80 | whatever the setters build has the length header exactly when it has a body, with its length |
| Http.Walk | src/HTTP/HttpResponse.cpp:85-87 | walking the map lists every name once, in the order of the names |
| Http.SqueezeSame | src/HTTP/HttpParser.cpp:152-176 | a value keeps all its characters if and only if no colon in it has a space after it |
| Http.FieldRead | src/HTTP/HttpParser.cpp:147-183 | a printed line gives its name and its value without such colons |
| Http.HeadersRead | src/HTTP/HttpParser.cpp:134-196 | the lines of any list of names are read in turn up to the empty line |
| Http.NamelessRefused | src/HTTP/HttpParser.cpp:158-160 | a header without a name stops the parser wherever it stands |
| Http.HeadersPlain | src/HTTP/HttpParser.cpp:134-196 | no name that is read has a colon or a carriage return, no value a carriage return |
| Http.KeptIsSafe | src/HTTP/HttpParser.cpp:134-196 | headers that are read back as they were written are safe |
| Http.SafeIsKept | src/HTTP/HttpParser.cpp:134-196 | safe headers are read back over what the map had |
| Http.UnsignedOfText | src/HTTP/HttpParser.cpp:198-206 | the library's reader undoes the decimal text of a length |
| Http.BodyRead | src/HTTP/HttpParser.cpp:198-217 | with a length header that reads as the length of the body exactly the body is read |
| Http.BareError | src/HTTP/HttpParser.cpp:65-112 | an error without a body keeps the length of the error text and takes that many bytes of what follows, or fails for want of them |
| Http.ReplyRoundTrip | src/HTTP/HttpParser.cpp:65-112 | any response, printed and followed by anything, is read back and leaves exactly that, if and only if it has the server header and a length header in step with its body, its headers are safe and an error has a body |
| Http.SafeReplyRead | src/HTTP/HttpParser.cpp:65-112 | whatever its length header says, a response with safe headers is read with the body that the header and the status announce, and its length is rewritten |
| Http.ReceivedConsistent | src/HTTP/HttpParser.cpp:65-112 | whatever is received has a length header in step with its body |
| Http.HandSetLength | src/HTTP/HttpResponse.cpp:69-80 | a length set by hand to +3 comes back as 3 |
| Http.BuiltRoundTrip | src/HTTP/HttpResponse.cpp:56-95 | the same for every sequence of setter calls; the length is in step unless a call sets it by hand |
| Http.MessageRoundTrip | src/HTTP/HttpRequest.cpp:38-72 | any request is delivered with its added host, leaving what follows, if and only if its address is one word, its headers are safe and its length header reads as the length of its body |
| Http.BuiltMessageAgrees | src/HTTP/HttpRequest.cpp:38-53 | whatever the setters of a request build has the length header exactly when it has a body, with its length |
| Http.BuiltMessageRoundTrip | src/HTTP/HttpRequest.cpp:38-72 | the same for every sequence of setter calls; the length reads right unless a call sets it by hand |
| HttpStream.Input.ReadWord | src/HTTP/HttpParser.cpp:115-132 | the loop reads the word and its terminator, or throws as specified |
| HttpStream.Input.ReadLine | src/HTTP/HttpParser.cpp:69-85 | so does the loop over the status line |
| HttpStream.Input.ReadNameAndValue | src/HTTP/HttpParser.cpp:147-178 | the loop with its name flag splits the line as specified |
| HttpStream.Input.ReadHeader | src/HTTP/HttpParser.cpp:147-196 | one line, and the empty line if it follows |
| HttpStream.Input.ReadHeaders | src/HTTP/HttpParser.cpp:134-145 | all lines into the map, the last one too |
| HttpStream.Input.ReadBody | src/HTTP/HttpParser.cpp:198-217 | exactly the announced bytes, or the error for a bad length or a short stream |
| HttpStream.WriteLines | src/HTTP/HttpResponse.cpp:85-87 | the loop prints the lines in the order of the map |
| HttpStream.Response.constructor | src/HTTP/HttpResponse.cpp:56-59 | status 200 and the server header |
| HttpStream.Response.SetStatus | src/HTTP/HttpResponse.cpp:61-67 | sets the status and, for an error, its text as body; stays consistent |
| HttpStream.Response.AddHeader | src/HTTP/HttpResponse.cpp:69-71 | sets the header; stays consistent unless it is the length |
| HttpStream.Response.SetBody | src/HTTP/HttpResponse.cpp:73-80 | sets body and length, or removes the length; becomes consistent |
| HttpStream.Response.Print | src/HTTP/HttpResponse.cpp:82-95 | prints the text of the response |
| HttpStream.Request.AddHeader | src/HTTP/HttpRequest.cpp:38-40 | sets the header; the length still agrees unless it is the length |
| HttpStream.Request.SetUrl | src/HTTP/HttpRequest.cpp:51-53 | sets the address and nothing else |
| HttpStream.Request.SetBody | src/HTTP/HttpRequest.cpp:41-49 | sets body and length, or removes the length; the length then agrees |
| HttpStream.Request.Print | src/HTTP/HttpRequest.cpp:55-72 | prints the text of the request, with a host if it names none |
| HttpStream.ReceiveResponse | src/HTTP/HttpParser.cpp:65-112 | fills the object as specified or throws the specified error |
| HttpStream.ReceiveLines | src/HTTP/HttpParser.cpp:89-98 | the header loop into the response |
| HttpStream.ReceiveRequest | src/HTTP/HttpParser.cpp:48-62 | fills the object as specified or throws the specified error |
| HttpText.ReplyText | src/HTTP/HttpResponse.cpp:82-95 | the first line of a response spelled out for each status, then the header lines, the empty line and the body |
| HttpText.MessageTexts | src/HTTP/HttpRequest.cpp:55-72 | so for a request, with the host line spelled out that is added if it names none |
| HttpText.LinesText | src/HTTP/HttpResponse.cpp:85-87 | a header line is the name, a colon, a space, the value and a line end |
| HttpText.FixedReplies | src/HTTP/HttpResponse.cpp:24-59 | the server header of a fresh response and the two error texts, spelled out |
| HttpText.BodySet | src/HTTP/HttpResponse.cpp:73-80 | setting the body sets or removes the length, in decimal, and changes no other header |
| HttpText.StatusSets | src/HTTP/HttpResponse.cpp:61-67 | an error status sets its text as the body, and 200 changes nothing else |
| HttpText.StatusWords | src/HTTP/HttpParser.cpp:37-46 | exactly which texts are read as which status |
| HttpText.WordExact | src/HTTP/HttpParser.cpp:115-132 | a word is read if and only if it stands before a space or a line end |
| HttpText.WordRefused | src/HTTP/HttpParser.cpp:115-132 | exactly when a word fails for the end of the stream and when for a broken line end |
| HttpText.LineExact | src/HTTP/HttpParser.cpp:69-85 | the status text is read if and only if it stands before a line end |
| HttpText.LineRefused | src/HTTP/HttpParser.cpp:69-85 | which error is given when it is not |
| HttpText.ValueExact | src/HTTP/HttpParser.cpp:147-178 | a header value is read if and only if a text before a line end is kept as it |
| HttpText.NameOnly | src/HTTP/HttpParser.cpp:147-178 | a line without a colon is a name with an empty value |
| HttpText.SpaceOptional | src/HTTP/HttpParser.cpp:147-178 | the space after the colon may be missing |
| HttpText.FieldExact | src/HTTP/HttpParser.cpp:147-183 | a header line is read if and only if it is a name alone, or a name, a colon, perhaps a space, and a text before a line end |
| HttpText.FieldRefused | src/HTTP/HttpParser.cpp:147-183 | exactly which error is given for a line that is not read: an empty name, a broken line end, or the end of the stream |
| HttpText.ValueRefused | src/HTTP/HttpParser.cpp:147-183 | which of the last two it is for the value |
| HttpText.BodyExact | src/HTTP/HttpParser.cpp:198-217 | a body is read if and only if it stands there with the announced length, none if none is announced; a bad length is its own error |
| HttpText.StatusRefused | src/HTTP/HttpParser.cpp:37-87 | a status that is not known is refused, whatever follows |
| HttpText.BrokenValue | src/HTTP/HttpParser.cpp:147-183 | a carriage return without a line feed after a value is refused |
| HttpText.BrokenEnd | src/HTTP/HttpParser.cpp:178-196 | so is one after the last header line |
| HttpText.UnsignedMeans | src/HTTP/HttpParser.cpp:198-206 | the length that a header gives: spaces, a sign and digits, modulo 2^64 after a minus sign, refused from 2^64 on |

## Left out

- Curve and field arithmetic and its tables: the group laws, canonical encodings of 32 bytes in both directions, the prime order of a base point that is not zero and the cofactor eight are assumed of a parameter; the discrete logarithm is not modelled.
- Compression and round functions of the hashes (BLAKE-256, Groestl, Keccak, AES): parameters; only buffering, padding and counters are modelled.
- The 224-bit BLAKE variants: the same code with other constants.
- Groestl.State.Update: the length in bits is a 64-bit word, so a piece has fewer than 2^61 bytes.
- BLAKE-256 lengths in bits that are not whole bytes, and a salt: no caller uses them.
- Groestl input that ends inside a byte: no caller uses it.
- Blake256.HmacHash: the key and the padded message are taken to be below 2^64 bits, the longest message the counter can count.
- ChaCha8.Encipher: nothing is said of the output when it starts inside the input beyond its start and the input is longer than a block, as blocks are then written over input still to be read.
- Json.PrintParse: values with a floating-point number are not modelled, because their text comes from the library.
- Json.ParseGood: texts with a floating-point number, which the source accepts, are a failure of the model with its own reason.
- Json.ParsePrintParse: the same texts are outside it.
- Json.Stream.ReadNumber: a number with a dot is that failure; its exponent is not read.
- Premature end of input in the JSON reader is a failure; what the source does there depends on an uninitialised character.
- JSON values and HTTP text are sequences of characters without an encoding.
- STREAM_NOT_GOOD in the HTTP parser: the modelled stream can only run out.
- ChunkedGrammar.ContentExact: a size line with a chunk extension has no content here, although the reader skips it.
- Chunked.ReadWellFormed: chunk extensions and a Content-Length beside the chunks are not modelled; a content of 2^32 bytes or more, or a copy beyond the received bytes, has the outcome Undefined, without saying what the source then does.
- The header-line scan, sockets, SSDP and SOAP of miniupnpc: network plumbing.
- BlockingQueue.NobodyForgotten: a safety statement; that a woken thread is eventually scheduled is up to the system.
- Move constructors, destructors and assignment of Event and Latch: they only assert that nobody waits.
- Varint.StreamReadVarint: the fixed-width and partial reads of StreamTools.cpp are not modelled; a stream is the bytes it will deliver.
- Shuffle.Generator.Next: the distribution of the random choice is a parameter, so uniformity is not stated beyond the one-to-one correspondence of choices and permutations.
- Logging, console, command line, file-system and signal code, the in-process node and the interface headers: user interface and wrappers with easy members only.
