# A model of the host's algorithms and protocols

The repository is a Node-compatible host written in Go, with parts of it in JavaScript held in Go string constants. This
project models the parts that are algorithms or protocols of their own, and proves what they promise. It has one module
per source component, and helper modules for byte strings, arithmetic and matchings. Code that updates state in place is
modelled as classes, arrays and methods with loops, and its contracts tie the new state to a mathematical function or
relation. Code that is recursion by cases is modelled as functions. What the functions of a specification mean is stated once
more without them: by the formulas of the standard the code follows, position by position, or by laws of what a caller
can observe. The modules named after a standard, and `AsyncReads`, `CipherRuns`, `DeepMeaning`, `GlobText` and
`HttpHistory`, hold these statements.

| component | modules |
|---|---|
| Argon2 memory fill and variable-length hash | `Argon2`, `Argon2Standard`, `Argon2Parallel`, `Blake2bHash` |
| strict deep equality | `DeepValues`, `DeepMeaning`, `DeepLaws`, `DeepExact`, `DeepArrays`, `DeepAnswer`, `DeepOrder`, `DeepEqual`, `Matching`, `GreedyMatching` |
| async context | `AsyncContext`, `AsyncReads` |
| ECDSA over secp256k1, point encodings, RSA-PSS | `NumberTheory`, `Ecdsa`, `EcPoint`, `Pss` |
| cipher modes, AES key wrap, SM3 | `BlockCiphers`, `CipherModes`, `CipherRuns`, `CipherContext`, `StreamModes`, `StreamStandard`, `KeyWrap`, `KeyWrapStandard`, `Sm3`, `Sm3Standard` |
| line diff, glob | `LineDiff`, `PrintDiff`, `GlobMatch`, `GlobWalk`, `GlobText` |
| IPC channel, child processes, keep-alive, UDP handles | `IpcFraming`, `IpcChannel`, `ChildProcess`, `KeepAlive`, `Dgram` |
| HTTP responses, buffered streams, event iterator | `HttpResponse`, `HttpHistory`, `StreamBuffer`, `EventIterator` |
| shared | `Arith`, `Bytes`, `Wrappers` |

## What is taken as given

- The block compression of Argon2, Blake2b, SM3's compression and all other hashes are arbitrary functions with the right
  output length.
- A block cipher is an arbitrary pair of functions that are inverse to each other on blocks.
- The curve of `Ecdsa` is an arbitrary group (associative, with a neutral element) with a base point of prime order; that
  only multiples of the order annihilate the base point, that primes divide a factor of a product, and that inverses
  exist is proved. `EcPoint` works over any odd prime field; the library's square root finds a root whenever there is one.
- Raw RSA is a pair of functions of which the public one undoes the private one below the modulus.
- Turning an argument into bytes or header values runs no code of the program.
- Random numbers, clocks and the scheduler are inputs: a theorem about a step system holds for every list of steps, and
  so for every interleaving. Listeners that call back into an object while it emits are inputs too.

## What was found

- Strict deep equality is not symmetric on every pair of objects. It is an equivalence on the values called tidy, and
  `DeepArrays.SymmetryExactly` gives the exact condition: at an object with tidy insides the comparison with tidy partners
  is symmetric if and only if the object is regular or equals only itself (see the next point). Regular means that its
  `Symbol.toStringTag` does not disguise it (an array, an Error or a wrapper object tagged "Object"; a WeakMap or WeakSet
  not tagged "Object"), and further:
  - an object that is not an array has no non-enumerable symbol key;
  - in an array without holes that has enumerable extra keys, an extra key is hidden exactly when its value is undefined,
    because only the extra keys of the left argument are looked up (`comparisons_shim.go`, line 92, passes `keys1`); so
    `[]` with `x: undefined` equals `[]` with `y: 1`, but not the other way round (`DeepArrays.ArrayExtraKeyAsymmetry`);
  - a sparse array with a hidden name has no enumerable name, and not both an enumerable symbol and an element past a
    hole, because only the numbers of string keys and of extra keys are compared.
- It is not reflexive up to copying either, because some data is compared with `!==`, under which NaN differs from itself:
  two invalid Dates are never equal (`DeepOrder.InvalidDatesDiffer`), nor are two Errors whose message or name is NaN, or
  two RegExps whose `lastIndex` is. `DeepExact.CopyEqualExactly` gives the exact condition: a copy of a tidy value that is
  made of new objects is equal to it if and only if the comparison reaches no such object.
- So greedy matching of Set members and Map entries can fail although they can be paired, depending on the order in which
  they were inserted. `DeepOrder.OrderMatters` gives two Sets, and `DeepOrder.OrderExactly` says exactly when the order
  plays no part: when no pairing exists or the comparison of the members is difunctional, as it is when they are tidy.
  Outside Sets and Maps no order matters: `DeepOrder.AcceptsIsEqual` needs tidy values only inside them, and
  `DeepEqual.IsDeepStrictEqual` says what is answered for all other values too.
- PSS with salt length 0 signs with the longest salt and verifies only an empty one. `Pss.SignThenVerify` states exactly
  when a signature is accepted under the option it was made with. A verifier that is told "equals the hash", or given any
  other negative length, accepts every salt length (`Pss.PssVerify`).
- A pattern ending in `**` matches a file with zero parts in `globMatchParts` but not in the walker
  (`GlobWalk.TrailingGlobsNeedDirectory`); `GlobWalk.FsGlob` characterises the walker.
- A hybrid point with the wrong parity byte is accepted, and only then does re-encoding change it
  (`EcPoint.ReencodingRestores`). A point with y = 0 makes the round trip like any other.
- `printDiff` drops equal lines beyond the fifth at the end of a diff without reporting it
  (`PrintDiff.TrailingLinesDropSilently`).
- The padded key wrap of 2^32 bytes or more cannot be unwrapped, because the length field wraps
  (`KeyWrap.UnwrapPadOfWrapPad`); an advanced IPC message of that size is not read back either
  (`IpcFraming.OnlyFittingRoundTrips`).
- `send` looks at the channel before it serializes the message, and not again before it queues the frame. Serializing runs
  code of the user, such as `toJSON`, and if that disconnects, the frame is written to a closed channel, which ends the
  process, and an external operation has begun that never ends: `IpcChannel.DisconnectWhileSerializing`, with
  `process.send({ toJSON() { process.disconnect(); return 1; } })`. `IpcChannel.CrashExactly` and
  `IpcChannel.Channel.Run` say exactly when: if and only if some send was called on the open channel, its message
  serializes, and a disconnect is among what runs meanwhile.
- An emission walks a copy of the listener list (`events.go`, line 149; `emitter.go`, lines 447-450), so the async iterator's
  handler is called even if a listener in front of it has just ended the iteration, and the handler does not ask. A
  value then comes behind the end (`EventIterator.ValueAfterTheEnd`). `EventIterator.LeadsExactly` and
  `EventIterator.Run` give the exact condition: values lead in every run with an emission if and only if no listener in
  front of the iterator's ends the iteration during it. No event is lost or reordered either way.
- Two comments promise something else than the code does, and the model follows the code. The one on `setStore`
  (`async_context.go`, lines 188-190) speaks of a returned handle for restoring; nothing is returned, and the JavaScript
  side restores with the store it read before. The one in `keyCheck` (`comparisons_shim.go`, line 170) says that a pair
  already being compared counts as equal; the code compares the two recorded depths, and on acyclic values that branch
  is never reached (`DeepEqual.WithMemo`).

## Model

| member | source | states |
|---|---|---|
| Argon2.RoundMemoryValid | internal/host/crypto_argon2.go:39-43 | the rounded memory is a valid layout: a multiple of four slices per lane with at least two blocks each |
| Argon2.RoundMemoryExactly | internal/host/crypto_argon2.go:39-43 | for every thread count, the rounded memory is a valid layout if and only if the 32-bit products do not wrap, that is below 2^29 threads |
| Argon2.PhiOffsetInWindow | internal/host/crypto_argon2.go:201-206 | for every 64-bit draw and window of at least one block the subtraction does not underflow and the result is one of the window's blocks |
| Argon2.WindowShape | internal/host/crypto_argon2.go:184-199 | the reference window has at least one block in every state, and exactly the size the standard prescribes for the pass, slice, lane and index |
| Argon2.NothingWraps | internal/host/crypto_argon2.go:180-206 | no sum, difference or product of the index arithmetic leaves its 32 or 64 bits |
| Argon2.IndexAlphaUnwrapped | internal/host/crypto_argon2.go:180-206 | the column chosen is the block of the window that the draw points at, counted round the lane |
| Argon2.ReferenceBlock | internal/host/crypto_argon2.go:180-206 | the reference block lies in the reference lane, is already written in pass 0, is outside the slice being filled when the lane differs, and is neither the current nor the previous block |
| Argon2.StepPlaces | internal/host/crypto_argon2.go:130-134 | the written block and the previous one are in the memory and in the own lane, at the standard's columns, and differ |
| Argon2.StepBlocks | internal/host/crypto_argon2.go:130-151 | the three blocks of a step are in the memory and all different |
| Argon2.ProcessSegment | internal/host/crypto_argon2.go:105-153 | the in-place loop over a segment leaves the memory that folding the step over its indices gives, with the address blocks refreshed as needed |
| Argon2.ProcessBlocks | internal/host/crypto_argon2.go:101-161 | all passes and slices, lanes taken in order, leave the memory of the sequential specification |
| Argon2Standard.DrawIsStandard | internal/host/crypto_argon2.go:105-143 | Argon2i, and Argon2id in the first two slices of the first pass, draw a word of the address block of pass, lane, slice, memory, time, mode and counter, whatever is in the memory; in every other case the draw is the first word of the previous block |
| Argon2Standard.StepIsStandard | internal/host/crypto_argon2.go:130-206 | a step writes the mix of the current block, the one before it round the lane, and the block that the draw points at: its lane by the high half modulo the lanes, its column by the formula of section 3.4.2 of RFC 9106 |
| Argon2Standard.FillIsStandard | internal/host/crypto_argon2.go:101-161 | the sequential fill takes a step for every block of every pass but the two that exist, in the order of passes, slices, lanes and indices |
| Argon2Parallel.StepIsPrivate | internal/host/crypto_argon2.go:105-161 | a step writes a block of its own lane and slice, and reads only that part or blocks outside the slice being filled |
| Argon2Parallel.NoRace | internal/host/crypto_argon2.go:150-158 | of two lanes filled at once neither writes what the other reads or writes |
| Argon2Parallel.MicroStepInv | internal/host/crypto_argon2.go:150-158 | every interleaved load or store of concurrent lanes keeps the invariant that each lane has what it would have alone |
| Argon2Parallel.FillAgrees | internal/host/crypto_argon2.go:150-161 | filling lanes one after another gives every lane what it gets alone |
| Argon2Parallel.ParallelEqualsSequential | internal/host/crypto_argon2.go:150-161 | every finished interleaving of the lanes of a slice gives the memory of any sequential lane order |
| Argon2Parallel.EveryRunCanFinish | internal/host/crypto_argon2.go:150-161 | no schedule gets stuck: each can be continued until every lane has finished |
| Argon2Parallel.SomeParallelFill | internal/host/crypto_argon2.go:101-161 | from any memory there is a parallel run of any number of slices |
| Argon2Parallel.ParallelFill | internal/host/crypto_argon2.go:101-161 | by slices and passes, every parallel run ends in the memory of the sequential fill |
| Blake2bHash.Blake2bHash | internal/host/crypto_argon2.go:210-247 | the loop that fills the output in place computes the variable-length hash of section 3.3 of RFC 9106 |
| Blake2bHash.HashIsStandard | internal/host/crypto_argon2.go:210-247 | that hash is one digest up to 64 bytes, and else the first halves of a chain of digests and one more of the 33 to 64 bytes left |
| Blake2bHash.PrefixIsLittleEndian | internal/host/crypto_argon2.go:221-222 | the length prefix has the lowest byte first |
| LineDiff.SameLineIsNotTransitive | internal/host/assert.go:34-36 | with the comma tolerance equal lines are no equivalence, which is why the diff is proved for any relation |
| LineDiff.SameLineIs | internal/host/assert.go:34-36 | lines are the same if equal, or with the option if one is the other and a comma |
| LineDiff.SidesAppend | internal/host/assert.go:44-69 | which of the two inputs an insertion, a deletion and a kept line belong to |
| LineDiff.LcsIsUpperBound | internal/host/assert.go:34-43 | no order-preserving matching is longer than the table entry, for any relation on lines |
| LineDiff.LcsIsReached | internal/host/assert.go:34-43 | some order-preserving matching has exactly that many pairs |
| LineDiff.FillTable | internal/host/assert.go:37-43 | the nested loops fill the table with those maxima |
| LineDiff.Diff | internal/host/assert.go:34-69 | kept and deleted lines spell expected, kept and inserted lines spell actual up to the relation, insertions precede deletions, the kept lines number the maximum, and a line of actual is dropped first as long as that stays so |
| LineDiff.SwappedLines | internal/host/assert.go:59-65 | of two lines that changed places the one that comes first in expected is kept |
| LineDiff.DiffIsOptimal | internal/host/assert.go:34-69 | a diff with that many kept lines keeps as many as any matching could |
| PrintDiff.Print | internal/host/assert.go:71-101 | the rows are exactly those of the rule: every change, five lines of a run of equal ones, behind these two more or the dots and the last one once a change follows; skipped says whether an inner run of eight was collapsed |
| PrintDiff.LongRunAppend | internal/host/assert.go:78-90 | a run becomes a collapsed one exactly when a change follows at least eight equal lines |
| PrintDiff.RunBeforeChange | internal/host/assert.go:71-94 | up to seven equal lines before a change are shown; of eight or more the first five, dots and the last |
| PrintDiff.RunAtEnd | internal/host/assert.go:71-101 | of the equal lines at the end at most five are shown |
| PrintDiff.ChangesShown | internal/host/assert.go:92-94 | every change is shown, in order |
| PrintDiff.AllShown | internal/host/assert.go:78-99 | all lines are shown exactly when no run is collapsed and at most five equal lines end the diff |
| KeyWrap.UnwrapUndoesWrap | internal/host/crypto_cipher.go:678-716 | over any block permutation the unwrap rounds undo the wrap rounds |
| KeyWrap.WrapUndoesUnwrap | internal/host/crypto_cipher.go:678-716 | and the wrap rounds undo the unwrap rounds |
| KeyWrap.WrapCore | internal/host/crypto_cipher.go:678-696 | the in-place wrap loops compute the folded wrap steps |
| KeyWrap.UnwrapCore | internal/host/crypto_cipher.go:698-716 | the in-place unwrap loops compute the folded unwrap steps |
| KeyWrap.UnwrapOfWrap | internal/host/crypto_cipher.go:718-740 | unwrapping a wrapped key gives it back for every length that wrap accepts |
| KeyWrap.WrapOfUnwrap | internal/host/crypto_cipher.go:718-740 | if unwrap accepts a string, wrapping its output gives the string back |
| KeyWrap.UnwrapPadOfWrapPad | internal/host/crypto_cipher.go:742-795 | the padded form round-trips exactly for lengths below 2^32 |
| KeyWrap.WrapPadOfUnwrapPad | internal/host/crypto_cipher.go:742-795 | if the padded unwrap accepts a string, wrapping its output gives the string back |
| KeyWrapStandard.WrapIsStandard | internal/host/crypto_cipher.go:678-727 | the wrap is six rounds over the registers, from the given initial value of eight bytes or the default one, as section 2.2.1 of RFC 3394 steps through them |
| KeyWrapStandard.WrapPadIsStandard | internal/host/crypto_cipher.go:742-762 | the padded wrap fills up with zeros, puts prefix and length in front, and encrypts one register at once or runs the six rounds |
| KeyWrapStandard.UnwrapIsInverse | internal/host/crypto_cipher.go:729-740 | unwrapping a string gives a key exactly if wrapping the key gives the string |
| CipherModes.UpdateAfter | internal/host/crypto_cipher.go:379-403 | after any update the held-back bytes and the chaining block are those of the whole input so far, including the block held back when decrypting with padding |
| CipherModes.BlocksConcat | internal/host/crypto_cipher.go:405-428 | processing two block-aligned pieces in turn is processing their concatenation |
| CipherModes.BlocksInvert | internal/host/crypto_cipher.go:405-428 | the chained decryption of blocks undoes their encryption, for ECB and CBC |
| CipherModes.BlocksChained | internal/host/crypto_cipher.go:405-428 | block by block: CBC output i is the encryption of input i mixed with output i - 1 or the iv, or backwards the decryption mixed with input i - 1 or the iv; in ECB each block stands alone |
| CipherModes.ChunkIndependence | internal/host/crypto_cipher.go:365-403 | the concatenated updates and the final output depend only on the concatenated input, for every split, empty chunks included |
| CipherModes.EncryptSucceeds | internal/host/crypto_cipher.go:480-511 | encryption fails at the end exactly when padding is off and the length is no multiple of the block size |
| CipherModes.EncryptRun | internal/host/crypto_cipher.go:365-403 | a whole encrypting run is the block mode applied to the padded input |
| CipherModes.DecryptRun | internal/host/crypto_cipher.go:365-511 | a whole decrypting run is the block mode applied to the input, with the padding taken off; input that is no whole number of blocks, or empty with padding, is the length error |
| CipherModes.RoundTrip | internal/host/crypto_cipher.go:365-511 | decrypting any split of the ciphertext of any split of a plaintext returns the plaintext |
| CipherRuns.EncryptsStandard | internal/host/crypto_cipher.go:365-511 | every encrypting run, however split, chains the plaintext block by block from the iv, filled up by bytes that tell their number; without padding a ragged length is the error |
| CipherRuns.DecryptsStandard | internal/host/crypto_cipher.go:365-511 | every decrypting run takes the blocks back from the iv and then drops as many bytes as the last one tells, if they fit a block and are all equal to it; which error comes otherwise |
| CipherContext.CipherCtx.RunBlocks | internal/host/crypto_cipher.go:405-428 | the block loop and the updated chaining field are those of the specification, and the output is chained block by block to the input and the field |
| CipherContext.CipherCtx.Update | internal/host/crypto_cipher.go:379-403 | the method returns the specified output and leaves the specified state |
| CipherContext.CipherCtx.Final | internal/host/crypto_cipher.go:480-511 | padding, unpadding and every error case are those of the specification |
| StreamModes.Cfb8Concat | internal/host/crypto_cipher.go:430-446 | CFB8 of a concatenation is CFB8 of the parts with the register carried over |
| StreamModes.Cfb8Inverts | internal/host/crypto_cipher.go:430-446 | CFB8 decryption returns the plaintext and ends in the same register |
| StreamModes.Cfb8Update | internal/host/crypto_cipher.go:430-446 | the in-place register loop computes that function |
| StreamStandard.XorIsBitwise | internal/host/crypto_cipher.go:416 | a bit of an exclusive or is one exactly if the two bits differ |
| StreamStandard.Cfb8IsStandard | internal/host/crypto_cipher.go:430-446 | byte i is masked with the first byte of the encryption of the register, which holds the last bytes of the first register and the ciphertext so far |
| StreamModes.ShiftIsDoubling | internal/host/crypto_cipher.go:448-472 | the register shift is doubling as a big-endian number, with the new bit below and the top bit dropped |
| StreamModes.ShiftAndMask | internal/host/crypto_cipher.go:448-472 | the bit taken by shift and mask is the one at that place of the byte's bits |
| StreamModes.Cfb1Chunks | internal/host/crypto_cipher.go:448-472 | CFB1 outputs of consecutive chunks concatenate to the output of the whole |
| StreamModes.Cfb1Inverts | internal/host/crypto_cipher.go:448-472 | CFB1 decryption returns the plaintext bytes |
| StreamModes.Cfb1Update | internal/host/crypto_cipher.go:448-472 | the byte, bit and shift loops compute CFB1 on the bit stream |
| StreamStandard.ShiftIsStream | internal/host/crypto_cipher.go:463-466 | shifting the register drops its first bit and appends the new one |
| StreamStandard.Cfb1IsStandard | internal/host/crypto_cipher.go:448-472 | bit i is masked with the first bit of the encryption of the register, which holds the last bits of the first register and the ciphertext so far |
| StreamModes.IncCounter | internal/host/crypto_cipher.go:294-297 | the increment moves from one counter block to the next, wrapping in the low 32 bits only |
| StreamModes.CountersDistinct | internal/host/crypto_cipher.go:287-312 | two of 2^32 successive counter blocks are never equal |
| StreamModes.Ctr32.XorKeyStream | internal/host/crypto_cipher.go:299-312 | the buffered key stream is used byte by byte in order, from the position the earlier calls reached |
| StreamModes.KeyedChunks | internal/host/crypto_cipher.go:299-312 | the output does not depend on how the input is split |
| StreamModes.KeyedInverts | internal/host/crypto_cipher.go:299-312 | the same key stream decrypts |
| StreamStandard.KeyedIsStandard | internal/host/crypto_cipher.go:287-312 | byte i is masked with its byte of the encrypted counter block, in which only the last 32 bits count, modulo 2^32 |
| Sm3.PaddingIsInjective | internal/host/crypto_sm3.go:43-53 | below 2^61 bytes different messages pad to different strings |
| Sm3.Hasher.Write | internal/host/crypto_sm3.go:28-41 | after any write the chaining value, the buffer and the counters are those of the whole message so far |
| Sm3.Hasher.PadZeros | internal/host/crypto_sm3.go:47-49 | the padding loop stops, after the number of zeros that the fill count requires |
| Sm3.Hasher.Sum | internal/host/crypto_sm3.go:43-58 | the digest of everything written, appended to the argument, with the receiver unchanged |
| Sm3.Hasher.Clone | internal/host/crypto_sm3.go:26 | an independent object with the same message |
| Sm3Standard.PaddingIsStandard | internal/host/crypto_sm3.go:43-53 | the message is followed by 0x80, zeros, and its length in bits as eight bytes, to whole blocks |
| Sm3Standard.DigestIsStandard | internal/host/crypto_sm3.go:18-58 | the digest is the last value of the chain of compressions from the initial value, word by word, the highest byte first |
| Ecdsa.Curve.NeutralMultiples | internal/host/crypto_asym.go:310-313 | a multiple of the base point is the neutral element exactly when the order divides the scalar |
| Ecdsa.Curve.MulMul | internal/host/crypto_asym.go:309-311 | scalar multiples of scalar multiples multiply the scalars |
| Ecdsa.TruncateThenShift | internal/host/crypto_asym.go:236-247 | dropping whole bytes and then shifting is one shift of the whole hash |
| Ecdsa.HashToInt | internal/host/crypto_asym.go:236-247 | the leftmost bits of the hash, as many as the order has, without reduction |
| Ecdsa.HashIsLeading | internal/host/crypto_asym.go:236-247 | that number times two to the bits cut off is the hash without them |
| Ecdsa.SignatureEquation | internal/host/crypto_asym.go:266-285 | a signature solves the equation of section 4.1.3 of SEC 1, with the nonce-fold base point |
| Ecdsa.SignatureIsUnique | internal/host/crypto_asym.go:266-285 | one nonce has at most one signature |
| Ecdsa.EcSign | internal/host/crypto_asym.go:262-285 | the loop returns the signature of the first draw that has one (section 4.1.3 of SEC 1), and fails only if none has |
| Ecdsa.EcVerify | internal/host/crypto_asym.go:288-316 | a pair is accepted if and only if some nonce signs the digest with it under the matching private key |
| Ecdsa.SignThenVerify | internal/host/crypto_asym.go:262-316 | every signature is accepted under the matching public key, for every digest and every draw of nonces |
| EcPoint.TwoRoots | internal/host/crypto_keys.go:169-176 | a square has only two roots, which add up to the prime |
| EcPoint.RootIsUnique | internal/host/crypto_keys.go:169-176 | and the parity selects one of them |
| EcPoint.DecompressY | internal/host/crypto_keys.go:160-177 | the root of the wanted parity is found whenever there is one |
| EcPoint.NewECPublic | internal/host/crypto_keys.go:130-158 | exactly the encodings of points are accepted, and the result is their uncompressed form |
| EcPoint.PointConvert | internal/host/crypto_asym.go:745-771 | an accepted encoding is turned into the wanted encoding of the same point |
| EcPoint.EncodingDenotes | internal/host/crypto_asym.go:755-770 | each of the three encodings of a point is accepted and denotes that point |
| EcPoint.ReencodingRestores | internal/host/crypto_asym.go:755-770 | re-encoding returns the bytes that were accepted, for the hybrid form exactly when its parity byte was right |
| EcPoint.ConvertThenParse | internal/host/crypto_asym.go:745-771 | converting a point and parsing the result returns the same uncompressed point |
| EcPoint.CurveEquation | internal/host/crypto_keys.go:160-168 | the points solve y^2 = x^3 + b, or x^3 - 3x + b for the NIST curves |
| EcPoint.EncodingBytes | internal/host/crypto_asym.go:755-770 | the first byte names the form and the parity, and the coordinates follow |
| Pss.Increment | internal/host/crypto_asym.go:356-361 | the carry loop counts in four big-endian bytes and wraps |
| Pss.Mgf1Xor | internal/host/crypto_asym.go:343-362 | the buffer is masked in place with the mask of section B.2.1 of RFC 8017 |
| Pss.MaskIsMgf1 | internal/host/crypto_asym.go:343-362 | block k of that mask is the hash of the seed followed by the counter k |
| Pss.MaskedTwice | internal/host/crypto_asym.go:400-402 | masking and clearing the top bits twice gives the block back |
| Pss.TopByte | internal/host/crypto_asym.go:378-402 | an encoded string is below 2^emBits exactly when its first byte has no high bits |
| Pss.EncodingIsSmall | internal/host/crypto_asym.go:378-404 | the encoded integer is always below 2^emBits, and so below the modulus |
| Pss.EncodingIsStandard | internal/host/crypto_asym.go:378-404 | the encoding is put together as section 9.1.1 of RFC 8017 says: hash behind eight zeros, masked block with cleared top bits, hash, 0xbc |
| Pss.SaltLengths | internal/host/crypto_asym.go:378-389 | option 0 takes the longest salt that fits, -1 one as long as the hash |
| Pss.RsaLengths | internal/host/crypto_asym.go:378-405 | encodings have one bit less than the modulus, and signatures as many bytes |
| Pss.DecodesExactly | internal/host/crypto_asym.go:426-447 | a string is the encoding for a salt exactly when its trailer, its unmasked block and its hash say so |
| Pss.EncodingIsInjective | internal/host/crypto_asym.go:390-404 | different salts give different encodings |
| Pss.PssSign | internal/host/crypto_asym.go:378-405 | the signature is the private operation on the encoding for the chosen salt, or the error when it does not fit |
| Pss.PssVerify | internal/host/crypto_asym.go:413-447 | accepted exactly when the signature opens to the encoding of the digest for some salt of an allowed length |
| Pss.SignThenVerify | internal/host/crypto_asym.go:372-447 | a signature is accepted under the same option exactly when the option is not 0 or the longest salt is empty |
| Matching.Exchange | internal/host/comparisons_shim.go:186-194 | in a difunctional relation any related pair may be taken without losing a perfect matching |
| GreedyMatching.GreedyIsSound | internal/host/comparisons_shim.go:186-194 | what a run of greedy deletions pairs is a matching, for any relation |
| GreedyMatching.GreedyFinds | internal/host/comparisons_shim.go:186-194 | on a difunctional relation a greedy run succeeds exactly when there is a matching |
| GreedyMatching.GreedyExactly | internal/host/comparisons_shim.go:186-194 | greedy deletion finds a matching whenever there is one, in every order of both sides, if and only if there is none or the relation is difunctional |
| GreedyMatching.StuckOrder | internal/host/comparisons_shim.go:186-194 | for a relation that is not difunctional, orders in which the run fails |
| DeepMeaning.OnPrimitives | internal/host/comparisons_shim.go:69-83 | a primitive equals itself only |
| DeepMeaning.OnPlainObjects | internal/host/comparisons_shim.go:147-184 | plain objects with enumerable properties: the same prototype, the same keys, equal values |
| DeepMeaning.OnArrays | internal/host/comparisons_shim.go:87-92 | arrays without holes: besides, the same length |
| DeepMeaning.OnData | internal/host/comparisons_shim.go:93-130 | Dates, RegExps, wrappers and buffers: the same data, without a NaN that `===` sees |
| DeepMeaning.OnErrors | internal/host/comparisons_shim.go:99-105 | Errors: the same message and name, and hidden causes and errors on both sides or on none, and equal |
| DeepMeaning.OnCollections | internal/host/comparisons_shim.go:227-287 | Sets and Maps: the members, with a Map's values, can be paired one to one with equal ones |
| DeepLaws.Normal | internal/host/comparisons_shim.go:85-132 | on tidy objects the code's checks amount to a symmetric comparison of heads |
| DeepLaws.SymbolsNormal | internal/host/comparisons_shim.go:147-166 | without hidden symbols the counting shortcut compares the symbol sets |
| DeepLaws.DenseArrayNormal | internal/host/comparisons_shim.go:87-92 | in tidy arrays comparing the left side's extra keys finds exactly the right side's |
| DeepLaws.SparseArrayNormal | internal/host/comparisons_shim.go:295-309 | in tidy sparse arrays the string keys are the same |
| DeepLaws.Symmetric | internal/host/comparisons_shim.go:69-132 | strict deep equality is symmetric on tidy values |
| DeepLaws.Transitive | internal/host/comparisons_shim.go:69-132 | and transitive |
| DeepExact.CloneEqual | internal/host/comparisons_shim.go:69-132 | a structural copy of a tidy value is deeply equal to it, unless the comparison reaches an invalid Date or another object with data that differs from itself |
| DeepExact.CopyEqualExactly | internal/host/comparisons_shim.go:69-132 | if the copy is made of new objects, it is equal exactly when the comparison reaches none of these |
| DeepExact.LonelyUnequal | internal/host/comparisons_shim.go:95-103 | an object whose data differs from itself equals no other object, in neither order |
| DeepExact.DisguisedPartner | internal/host/comparisons_shim.go:86-130 | a disguised object has a plain partner that equals it in one order of the arguments only |
| DeepExact.HiddenSymbolPartner | internal/host/comparisons_shim.go:147-161 | so has an object with a hidden symbol, unless it equals only itself |
| DeepExact.SymmetryOutsideArrays | internal/host/comparisons_shim.go:93-166 | at an object that is not an array the comparison with tidy partners is symmetric if and only if no tag disguises it and it hides no symbol, or it equals only itself |
| DeepArrays.UndefinedPartner | internal/host/comparisons_shim.go:87-92 | an array without holes that has an undefined extra key has a tidy partner that equals it in one order only |
| DeepArrays.HiddenValuePartner | internal/host/comparisons_shim.go:87-92 | so has one with enumerable extra keys and a hidden one that has a value |
| DeepArrays.SparsePartner | internal/host/comparisons_shim.go:295-309 | so has a sparse array whose hidden name can stand in for other keys |
| DeepArrays.SymmetryExactly | internal/host/comparisons_shim.go:85-184 | at every object whose insides are tidy, arrays included, the comparison with tidy partners is symmetric if and only if the object is regular or equals only itself |
| DeepArrays.ArrayExtraKeyAsymmetry | internal/host/comparisons_shim.go:87-92 | two concrete arrays are equal in one order of the arguments only |
| DeepOrder.RelatedIsDifunctional | internal/host/comparisons_shim.go:227-287 | the deep equality of members is difunctional when they are tidy |
| DeepOrder.AcceptsIsEqual | internal/host/comparisons_shim.go:69-316 | on values whose Sets and Maps hold only tidy members, with anything outside of them, the answer of the code is deep equality |
| DeepOrder.OrderExactly | internal/host/comparisons_shim.go:227-287 | the outcome for two Sets or Maps is whether their members can be paired, whatever the iteration orders, if and only if they cannot be paired or the code's comparison of members is difunctional |
| DeepOrder.OrderMatters | internal/host/comparisons_shim.go:227-249 | two concrete Sets with a pairing of their members are answered no, and yes when one is filled the other way round |
| DeepOrder.SymmetryOfAnswers | internal/host/comparisons_shim.go:69-184 | the answers of the code at an object with tidy insides are the same in both orders, for all tidy partners, if and only if the object is regular or equals only itself |
| DeepOrder.InvalidDatesDiffer | internal/host/comparisons_shim.go:95-96 | two invalid Dates are copies of each other, and the answer is no; for one and the same it is yes |
| DeepEqual.SymbolsMatch | internal/host/comparisons_shim.go:147-166 | the symbol part of keyCheck decides whether symbols agree |
| DeepEqual.CompareKinds | internal/host/comparisons_shim.go:86-131 | the branches decide whether the kinds match, with the data compared as `!==` does, and how contents are traversed |
| DeepEqual.ArrayElements | internal/host/comparisons_shim.go:295-309 | the element loop decides the elements, and a hole ends it with the remaining string keys |
| DeepEqual.SetEquiv | internal/host/comparisons_shim.go:227-249 | for all well-formed members: true exactly when the primitives are found and the greedy deletion of the objects, in iteration order and with the code's order of arguments, leaves nothing (DeepOrder says when that is a bijection) |
| DeepEqual.MapEquiv | internal/host/comparisons_shim.go:261-287 | the same for the entries of maps, whose values are compared along with the keys |
| DeepEqual.WithMemo | internal/host/comparisons_shim.go:167-184 | on acyclic values the memo never answers, and what it holds afterwards was there before |
| DeepEqual.ObjectComparisonStart | internal/host/comparisons_shim.go:85-132 | decides the answer for two objects, whatever is inside them |
| DeepEqual.IsDeepStrictEqual | internal/host/comparisons_shim.go:69-83 | the whole comparison decides the answer for all well-formed acyclic values |
| AsyncContext.FrameKept | internal/host/async_context.go:188-197 | code keeps its async and trigger id; only its store can change |
| AsyncContext.OnlyScopeWrites | internal/host/async_hooks.go:197-213 | what nested run, exit, snapshot and resource scopes and callbacks do to a store is undone on return |
| AsyncContext.ScheduledStore | internal/host/async_context.go:68-78 | a callback waits with exactly the store current when it was scheduled, whatever the code does afterwards |
| AsyncContext.HostContext | internal/host/async_context.go:25-33 | work of a host thread starts in the root context if and only if the VM is parked or is in that context itself |
| AsyncContext.LoopFresh | internal/host/async_context.go:78 | over any run of the event loop no two pending callbacks or resources share an id |
| AsyncContext.Runtime.Wrap | internal/host/async_context.go:68-78 | the captured frame has a new id and the current store, or the empty one for a host thread |
| AsyncContext.Runtime.RunWith | internal/host/async_hooks.go:201-213 | installing and restoring the store around a body, thrown or not, is evaluating the body in its own environment |
| AsyncContext.Runtime.Exec | internal/host/async_hooks.go:108-213 | for every program the machine with one mutable frame does what explicit environment passing does |
| AsyncContext.Runtime.RunPending | internal/host/async_context.go:80-95 | a wrapped callback runs in its own frame, and the one before is back afterwards |
| AsyncContext.Runtime.WaitParked | internal/host/async_context.go:56-66 | while the VM waits, work of host threads is scheduled in the root context, and afterwards no longer |
| AsyncContext.Runtime.Loop | internal/host/async_context.go:56-95 | for every order of callbacks, waits and host-thread scheduling, also in the middle of a callback, the machine does what the reference loop does |
| AsyncReads.ReadIs | internal/host/async_hooks.go:191-196 | getStore tells the value of the frame or the default, of a disabled storage nothing, and changes nothing |
| AsyncReads.RunReads | internal/host/async_hooks.go:149-210 | inside run the storage has the value given, and every other storage the value it has outside |
| AsyncReads.NestedRuns | internal/host/async_hooks.go:149-210 | a run inside the run of another storage leaves that one readable |
| AsyncReads.ExitReads | internal/host/async_hooks.go:211-213 | inside exit the storage is undefined, and every other storage has the value it has outside |
| AsyncReads.EnterWithReads | internal/host/async_hooks.go:197-200 | after enterWith the storage has the value given, and every other the one it had |
| AsyncReads.DisableReads | internal/host/async_hooks.go:182-190 | after disable the storage is undefined, and every other has the value it had |
| AsyncReads.SnapshotReads | internal/host/async_hooks.go:170-181 | a snapshot called anywhere later reads, for every storage not disabled, what was read when it was taken |
| AsyncReads.ResourceReads | internal/host/async_hooks.go:103-115 | the scope of a resource reads what was read where it was made, and sees the resource's id |
| AsyncReads.CallbackReads | internal/host/async_context.go:68-95 | a callback reads what the code that scheduled it read, and sees that code's id as the trigger |
| AsyncReads.WaitQueues | internal/host/async_context.go:56-78 | what host threads schedule while the VM is parked queues up in order, in the root context |
| AsyncReads.ThrowStops | internal/host/async_hooks.go:201-210 | nothing behind a throw runs; behind a catch the program goes on |
| AsyncReads.ScopesPassThrows | internal/host/async_hooks.go:170-213 | a throw leaves run, exit, snapshot and resource scopes with the frame outside as it was |
| GlobMatch.GlobMatchParts | internal/host/fs_glob.go:203-227 | decides whether the parts match, `**` standing for any number of parts |
| GlobMatch.DoubleGlobs | internal/host/fs_glob.go:187-191 | two adjacent `**` match what one matches, whatever follows |
| GlobMatch.GlobCompile | internal/host/fs_glob.go:172-199 | collapsing leaves no adjacent `**` and changes neither what is matched nor how the pattern ends |
| GlobWalk.KeyIsInjective | internal/host/fs_glob.go:328-336 | a key string of the guard names one path and one remaining suffix of the pattern |
| GlobWalk.ReportedIsMatched | internal/host/fs_glob.go:203-227 | the walker reports only what matches, and misses only files under a trailing `**` |
| GlobWalk.TrailingGlobsNeedDirectory | internal/host/fs_glob.go:317-360 | walker and matcher differ on a file and a trailing `**` |
| GlobWalk.GlobsTargets | internal/host/fs_glob.go:326-360 | the targets of a `**` are those without it and those below the entries with it |
| GlobWalk.PartTargets | internal/host/fs_glob.go:361-406 | the targets of another segment are those below the entries whose name matches |
| GlobWalk.GlobWalker.Emit | internal/host/fs_glob.go:295-305 | a path is added once, and a file not at all when the pattern asks for directories |
| GlobWalk.GlobWalker.Visit | internal/host/fs_glob.go:328-336 | the guard lets a pair through exactly the first time |
| GlobWalk.GlobWalker.Walk | internal/host/fs_glob.go:317-407 | the walk terminates and adds exactly its targets, although the guard cuts branches that are not finished |
| GlobWalk.FsGlob | internal/host/fs_glob.go:250-263 | over all patterns of ordinary names every wanted path is reported exactly once, with the right kind, and nothing else |
| GlobText.SegmentsMatchText | internal/host/fs_glob.go:172-227 | on the text of a pattern: `**` takes any number of names, an empty part behind the first none, a part with magic one name its expression accepts, any other the name it spells |
| GlobText.WantedIsText | internal/host/fs_glob.go:250-407 | the paths asked for are those in the tree that the parts take, directories only if a slash ends the pattern, and files under a final `**` only if that takes a name |
| GlobText.GlobOnePart | internal/host/fs_glob.go:250-263 | a pattern of one part other than `**` reports exactly the entries of the root whose name it accepts, each once |
| IpcFraming.ParseContinues | internal/host/child_process_ipc.go:154-190 | parsing may stop anywhere: rest and later bytes give the remaining frames |
| IpcFraming.ParseEncoded | internal/host/child_process_ipc.go:85-103 | the encodings of any messages and an incomplete suffix parse to the messages and the suffix, in both formats |
| IpcFraming.OnlyFittingRoundTrips | internal/host/child_process_ipc.go:85-103 | a payload is read back exactly when it has no raw newline, or its length fits four bytes |
| IpcFraming.EncodingBytes | internal/host/child_process_ipc.go:85-103 | a message is its text and a newline, or its length in four bytes, the highest first, and its bytes |
| IpcChannel.Channel.OnData | internal/host/child_process_ipc.go:154-190 | a chunk emits every frame it completes, in order, even if a listener disconnects on the way |
| IpcChannel.StaysOpen | internal/host/child_process_ipc.go:211-222 | code that runs on an open channel leaves it open exactly if no disconnect is in it, inside of serializations included |
| IpcChannel.CrashExactly | internal/host/child_process_ipc.go:256-293 | code writes to the closed channel if and only if it calls send on the open channel with a message that serializes and a disconnect meanwhile |
| IpcChannel.DisconnectWhileSerializing | internal/host/child_process_ipc.go:264-291 | a send whose message disconnects while it is serialized writes to the closed channel |
| IpcChannel.SingleCalls | internal/host/child_process_ipc.go:256-302 | what one send or disconnect does on the open and on the closed channel |
| IpcChannel.FramesInOrder | internal/host/child_process_ipc.go:256-293 | code without a disconnect queues the frames of all its sends, those sent while another serializes before that one's |
| IpcChannel.Channel.Send | internal/host/child_process_ipc.go:256-293 | on a closed channel only an error is scheduled; otherwise the user code of the serialization runs, and then one frame is queued with one operation begun, or written to the channel closed meanwhile |
| IpcChannel.Channel.Perform | internal/host/child_process_ipc.go:256-302 | code that uses the channel, to any depth of serialization, has exactly the specified effect on status, frames and ticks |
| IpcChannel.Channel.WriterStep | internal/host/child_process_ipc.go:105-119 | the writer deals with the oldest frame and ends its operation once |
| IpcChannel.Channel.Run | internal/host/child_process_ipc.go:105-302 | in every schedule the messages emitted are a prefix of those read, before a disconnect by the peer all of them; sends are dealt with once, in order; the closed channel is written to exactly if a fatal send was made, and not at all if neither the listeners nor the outside calls make one on an open channel |
| IpcChannel.Channel.OnlyMessagesRead | internal/host/child_process_ipc.go:154-190 | whoever closes the channel, nothing is emitted that was not read, and in the order read |
| IpcChannel.Channel.AllBeforeDisconnect | internal/host/child_process_ipc.go:146-219 | all complete messages read precede the single disconnect event, and nothing follows it |
| IpcChannel.Channel.NothingLost | internal/host/child_process_ipc.go:154-190 | if the peer sent a list of messages, exactly they are emitted, and the incomplete suffix is kept |
| KeepAlive.Hold.Apply | internal/host/fs_watch.go:34-80 | for any calls the open operation is the one the history decides, and a released hold stays balanced |
| KeepAlive.Hold.DoRelease | internal/host/fs_watch.go:68-80 | true on the first call only, after which begun and ended operations are equal |
| KeepAlive.LastCallDecides | internal/host/fs_watch.go:34-80 | a release ends the hold for good; before it the last of ref and unref decides |
| ChildProcess.SpawnedChild.Run | internal/host/child_process.go:385-546 | in every interleaving exit and close are queued once, behind the end of every stream, and each operation is ended exactly once |
| ChildProcess.SpawnedChild.WaiterQueues | internal/host/child_process.go:494-521 | exit is queued only when the wait group is empty |
| ChildProcess.SpawnedChild.WaiterEnd | internal/host/child_process.go:532-541 | after the waiter's last step nothing is owed, whatever ref and unref did before |
| ChildProcess.SpawnedChild.Unref | internal/host/child_process.go:386-396 | idempotent, and without effect after the exit |
| ChildProcess.SpawnedChild.Ref | internal/host/child_process.go:397-407 | idempotent, and without effect after the exit |
| Dgram.Handle.UpdateOp | internal/host/dgram.go:58-69 | an operation is held exactly when referenced, reading, open and bound |
| Dgram.Handle.ReceiverRelease | internal/host/dgram.go:265-270 | under the lock a datagram is held until the handle reads again or is closed |
| Dgram.Handle.ReceiverQueue | internal/host/dgram.go:270-281 | after the lock the datagram is queued, whatever happened to the handle meanwhile |
| Dgram.Handle.Run | internal/host/dgram.go:116-335 | in every interleaving the operation count follows the flags, deliveries are a prefix of what was received, also after close, and a closed handle delivers nothing more |
| HttpResponse.SendingCall | internal/host/http_server.go:619-628 | one sending call adds one item, and only the very first carries the head of that moment |
| HttpResponse.LateHead | internal/host/http_server.go:717-745 | a writeHead after the head was sent changes nothing on the wire |
| HttpResponse.ServerResponse.DoWriteHead | internal/host/http_server.go:717-745 | status and headers change, and the head is queued unless it has been |
| HttpResponse.ServerResponse.DoWrite | internal/host/http_server.go:766-790 | false without effect after the end; otherwise one item with the data |
| HttpResponse.ServerResponse.DoEnd | internal/host/http_server.go:791-833 | the last item is queued once and the channel closed |
| HttpResponse.ServerResponse.Apply | internal/host/http_server.go:595-836 | for any calls the queued items are those of the history, and nothing is queued after the end |
| HttpResponse.Drain | internal/host/http_server.go:462-482 | the wire gets the head of the first item and the data up to the end item |
| HttpResponse.Serve | internal/host/http_server.go:436-487 | the wire carries the headers and status of the first sending call, and the data of all write and end calls in order |
| HttpHistory.HeaderCall | internal/host/http_server.go:641-695 | setHeader replaces the values of one header, appendHeader adds one behind them, removeHeader takes it away, and no other header changes |
| HttpHistory.WriteHeadCall | internal/host/http_server.go:717-745 | writeHead sets each header to its last entry in the list, and does nothing after the end |
| HttpHistory.StatusCall | internal/host/http_server.go:606-614 | the status is 200, or what was last put in the property or given to writeHead; without a number in the property the last code counts |
| HttpHistory.BodyConcat | internal/host/http_server.go:766-833 | the body is the data of the calls in order, and calls behind an end add nothing |
| HttpHistory.BodyOfOne | internal/host/http_server.go:766-833 | write and end calls add their data, other calls nothing |
| StreamBuffer.Stream.Flush | internal/host/emitter.go:565-589 | with a consumer at the start everything buffered goes out, even if listeners re-enter or pause; without one nothing does |
| StreamBuffer.Stream.Perform | internal/host/emitter.go:146-158 | resume empties the buffer, and a late listener gets a flush scheduled |
| StreamBuffer.Stream.Run | internal/host/emitter.go:527-589 | in every run chunks begin emission in arrival order, end comes once and last, and nothing stays behind once a consumer is there |
| EventIterator.SettleOldest | internal/host/events.go:436-451 | settling the oldest waiting call keeps the order of values, the first call that heard of the end, and values before errors and ends |
| EventIterator.Iterator.Next | internal/host/events.go:401-410 | a kept event, then a kept error, then the end; otherwise the call waits |
| EventIterator.Iterator.EventHandler | internal/host/events.go:436-439 | an event is accepted once, by the oldest waiting call or the queue, also after the end |
| EventIterator.Iterator.RemoveAll | internal/host/events.go:430-435 | the listeners go one by one, and what 'removeListener' listeners do in between, ending the iteration included, keeps every queue in order |
| EventIterator.Iterator.ErrorHandler | internal/host/events.go:440-444 | the oldest waiting call is rejected with the error, or the error is kept, in the place of an earlier one that no call has had; then all is over |
| EventIterator.Iterator.CloseHandler | internal/host/events.go:445-451 | the listeners are off and no call is left waiting |
| EventIterator.Iterator.Perform | internal/host/events.go:136-158 | any code with nested emissions: accepted are exactly the events whose emission began with the listeners on, and one is late exactly if the iteration was ended in front of the handler |
| EventIterator.Run | internal/host/events.go:391-452 | in every run the values handed out and kept are the events that reach the iterator, in order; the first call to hear of the end is rejected if an error was reported before; events and calls never wait at once; without a late event no value follows an error or the end |
| EventIterator.ValueAfterTheEnd | internal/host/events.go:436-439 | with return() in a listener in front the two calls get the end and then the event |
| EventIterator.LeadsExactly | internal/host/events.go:149-157 | there is a run with this emission in which a value follows the end, if and only if a listener in front ends the iteration |
| EventIterator.EndsExactly | internal/host/events.go:411-451 | code ends the iteration exactly if one of its steps, however deeply nested, is a return, a throw, an error or a close event |
| EventIterator.AllReach | internal/host/events.go:436-439 | without such a step every event reaches the iterator, in order, and none is late |
| EventIterator.NothingReachesBehind | internal/host/events.go:430-451 | what begins behind such a step reaches the iterator no more; an event during whose emission it comes still does, and is late |

## Left out

- DeepEqual.IsDeepStrictEqual: values are acyclic; typed arrays and views, inherited properties, and own properties that shadow `size` on arrays, sets and maps are not modelled; neither are array elements made non-enumerable.
- DeepArrays.SymmetryExactly: the other argument ranges over tidy values, and the insides of the object are tidy.
- GlobWalk.FsGlob: relative patterns on a tree without symbolic links and dot names, with ordinary names as literal segments; brace expansion, excludes and absolute patterns are not modelled; nor is the order of the reports stated.
- Ecdsa.EcSign: the random source is a finite list of draws, so the loop's termination is not claimed; the curves with a library implementation are not modelled.
- EcPoint.NewECPublic: the library's point test is fixed for reduced coordinates only, and free for others.
- Pss.PssSign: only the branch with its own mask generation hash; the digest is required to have the length of the message hash.
- IpcChannel.Channel.Run: after the write to the closed channel, which is a panic in Go, nothing runs any more; what the process still prints is not modelled.
- IpcChannel.Channel.Send: whether a message serializes, and to what, does not depend on what its user code does meanwhile. The bound of 1024 on the write channel, which can block the sender, is not modelled; the channel's hold is the one of `KeepAlive`.
- HttpResponse.ServerResponse.DoWrite: write called without any argument, and the callbacks of write and end, are not modelled.
- StreamBuffer.Stream.Flush: setEncoding and its decoder are not modelled, so chunks are emitted as they arrived.
- PrintDiff.Print: the message is a list of lines; its prefixes and the final trimming are not modelled.
- ChildProcess.SpawnedChild.Run: a child whose start fails is not modelled; it ends its operation but stays referenced, so a later unref ends one too many.
- CipherContext.CipherCtx.Update: CCM, GCM tags, XTS and the wrap ciphers of the context are not modelled; the two modes are ECB and CBC.
- Argon2: the initial hash, the first two blocks of each lane and the extraction of the key are straight-line code around the modelled hash.
- EventIterator.Run: the emitter is an EventEmitter; nobody but the iterator takes its listeners off; a listener in front that throws leaves an emission that does not reach the iterator, so it is no step of a run.
- EventIterator.Iterator.ErrorHandler: the error is a value that counts as true in JavaScript; an 'error' event without one would be forgotten.
- Async hooks: the init, before, after and destroy callbacks, lazily created resource objects and the disposable scope of withScope are not modelled; a callback that panics in Go is not either, and the context is enabled from the start.
- Loose deep equality, cyclic values, and the formatting of values in messages.
- The Blamka round and SM3's compression round as bit patterns, AES and DES, ASN.1, PEM and X.509.
- Sockets, files, processes and timers themselves: they appear as steps, byte strings or trees.
- The VM, property tables, native function wrappers and argument validation.
