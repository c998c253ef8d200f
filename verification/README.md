# Verified models of DDNet components

A Dafny model of the self-contained algorithms of the DDNet client and of the properties they are written for. Everything
is stated for all inputs, all maps, all runs or all reachable states, as the case may be.

- **Asynchronous log writer.** `AsyncRing` is the growable ring buffer as a class whose abstract value is a byte
  sequence. `AsyncProtocol` is a step machine of any number of client threads and the writer thread, with the lock, the
  counting semaphore, the finish flag and the reference count; its invariant holds after every interleaving, and from it
  follow conservation of bytes, the absence of lost wake-ups, a single free, and termination of the shutdown.
- **SHA-256.** `Fips180` is the definition of FIPS 180-4 on integers, with bitwise operators defined bit by bit in
  `Bits`; `Fips180Constants` derives its constants from the roots of the first primes. `Sha256` is the streaming context
  with its block buffer, both padding branches and the in-place rotating rounds; it yields the standard's digest for
  every way of cutting the message into updates.
- **Text.** `Utf8` and `Utf8Truncation` relate the decoder, the encoder, the checker, copying and truncation to the
  grammar of RFC 3629. `EditDistance` proves the two-row table, kept by parity in a caller's buffer, equal to the
  recursive distance, and that distance equal to the least number of edits. `Base64` is proved against RFC 4648, strictly
  in both directions. `NetAddr` prints IPv6 addresses (RFC 4291, RFC 5952) and prints and parses IPv4 addresses.
- **Tile collision.** `Collision` works on arbitrary tile maps over the reals: boxes, points and lines.
- **Character core.** `CharacterCore` is the hook and jump state machine as a class, with the links between characters
  that hook each other. A tick is stated by cases, state by state and event by event, and properties of runs are proved
  about the function on values that the methods compute.
- **Colour.** `ColorSpace` converts between RGB, HSL and HSV over the reals.
- **Message compiler.** `NetSchema` is the compiler: variables, arrays that overwrite the name of the variable they
  repeat, messages and objects emit lists of code lines. `NetHandler` runs those lines.
- **Smaller structures.** `PacketQueue` is the doubly linked queue of crapnet as a heap structure; `TileSkip` is the row
  skip index of tile layers.

`Arith`, `Reals`, `Bytes` and `Wrappers` hold what several modules share. Octets are integers from 0 to 255; C strings
are octet sequences without zero, read through a function that gives the terminator at the end and nothing behind it.
Unsigned wrap-around is written out where the code relies on it.

## Where the code does less than one might expect

- `AsyncRing.GrowthFitsIff`: the ring grows properly exactly up to 2^31 bytes. From there to 2^32 the doubling loop runs to
  0 and never ends (`AsyncRing.DoublingSucceedsIff`); from 2^32 on the needed size wraps and the loop ends with too small a
  buffer (`AsyncRing.WrappedEndsEarly`).
- `NetAddr.AgreesIff`: the IPv4 parser computes in a 32-bit int. Taking overflow as wrap-around, it accepts a run of digits
  above the maximum when the run comes back into range modulo 2^32; `NetAddr.OverlongAccepted` gives "4294967297.0.0.1",
  read as 1.0.0.1. On all other texts it is right. Signed overflow is undefined in C++; `NetAddr.ParseInt` also says
  exactly when none happens.
- `Utf8.EncodeDecodeIff`: encoding and decoding are inverse exactly for scalar values (and for -1, which encodes to a byte
  that is an error); surrogates are encoded but not decoded.
- `Utf8Truncation.Truncate`: a negative length does not truncate to nothing but copies the whole source.
- `Collision.CompleteIff`: looking at four corners is enough exactly for boxes no larger than a tile.
- `ColorSpace.HslRgbHslIff`: HSL survives the way through RGB exactly for colours with lightness strictly between 0 and 1,
  positive saturation and a hue below 1, and for greys written with hue and saturation 0.
- `ColorSpace.HslHsvHslIff`: HSL survives the way through HSV exactly when lightness is proper and the value is not 0, or
  saturation is 0 at an end of the lightness scale.
- `NetHandler.ObjectValidated`: a validated field is in its declared range exactly when that range is not empty.

## Model

| member | source | states |
|---|---|---|
| `AsyncRing.DoubledValue` | src/base/system.cpp:707-714 | the doubling loop, started at a power of two, walks through the powers of two up to 2^31 and then falls to 0 for good |
| `AsyncRing.DoublingSucceedsIff` | src/base/system.cpp:707-714 | the loop reaches a size with room for `need` bytes exactly when `need` is at most 2^31 |
| `AsyncRing.GrowthFitsIff` | src/base/system.cpp:707-757 | the loop, given the 32-bit sum that the growth branch computes, ends with room for all bytes and one more exactly when their number is at most 2^31 |
| `AsyncRing.WrappedEndsEarly` | src/base/system.cpp:707-757 | when that sum wraps, for any queue below 2^31 and any 32-bit size, the loop ends with a buffer too small for the bytes |
| `AsyncRing.Ring.NextBufferSize` | src/base/system.cpp:707-714 | the loop ends, with a power of two that has room, is not smaller than before and not more than twice what is needed |
| `AsyncRing.StoreContiguous` | src/base/system.cpp:733-745 | one copy at the write position appends to the queued bytes when a byte stays free |
| `AsyncRing.StoreWrapped` | src/base/system.cpp:736-745 | two copies, to the end of the buffer and from its start, append to the queued bytes when a byte stays free |
| `AsyncRing.WindowDrain` | src/base/system.cpp:616-636 | taking from the run that ends at the buffer end and then from the start removes a prefix of the queued bytes |
| `AsyncRing.Ring.constructor` | src/base/system.cpp:668-678 | a new ring is empty and has 8192 bytes |
| `AsyncRing.Ring.BufferPtrs` | src/base/system.cpp:563-578 | the one or two runs, read one behind the other, are the queued bytes |
| `AsyncRing.Ring.BufferLen` | src/base/system.cpp:695-705 | the number of queued bytes |
| `AsyncRing.Ring.WriteUnlocked` | src/base/system.cpp:727-775 | appends exactly its argument, in place when a byte stays free and otherwise in a new buffer; the buffer is never full. The bound on the sum is the exact one of `AsyncRing.GrowthFitsIff` |
| `AsyncRing.Ring.WriteInPlace` | src/base/system.cpp:733-745 | the contiguous and the wrap-around case append exactly the data |
| `AsyncRing.Ring.Grow` | src/base/system.cpp:746-774 | the growth case keeps the queued bytes in order and appends the data |
| `AsyncRing.Ring.Drain` | src/base/system.cpp:615-637 | removes a prefix of min(queued, 65536) bytes and returns exactly that prefix |
| `AsyncProtocol.StepInv` | src/base/system.cpp:580-654 | every step of any thread keeps the invariant on lock, freer, reference count, finish flag and wake-ups |
| `AsyncProtocol.RunInv` | src/base/system.cpp:580-840 | the invariant holds after every interleaving |
| `AsyncProtocol.BytesConserved` | src/base/system.cpp:596-654 | bytes written, then bytes in flight, then bytes queued are all bytes handed in, in lock order |
| `AsyncProtocol.NoLostWakeup` | src/base/system.cpp:606-624 | if the writer is blocked on a count of 0 with work pending and the lock is free, some client is between its unlock and its signal |
| `AsyncProtocol.QuietMeansWritten` | src/base/system.cpp:596-654 | with the writer still there, when no internal step is left it waits and everything handed in is in the file |
| `AsyncProtocol.FreedExactlyOnce` | src/base/system.cpp:580-594 | the struct is freed once both sides have dropped it, at most once, and no step uses it after that |
| `AsyncProtocol.WriterLeavesSettled` | src/base/system.cpp:606-620 | the writer leaves with an empty queue when everything handed in so far is in the file, and the file does not change after that |
| `AsyncProtocol.WriterLeavesWhenAsked` | src/base/system.cpp:608-620 | the writer leaves only after the end of an aio_close or aio_wait, and the file is closed exactly when it leaves after the end of an aio_close; calls are told by the labels of the run alone |
| `AsyncProtocol.FinishFollows` | src/base/system.cpp:816-840 | the finish flag is CLOSE exactly when some aio_close has ended its critical section, and RUNNING exactly when neither an aio_close nor an aio_wait has |
| `AsyncProtocol.WriterFollows` | src/base/system.cpp:608-620 | the writer has left its loop, or is through, exactly when the run holds the label for it |
| `AsyncProtocol.ClientsFollow` | src/base/system.cpp:716-840 | where a client stands is told by its last label and the call it has begun last |
| `AsyncProtocol.ClientNext` | src/base/system.cpp:716-840 | a client signals exactly after the end of a write, close or wait, joins exactly after the signal of a wait once the writer is through, and drops its reference exactly after the end of aio_free |
| `AsyncProtocol.ChunkFits` | src/base/system.cpp:629-645 | a chunk is not empty and at most 65536 bytes, and shorter only if that empties the queue |
| `AsyncProtocol.SignalsCounted` | src/base/system.cpp:622-624 | the semaphore holds the signals given less those used up |
| `AsyncProtocol.ErrorFollows` | src/base/system.cpp:647-652 | the error is the result of the last write stored, 0 before the first |
| `AsyncProtocol.InternalStepProgress` | src/base/system.cpp:596-654 | after a request to finish every step other than beginning a call or handing in bytes brings the end closer |
| `AsyncProtocol.FinishingIsBounded` | src/base/system.cpp:596-654 | so the number of such steps is bounded by the queue and the threads still inside calls |
| `AsyncProtocol.FinishingNeverBlocks` | src/base/system.cpp:806-840 | after a request to finish nothing blocks: when no internal step is left the writer has exited and every call, aio_wait included, has returned |
| `Sha256.ChMatches` | src/base/hash_libtomcrypt.cpp:55 | the three-operation choice function is that of section 4.1.2 of FIPS 180-4 |
| `Sha256.MajMatches` | src/base/hash_libtomcrypt.cpp:56 | the majority function written with `or` is that of section 4.1.2 of FIPS 180-4 |
| `Sha256.ChBits` | src/base/hash_libtomcrypt.cpp:55 | bit by bit, the first word chooses between the other two |
| `Sha256.MajBits` | src/base/hash_libtomcrypt.cpp:56 | bit by bit, the majority of three |
| `Sha256.RotMatches` | src/base/hash_libtomcrypt.cpp:57 | bit `i` of the rotated word is bit `i + n` of the word, counted around modulo 32 |
| `Sha256.SigmaBits` | src/base/hash_libtomcrypt.cpp:59-60 | bit `i` of Sigma0 is the parity of bits `i + 2`, `i + 13`, `i + 22` of the word, of Sigma1 that of `i + 6`, `i + 11`, `i + 25`, counted around |
| `Sha256.SigmasMatch` | src/base/hash_libtomcrypt.cpp:59-60 | Sigma0 and Sigma1 with the amounts of the code are those of section 4.1.2 of FIPS 180-4 |
| `Sha256.GammaBits` | src/base/hash_libtomcrypt.cpp:61-62 | bit `i` of Gamma0 is the parity of bits `i + 7`, `i + 18` around and `i + 3`, of Gamma1 that of `i + 17`, `i + 19` around and `i + 10` |
| `Sha256.GammasMatch` | src/base/hash_libtomcrypt.cpp:61-62 | Gamma0 and Gamma1 with the amounts of the code are the small sigmas of section 4.1.2 of FIPS 180-4 |
| `Fips180.RotrBits` | src/base/hash_libtomcrypt.cpp:57 | a rotation moves every bit down by `n` places, around the end |
| `Fips180.ShrBits` | src/base/hash_libtomcrypt.cpp:58 | a shift moves every bit down by `n` places and brings zeros in |
| `Fips180.BitsOfWords` | src/base/hash_libtomcrypt.cpp:55-62 | and, or, exclusive or and complement work on each of the 32 bits by itself |
| `Fips180Constants.ConstantsAreCubeRoots` | src/base/hash_libtomcrypt.cpp:15-29 | constant `t` is the first 32 bits of the fraction of the cube root of prime number `t`, section 4.2.2 of FIPS 180-4 |
| `Fips180Constants.InitialIsSquareRoots` | src/base/hash_libtomcrypt.cpp:112-124 | word `i` of the first hash value is the first 32 bits of the fraction of the square root of prime number `i`, section 5.3.3 of FIPS 180-4 |
| `Fips180Constants.PrimeIsNth` | src/base/hash_libtomcrypt.cpp:15-29 | entry `t` of the table of primes is the last of the first `t + 1` primes, which are the entries up to it |
| `Fips180Constants.PrimesToAreAll` | src/base/hash_libtomcrypt.cpp:15-29 | below 361 the numbers that none of the first seven primes divides properly are exactly the primes, in order |
| `Sha256.Load32Matches` | src/base/hash_libtomcrypt.cpp:36-39 | shifting and or-ing four octets gives the big-endian word |
| `Sha256.RoundInPlace` | src/base/hash_libtomcrypt.cpp:82-101 | updating two words in place and rotating all eight is one round on the variables a to h, and gives the sums of section 6.2.2 reduced once modulo 2^32 |
| `Sha256.FillSchedule` | src/base/hash_libtomcrypt.cpp:73-79 | the array W is the message schedule of section 6.2.2: the words of the block, then sums of four earlier words |
| `Sha256.ScheduleMatches` | src/base/hash_libtomcrypt.cpp:73-79 | each word of the schedule is loaded from the block or is the sum of four earlier ones with the gammas of the code |
| `Sha256.RunRounds` | src/base/hash_libtomcrypt.cpp:90-102 | the loop over the rotating array runs the 64 rounds of the standard |
| `Fips180.RoundsInTurn` | src/base/hash_libtomcrypt.cpp:90-102 | one round for each word of the schedule, in order |
| `Sha256.CompressInPlace` | src/base/hash_libtomcrypt.cpp:64-108 | one call of sha_compress is the compression of section 6.2.2, feedback included |
| `Fips180.CompressAdds` | src/base/hash_libtomcrypt.cpp:104-107 | the hash value after a block is the one before plus what the rounds give, word by word modulo 2^32 |
| `Sha256.Context.constructor` | src/base/hash_libtomcrypt.cpp:112-124 | a new context has absorbed nothing and holds the initial hash value of section 5.3.3 |
| `Sha256.Context.AbsorbBlock` | src/base/hash_libtomcrypt.cpp:133-139 | the direct branch absorbs one block |
| `Sha256.Context.AbsorbPart` | src/base/hash_libtomcrypt.cpp:140-154 | the buffering branch absorbs its part and leaves fewer than 64 octets in the buffer |
| `Sha256.Context.Process` | src/base/hash_libtomcrypt.cpp:126-156 | absorbs exactly its input and keeps the buffer invariant |
| `Sha256.Context.Update` | src/base/hash_libtomcrypt.cpp:196-199 | absorbs the data; a length of 2^32 or more is narrowed as the call narrows it |
| `Sha256.Context.FinalBlock` | src/base/hash_libtomcrypt.cpp:178-184 | zeros up to octet 56, the length and the last compression |
| `Sha256.Context.PadAndCompress` | src/base/hash_libtomcrypt.cpp:158-184 | both padding branches hash the message padded as in section 5.1.1 |
| `Fips180.PadShort` | src/base/hash_libtomcrypt.cpp:165-184 | with at most 55 octets left over the padding ends in the block they start |
| `Fips180.PadLong` | src/base/hash_libtomcrypt.cpp:165-184 | with more, the length needs a block of its own |
| `Sha256.Context.Output` | src/base/hash_libtomcrypt.cpp:186-188 | the 32 octets are the eight state words, most significant octet first |
| `Sha256.Context.Finish` | src/base/hash_libtomcrypt.cpp:158-206 | the digest of everything absorbed, as FIPS 180-4 defines it, for messages below 2^64 bits; above, the length field is taken modulo 2^64 |
| `Sha256.HashPieces` | src/base/hash_libtomcrypt.cpp:191-206 | however a message is cut into updates, the digest is that of the whole |
| `Utf8.Decode` | src/base/system.cpp:3856-3921 | the decoder yields the code point of the character at the pointer, 0 at the terminator or -1, always moves on by at least one byte and never reads behind the terminator |
| `Utf8.ErrorEndIsLongest` | src/base/system.cpp:3856-3921 | an error takes up one byte or the longest stretch that could have been the start of a character |
| `Utf8.Check` | src/base/system.cpp:3923-3934 | accepts exactly the strings derivable from the grammar in section 4 of RFC 3629 |
| `Utf8.WellFormedIffDerivable` | src/base/system.cpp:3923-3934 | decoding character by character succeeds on exactly the derivable strings |
| `Utf8.DecodedAgrees` | src/base/system.cpp:3856-3934 | an error of the decoder means the string is not well-formed, and a code point leaves the question to the rest |
| `Utf8.Encode` | src/base/system.cpp:3811-3842 | writes exactly the encoded bytes and nothing behind them |
| `Utf8.TailByteValue` | src/base/system.cpp:3819-3838 | `0x80 \| ((chr >> s) & 0x3F)` is 0x80 plus the six bits |
| `Utf8.EncodedValue` | src/base/system.cpp:3811-3842 | the bytes written are a character of the grammar exactly for scalar values (and negative numbers that truncate to ASCII), and denote the number |
| `Utf8.EncodeDecodeIff` | src/base/system.cpp:3811-3921 | for every int and whatever follows, decoding what was encoded gives back number and length exactly for scalar values and for -1 |
| `Utf8.DecodeEncode` | src/base/system.cpp:3811-3921 | encoding the code point of a character gives back its bytes |
| `Utf8.WellFormedRoundTrip` | src/base/system.cpp:3811-3921 | a well-formed string is the encoding of its code points, all scalar values |
| `Utf8Truncation.StrLength` | src/base/system.cpp:2819-2822 | the number of bytes before the terminator |
| `Utf8Truncation.Rewind` | src/base/system.cpp:3773-3782 | steps back to the nearest start byte before the cursor, or to 0 |
| `Utf8Truncation.RewindFindsStart` | src/base/system.cpp:3773-3782 | from inside a character that is its first byte |
| `Utf8Truncation.FixTruncation` | src/base/system.cpp:3784-3799 | cuts off a last character that does not decode, returns the length and touches one byte at most |
| `Utf8Truncation.CutIsRepaired` | src/base/system.cpp:3784-3799 | a well-formed string cut anywhere and repaired is well-formed and has lost less than a character |
| `Utf8Truncation.StrCopy` | src/base/system.cpp:2785-2790 | for a well-formed source leaves the longest prefix of whole characters below `dst_size` bytes and returns its length; for any source the cut and repaired prefix; a size of 0 sets no bound |
| `Utf8Truncation.LongestBelow` | src/base/system.cpp:2785-2790 | no longer prefix of whole characters fits |
| `Utf8Truncation.Truncate` | src/base/system.cpp:2792-2807 | for any source copies up to the last code point start that qualified; for a well-formed one that is the longest prefix of whole characters below `dst_size` bytes with at most `truncation_len` code points; a negative length copies everything |
| `Utf8Truncation.NextBoundary` | src/base/system.cpp:2797-2805 | each turn of the loop moves to the next place between characters and counts one code point |
| `Utf8Truncation.CountGrows` | src/base/system.cpp:2797-2805 | longer prefixes of whole characters do not have fewer code points |
| `Utf8Truncation.LastStopLongest` | src/base/system.cpp:2792-2807 | for a well-formed source the last place the loop stops at ends the longest prefix that qualifies |
| `EditDistance.LevSymmetric` | src/base/system.cpp:3128-3138 | swapping the arguments does not change the distance |
| `EditDistance.LevCell` | src/base/system.cpp:3139-3156 | the recursive equation at one cell of the table of prefixes |
| `EditDistance.OneEdit` | src/base/system.cpp:3149-3154 | one insertion, deletion or replacement moves the distance to anything by at most one |
| `EditDistance.LevIsLowerBound` | src/base/system.cpp:3124-3158 | no sequence of edits is shorter than the distance |
| `EditDistance.LevIsReached` | src/base/system.cpp:3124-3158 | some sequence of edits is exactly as long as the distance |
| `EditDistance.FirstRow` | src/base/system.cpp:3140-3143 | the first row holds the distances from the empty prefix |
| `EditDistance.NextRow` | src/base/system.cpp:3144-3155 | a row computed in place over the row two before holds the distances of its prefix |
| `EditDistance.FillRows` | src/base/system.cpp:3139-3157 | the last cell is the distance, and only the cells of the two rows change |
| `EditDistance.DistBuffer` | src/base/system.cpp:3124-3158 | str_utf32_dist_buffer returns the distance and changes no cell outside the asserted `(a_len + 1) + (b_len + 1)` |
| `EditDistance.ToUtf32` | src/base/system.cpp:3113-3122 | the buffer holds the code points of the string, and nothing before it changes |
| `EditDistance.DistBufferUtf8` | src/base/system.cpp:3160-3178 | the distance of the code points; the carve-up leaves enough cells for both strings and the table |
| `EditDistance.DistUtf8` | src/base/system.cpp:3104-3111 | the allocated buffer is large enough |
| `Base64.EncodedAt` | src/base/system.cpp:3342-3392 | the text of section 4 of RFC 4648 digit by digit: sextet `k` of the data, then padding |
| `Base64.AlphabetIsTable` | src/base/system.cpp:3344 | the digits are the 64 characters of the string in the code |
| `Base64.ValueOfDigit` | src/base/system.cpp:3394-3417 | a character has a digit value exactly if it is in that string |
| `Base64.SixBitsJoin` | src/base/system.cpp:3368-3377 | the four sextets side by side are the 24 bits of the three octets |
| `Base64.LoadedWrap` | src/base/system.cpp:3355-3360 | shifting in an octet with `<<` and `\|` is multiplication and addition modulo 2^32 |
| `Base64.DigitStep` | src/base/system.cpp:3354-3380 | one turn of the loop emits the next sextet and keeps the bits not yet emitted, in 32-bit arithmetic |
| `Base64.Encode` | src/base/system.cpp:3342-3392 | writes the encoding of section 4 of RFC 4648, cut off at `dst_size - 1`, and a terminator |
| `Base64.AssembledIsSum` | src/base/system.cpp:3466 | or-ing the four shifted digits is their weighted sum |
| `Base64.DecodeGroup` | src/base/system.cpp:3436-3482 | one turn of the decoder: the bytes of a group, -1 for a bad digit, -2 for nonzero pad bits |
| `Base64.DecodedTurn` | src/base/system.cpp:3436-3482 | one turn of the decoding loop: its group either decides the outcome or its bytes join those in front |
| `Base64.Decode` | src/base/system.cpp:3419-3486 | -3, -2, the error of the first bad group, or the decoded bytes and their number; nothing behind the buffer changes |
| `Base64.FailCodes` | src/base/system.cpp:3436-3482 | -1 exactly for a text with a character that is neither digit nor padding at its end; every other failure of a group is -2 |
| `Base64.GroupAccepted` | src/base/system.cpp:3436-3482 | an accepted group is the encoding of its bytes |
| `Base64.EncodingAccepted` | src/base/system.cpp:3436-3482 | the encoding of up to three bytes is accepted as those bytes |
| `Base64.AcceptedIsEncoding` | src/base/system.cpp:3419-3486 | every accepted text is the encoding of what was returned |
| `Base64.RoundTrip` | src/base/system.cpp:3342-3486 | decoding an encoding gives back the bytes, for every byte string |
| `Base64.DecodesIff` | src/base/system.cpp:3342-3486 | a text decodes to `x` exactly when it is the encoding of `x` |
| `NetAddr.HexRoundTrip` | src/base/system.cpp:1261 | `%x` prints a numeral with the value of the group and without leading zero |
| `NetAddr.HexIsLower` | src/base/system.cpp:1261 | in lower case, and zero as one digit |
| `NetAddr.FindRun` | src/base/system.cpp:1204-1246 | finds the leftmost longest run of at least two zero groups (section 4.2 of RFC 5952), or none |
| `NetAddr.PartialStep` | src/base/system.cpp:1249-1263 | one turn of the printing loop appends what belongs to the group at hand |
| `NetAddr.ClippedAppend` | src/base/system.cpp:1248-1267 | writing each piece into what is left of a buffer leaves what cutting off the whole text leaves |
| `NetAddr.PrintV6` | src/base/system.cpp:1204-1267 | prints bracket, groups with "::" for exactly the chosen run, bracket and port, cut off where a short buffer ends |
| `NetAddr.PrintedReadsBack` | src/base/system.cpp:1204-1267 | the text between the brackets, read by section 2.2 of RFC 4291, is the address |
| `NetAddr.PrintedCanonical` | src/base/system.cpp:1248-1263 | every group outside the chosen run is one field, in lower case and without leading zeros, and the run is two colons |
| `NetAddr.WholeForm` | src/base/system.cpp:1204-1267 | brackets around the address, and behind them a colon and the port in decimal without leading zeros, if there is one |
| `NetAddr.ReadsUnique` | src/base/system.cpp:1204-1267 | a text denotes at most one address under section 2.2 of RFC 4291, in all three forms |
| `NetAddr.PrintedInjective` | src/base/system.cpp:1204-1267 | different addresses never print alike |
| `NetAddr.PrintedFits` | src/base/system.h:840 | a buffer of NETADDR_MAXSTRSIZE bytes shows the whole text of every address and port |
| `NetAddr.DecRoundTrip` | src/base/system.cpp:1274-1278 | `%d` prints decimal digits with the value of the number and without leading zero |
| `NetAddr.Int32Step` | src/base/system.cpp:1409 | reducing to 32 bits after every digit is reducing once at the end |
| `NetAddr.ParseInt` | src/base/system.cpp:1391-1414 | reads the longest run of digits; the value is that of the run reduced to a 32-bit int, and no step overflows exactly when the run is at most 2^31 - 1 |
| `NetAddr.ParseUint` | src/base/system.cpp:1424-1444 | reads a number whose 32-bit value is between 0 and the maximum, fails otherwise |
| `NetAddr.TakenIff` | src/base/system.cpp:1424-1444 | a run of digits is taken exactly when its value is at most the maximum, or above it and within it modulo 2^32; only in the first case is the value right |
| `NetAddr.ReadOctets` | src/base/system.cpp:1541-1554 | reads four numbers with dots between them, each taken as an octet |
| `NetAddr.FromStr` | src/base/system.cpp:1537-1570 | for a C string that does not start with a bracket: parses address and optional port as the 32-bit arithmetic has it, and fails otherwise |
| `NetAddr.ParsedIff` | src/base/system.cpp:1537-1570 | accepts exactly the texts of four digit runs and an optional port run all of which are taken, with the values the 32-bit arithmetic gives |
| `NetAddr.ShapeUnique` | src/base/system.cpp:1537-1570 | a text has at most one division into four digit runs and a port run |
| `NetAddr.AgreesIff` | src/base/system.cpp:1537-1570 | the parser gives exactly the address a text means, or none, exactly for texts that are not misread: misread are those whose runs are all taken and one of them only because it wraps |
| `NetAddr.MisreadValue` | src/base/system.cpp:1537-1570 | every misread text is accepted although it means no address |
| `NetAddr.OverlongAccepted` | src/base/system.cpp:1391-1570 | "4294967297.0.0.1" means no address and is accepted as 1.0.0.1 |
| `NetAddr.PrintedParses` | src/base/system.cpp:1271-1570 | parsing undoes printing of an IPv4 address; without the port it comes back as 0 |
| `Collision.LineBetween` | src/game/collision.cpp:277-289 | a coordinate between two others at most a tile apart falls into the column or row of one of them, under rounding, truncating division and clamping |
| `Collision.SolidIff` | src/game/collision.cpp:277-290 | a pixel is solid exactly if its tile is a solid or no-hook one; the tiles at the border reach outwards for ever |
| `Collision.RoundNearest` | src/base/math.h:14-18 | a coordinate is rounded to the nearest pixel, half away from zero |
| `Collision.CornersSuffice` | src/game/collision.cpp:464-476 | for boxes up to the size of a tile the corners are all clear exactly when no point of the closed box is solid |
| `Collision.CompleteIff` | src/game/collision.cpp:464-476 | the corners suffice, on all maps and at all places, exactly for boxes no larger than a tile |
| `Collision.SubStep` | src/game/collision.cpp:505-545 | one turn, in the four cases of the box test at the new place and along each axis: taken, slid along the free axis with the other component reflected, or undone with both reflected; and exactly when it lands |
| `Collision.StepIsShort` | src/game/collision.cpp:484-505 | each sub-step is shorter than one unit |
| `Collision.ReflectedShrinks` | src/game/collision.cpp:488-489 | no number of reflections with clamped elasticity makes a velocity component larger |
| `Collision.RestStays` | src/game/collision.cpp:495-510 | leaving the loop early for a body at rest does not change the result |
| `Collision.FreeMove` | src/game/collision.cpp:478-553 | with nothing in the way at any sub-step the body is moved by exactly its velocity |
| `Collision.MoveBox` | src/game/collision.cpp:478-553 | ends where the sub-steps lead, along a path of steps below one unit that is free at each of them if its start is, with each velocity component reflected some number of times and never larger than before; landing needs a vertical reflection. Over a floor the sideways motion is kept whole, beside a wall the vertical one |
| `Collision.FloorMove` | src/game/collision.cpp:478-553 | over a floor: the sideways motion is kept whole, the body lands exactly if it would have reached the floor and bounces at all, and leaves with the reflected fall |
| `Collision.WallMove` | src/game/collision.cpp:478-553 | beside a wall: the vertical motion is kept whole, the sideways one is reflected, and there is no landing |
| `Collision.FloorsAndWalls` | src/game/collision.cpp:464-476 | such floors and walls exist, for boxes of every size |
| `Collision.PathStaysClear` | src/game/collision.cpp:478-553 | for boxes up to the size of a tile no place on the path has a solid point if the first has none |
| `Collision.MovePoint` | src/game/collision.cpp:426-461 | stays or moves by the velocity, never into a solid point, with the reflection and bounce count of each case |
| `Collision.IntersectLine` | src/game/collision.cpp:292-321 | the first solid sample, the one before it and its tile, with samples less than one unit apart; 0 and the end point if none is solid |
| `Collision.SampleEnds` | src/game/collision.cpp:295-302 | the first sample is the start of the line and the last its end |
| `Collision.MapIndexOfPos` | src/game/collision.cpp:807-940 | the middle of a tile maps back to the index of that tile |
| `CharacterCore.CaughtIsNearest` | src/game/gamecore.cpp:295-320 | after the search the hook is on the nearest candidate, the lowest slot among equals, if there is one |
| `CharacterCore.HookTickInv` | src/game/gamecore.cpp:142-409 | a tick keeps the hook state in -1 to 5, and a hooked player implies HOOK_GRABBED |
| `CharacterCore.HookTickTable` | src/game/gamecore.cpp:212-405 | where one tick takes a hook from each state: thrown, flying to a player, to ground, to a no-hook tile, through a teleporter or too far, on its way back, holding a player or the ground |
| `CharacterCore.TickEventsTable` | src/game/gamecore.cpp:179-352 | for each of the seven events, exactly when a tick sets it |
| `CharacterCore.JumpTickTable` | src/game/gamecore.cpp:179-240 | the jump bits and the counter after a tick, and exactly when there is a jump from the ground or in the air |
| `CharacterCore.Character.SetHookedPlayer` | src/game/gamecore.cpp:655-677 | i is attached to j exactly when j hooks i, before and after; nobody else's links change |
| `CharacterCore.Character.HandleJump` | src/game/gamecore.cpp:179-210 | the jump bits, the counter and the events after the jump key |
| `CharacterCore.Character.HandleHook` | src/game/gamecore.cpp:212-231 | the hook after the hook key; links are kept |
| `CharacterCore.Character.CatchPlayer` | src/game/gamecore.cpp:295-320 | ends on the player the search ends on, also when it switches between players; links are kept |
| `CharacterCore.Character.FlyHook` | src/game/gamecore.cpp:265-352 | the flying branch: the nearest player first, then the length; ground is grabbed, a no-hook tile sends the hook back, an open teleporter lets it fly on |
| `CharacterCore.Character.DoHook` | src/game/gamecore.cpp:250-352 | the branch chosen by the hook state |
| `CharacterCore.Character.HoldHook` | src/game/gamecore.cpp:354-405 | the grabbed branch: lost players, counting and the time limit |
| `CharacterCore.Character.TickDeferred` | src/game/gamecore.cpp:474-477 | drops the mark of a teleported hook unless it flies |
| `CharacterCore.Character.HandleInput` | src/game/gamecore.cpp:142-240 | the part of a tick before the hook moves |
| `CharacterCore.Character.Tick` | src/game/gamecore.cpp:142-409 | the whole tick on hook, jump and events, by the tables for every state, event and jump bit; links and hook invariant are kept |
| `CharacterCore.Character.Move` | src/game/gamecore.cpp:494-504 | landing gives the air jump back; links are kept |
| `CharacterCore.Character.Read` | src/game/gamecore.cpp:556-591 | reading makes the sent fields exactly those of the message, so writing gives back what was read; links are kept |
| `CharacterCore.Character.Quantize` | src/game/gamecore.cpp:648-653 | hook, jump and links are as before |
| `CharacterCore.Run` | src/game/gamecore.cpp:142-677 | any characters taking any ticks, deferred ticks, moves and quantizations in any order keep all links and every hook invariant |
| `CharacterCore.NoRelaunch` | src/game/gamecore.cpp:212-231 | a hook that has left the idle state returns to it only through a tick with the key released |
| `CharacterCore.LaunchesSeparated` | src/game/gamecore.cpp:212-231 | two launches are separated by a tick with the hook key released |
| `CharacterCore.GrabbedMeansGround` | src/game/gamecore.cpp:322-336 | along any run a hook that holds on to no player has had a tick in which it reached ground, and has not been thrown since |
| `CharacterCore.LaunchEvent` | src/game/gamecore.cpp:222 | there is a launch event exactly for a launch that is not teleported in the same tick |
| `CharacterCore.HookedTick` | src/game/gamecore.cpp:354-405 | a tick that ends with a player hooked has counted up within the limit; the player is present, may be kept and is the one hooked before |
| `CharacterCore.HookTimeBound` | src/game/gamecore.cpp:397-405 | a player hooked throughout a run of ticks is one and the same, for at most the 60 ticks less what had passed |
| `CharacterCore.OneAirJump` | src/game/gamecore.cpp:179-240 | while never grounded at most one air jump happens, none if it was used up, and the counter counts it |
| `ColorSpace.ChannelsInSector` | src/base/color.h:218-251 | where the second channel stands in a sector of the hue circle, under fmod and truncation |
| `ColorSpace.ChannelsRestored` | src/base/color.h:17-251 | hue and chroma of any three channels give the channels back above the lowest, whatever ties there are |
| `ColorSpace.ChromaRestored` | src/base/color.h:202-221 | saturation times the largest chroma of the lightness is the chroma, also at both grey ends |
| `ColorSpace.RgbHslRgb` | src/base/color.h:202-255 | RGB in range to HSL and back is the identity |
| `ColorSpace.HueRestored` | src/base/color.h:17-251 | the channels of a hue below a full turn and a positive chroma have that hue and that chroma |
| `ColorSpace.FullTurnIsLost` | src/base/color.h:202-255 | a hue of 1 comes back as 0 |
| `ColorSpace.GreyHasNoHue` | src/base/color.h:202-255 | without chroma hue and saturation come back as 0 |
| `ColorSpace.HslRgbHslIff` | src/base/color.h:202-255 | HSL in range to RGB and back is the identity exactly for proper colours with hue below 1 and for greys written with hue and saturation 0 |
| `ColorSpace.HslToRgbIsCss` | src/base/color.h:224-255 | HSL in range to RGB is the conversion that CSS Color Module Level 4 gives by one formula for all channels |
| `ColorSpace.HslHsvHslIff` | src/base/color.h:258-269 | HSL to HSV and back is the identity exactly for proper lightness and a value that is not 0, or saturation 0 at an end |
| `ColorSpace.HslHsvHsl` | src/base/color.h:258-269 | in range it is the identity whenever lightness is strictly between 0 and 1 |
| `ColorSpace.RgbHsvRgb` | src/base/color.h:202-281 | RGB in range to HSV and back is the identity |
| `ColorSpace.HsvMeans` | src/base/color.h:264-281 | RGB in range to HSV gives the highest channel as value, and saturation times value as its distance to the lowest |
| `NetSchema.LinesAppend` | datasrc/datatypes.py:269-286 | the code of a longer list of integers is the code of its parts, in order |
| `NetSchema.SlotsAppend` | datasrc/datatypes.py:236-245 | the integers of a schema are those of its members, one member after the other |
| `NetSchema.SlotsOfMember` | datasrc/datatypes.py:396-435 | a variable is one integer, an array one for every element from the first to the last |
| `NetSchema.NetVariable.Emit` | datasrc/datatypes.py:363-385 | the lines of one integer: packing, unpacking with or without default, checking and clamping |
| `NetSchema.NetArray.Emit` | datasrc/datatypes.py:396-435 | one copy of the lines for every element, in order, whatever name earlier calls left in the variable |
| `NetSchema.EmitNext` | datasrc/datatypes.py:240-245 | the next member adds its lines, and no member changes what the schema says |
| `NetSchema.EmitAll` | datasrc/datatypes.py:269-301 | the lines of all integers of the schema, in wire order |
| `NetSchema.NamesGiveDistinct` | datasrc/datatypes.py:396-402 | members with different names, arrays included, share no struct member |
| `NetSchema.NetMessage.EmitPack` | datasrc/datatypes.py:288-301 | packing code of all integers in order |
| `NetSchema.NetMessage.EmitUnpackMsg` | datasrc/datatypes.py:269-286 | all unpacking before all checking |
| `NetSchema.NetObject.EmitUncompressedUnpackAndValidate` | datasrc/datatypes.py:229-252 | all unpacking before all clamping, over the integers of the base object followed by the object's own; refused exactly when a size is not checked and a member has no default |
| `NetHandler.RunAppend` | datasrc/compile.py:293-320 | running code is running its parts, and a failed check ends both |
| `NetHandler.PackPhase` | datasrc/datatypes.py:292-296 | packing writes one integer per field, in order |
| `NetHandler.UnpackPhase` | datasrc/datatypes.py:363-373 | unpacking gives each field its integer or default, and fails exactly when a field without default lies behind the end |
| `NetHandler.Frame` | datasrc/datatypes.py:363-385 | the emitted code writes no struct member but its own |
| `NetHandler.CheckPhase` | datasrc/datatypes.py:384-385 | the checks change nothing and stop at the first field out of range |
| `NetHandler.AcceptedIff` | datasrc/datatypes.py:269-286 | a message is accepted exactly when it is long enough and every integer it gives is in range; then those are the values |
| `NetHandler.FailedOnFirst` | datasrc/datatypes.py:384-385 | a refused message names the first field out of range |
| `NetHandler.PackUnpack` | datasrc/datatypes.py:269-301 | packing, unpacking and checking give back the same values, accepted exactly when they are in range, whatever was in the buffer and whatever follows |
| `NetHandler.PackAndUnpack` | datasrc/datatypes.py:269-301 | the code a message emits, run: for a struct with different member names all values come back, accepted exactly when they are in range |
| `NetHandler.ValidatePhase` | datasrc/compile.py:151-156 | every value is clamped into its range and every value out of range counted once |
| `NetHandler.ObjectValidated` | datasrc/datatypes.py:229-252 | whatever arrives, each validated value is in its range exactly when the range is not empty |
| `NetHandler.ObjectCorrected` | datasrc/datatypes.py:229-252 | an object that does not end early gets clamped integers, as many corrections as integers out of range, and the name of the last of them |
| `NetHandler.ClampedIsNearest` | datasrc/compile.py:151-156 | clamping gives the nearest value of the range |
| `NetHandler.DefaultsNeverStarve` | datasrc/datatypes.py:240-243 | an object whose size is not checked can be cut off anywhere without an error |
| `NetHandler.UnpackAndValidate` | datasrc/datatypes.py:229-252 | the code an object emits, run on anything: every value is in its range unless that is empty; without a size check nothing is an error. If the data does not end early, the first integers go clamped to the members of the base object and those behind them to the object's own, with one correction per integer out of range |
| `PacketQueue.Crapnet.constructor` | src/tools/crapnet.cpp:23-24 | the queue starts empty |
| `PacketQueue.BypassedIsLinked` | src/tools/crapnet.cpp:159-167 | once the neighbours of a packet jump over it, the others form two proper chains |
| `PacketQueue.RouteOne` | src/tools/crapnet.cpp:78-94 | one datagram: dropped, or to the last client if it comes from the server, or to the server from a client that becomes the last one |
| `PacketQueue.Crapnet.Link` | src/tools/crapnet.cpp:96-106 | puts the packet at the end of both chains |
| `PacketQueue.Crapnet.Receive` | src/tools/crapnet.cpp:78-111 | drops the datagram or queues it with the destination given by its sender |
| `PacketQueue.Crapnet.ReceiveAll` | src/tools/crapnet.cpp:67-139 | all waiting datagrams are routed in order |
| `PacketQueue.Crapnet.Unlink` | src/tools/crapnet.cpp:159-167 | removes a packet at any position from both chains and leaves the others in order |
| `PacketQueue.Crapnet.Deliver` | src/tools/crapnet.cpp:159-192 | the packet leaves the queue, is sent once to its stored destination and freed |
| `PacketQueue.Crapnet.Scan` | src/tools/crapnet.cpp:141-194 | one pass sends exactly the packets that are due, in order, and keeps the others in order |
| `PacketQueue.Crapnet.FreedUnreachable` | src/tools/crapnet.cpp:141-194 | no chain of pointers, from either end, leads to a freed packet |
| `PacketQueue.RoundSends` | src/tools/crapnet.cpp:141-194 | each round sends, in the order of arrival, exactly what has been accepted, not yet sent, and is due |
| `PacketQueue.Run` | src/tools/crapnet.cpp:49-198 | after any rounds the accepted packets are those routed from the arrivals, the packets sent are those of the rounds in turn, and the queue holds the others in the order of arrival |
| `PacketQueue.SentOnce` | src/tools/crapnet.cpp:141-194 | no packet is sent twice or both sent and queued |
| `TileSkip.FilledNext` | src/game/layers.cpp:203-214 | one turn of the loop over columns extends the part of the row that is filled in |
| `TileSkip.InitRow` | src/game/layers.cpp:203-214 | fills in the skips of one row and nothing else |
| `TileSkip.InitTilemapSkip` | src/game/layers.cpp:201-215 | every row is filled in, and nothing behind the layer changes |
| `TileSkip.WalkVisits` | src/game/layers.cpp:201-215 | a reader that steps by `m_Skip + 1` misses no tile that is not empty and ends exactly at the row width |
| `TileSkip.WalkPassesOver` | src/game/layers.cpp:201-215 | tiles passed over are empty and were not written to |
| `TileSkip.WalkIsSparse` | src/game/layers.cpp:205-213 | every stored skip fits in a byte, and is cut short only by a tile that is not empty |
| `TileSkip.FilledVisits` | src/game/layers.cpp:201-215 | a filled row read from its second tile shows every tile that is not empty and differs only in skips |

## Left out

- Float rounding: positions, velocities and colours are reals; `distance` in `Collision` is any nonnegative real whose square is the dot product.
- `AsyncRing.Ring.WriteUnlocked`: queued and new bytes and one more together at most 2^31. That is every case in which the code works; `AsyncRing.GrowthFitsIff` says so, and `AsyncRing.DoublingSucceedsIff` and `AsyncRing.WrappedEndsEarly` say what the loop does above.
- `AsyncProtocol.BytesConserved`: the file is what was handed to `io_write`; short writes and flushing are not part of this model.
- `AsyncProtocol.FreedExactlyOnce`: callers are taken to follow the interface: no call overlaps or follows `aio_free`, and `aio_wait` is called once. Locks, semaphores and threads are abstract state.
- `AsyncProtocol`: the queue is a byte sequence; that the ring behaves like one is proved in `AsyncRing`. Failed allocation in `aio_new` is not part of this model.
- `Sha256.Context.Finish`: the equality with FIPS 180-4 is stated below 2^64 bits, where the standard defines it. The OpenSSL variant is not part of this model.
- `EditDistance.DistBuffer`: the two sequences are values; that they live in the same buffer does no harm because only cells of the table change.
- `NetAddr.PrintV6`: putting the groups together from octets is left out.
- `NetAddr.FromStr`: texts that start with a bracket (IPv6) go through `inet_pton` and are left out; a text ends before its terminator.
- `CharacterCore.Character.TickDeferred`: only the mark of a teleported hook; nudging, hook drag and the clamp change velocities, which are not part of this model.
- `CharacterCore.Character.Move`: only the effect of landing on the jump; position, velocity and player collision are not part of this model.
- `CharacterCore`: velocities, positions, angles, `VelocityRamp` and drag are left out; collision results, distances, teams and the hook's length test are inputs of a tick. Characters without a world or with id -1, `Reset`, `ReadDDNet` and filling or clearing slots are not steps.
- `Collision.MoveBox`: the player-collision branch of `CCharacterCore::Move`, which interpolates in a straight line, is left out, and so are move restrictions, teleporters and the other `Intersect` functions.
- `NetSchema.NetArray.Emit`: arrays of arrays are left out, whose inner element names ignore the outer index; string fields are left out. The five emit methods of each class differ in the line they produce and are one method with a parameter; names are structured, not text.
- `NetHandler`: the packer and the unpacker are a sequence of integers; the bytes of an integer and data that ends inside one are left out.
- `PacketQueue.Crapnet.Scan`: the reorder branch, which is switched off, is left out; whether a packet has waited long enough, and whether one is dropped, is an input. Time stamps, latency and the corruption branch, which is never taken, are left out. A packet's number, destination and data are constants of the packet.
- `TileSkip.InitTilemapSkip`: one layer; the loops over groups and layers and the lookup of the tile data are left out.
- `find_next_power_of_two_minus_one`, `CFutureLogger`, the engine interfaces, content tables, map tools and scripts are left out.
