# Verified models of ccminer's reference hashes and share pipeline

This project models two parts of the miner and proves what they are for.

**The CPU reference hashes** (`sph/`). Each takes its input in arbitrary pieces and replaces the
textbook definition by a trick: Fugue never rotates its state, BLAKE underflows its bit counter on
purpose, BLAKE2s keeps a lazy double buffer, BMW swaps two chaining arrays, CubeHash renames registers
instead of swapping words, ECHO multiplies eight bytes of GF(2^8) at once, the Merkle-Damgard helper
has a fast path for aligned input, and PBKDF2 stacks three incremental layers with a saved and copied
state. Every hash has a one-shot definition (`Digest`), written without buffers, counters or phases, and
a class with the fields of the C context. A ghost field `absorbed` records what the context received,
`Valid()` says what the fields are for it, and every `DigestOfPieces` shows that any split of any
message gives the one-shot digest.

**The host's share pipeline** (`core/`, `ccminer.cpp`, `compat/elist.h`). The thread queue on an
intrusive list, stratum line framing, targets, work generation, the duplicate log and the submit-id
ring. Each critical section is one atomic step; a run is any sequence of steps by any threads. `Run`
gives the meaning of a run on values, `Execute` shows that the in-place code does the same, and the
lemmas hold for every run.

| file | models |
|---|---|
| `Bytes.dfy`, `Bits.dfy`, `Words.dfy`, `Blocks.dfy`, `Output.dfy` | bytes, wrapping words, C library copies; bits of a byte; machine words and their numbers; folds over blocks, the buffer that waits for one; digest words as bytes |
| `FugueRing.dfy`, `FugueClose.dfy`, `Fugue.dfy` | the ring without rotation; the last rounds; the incremental hash |
| `Blake2b.dfy`, `HmacBlake2b.dfy` | BLAKE2b; HMAC and PBKDF2 above it |
| `Blake.dfy`, `BlakeRounds.dfy` | BLAKE's counter and close; its two ways of running rounds |
| `CubeHash.dfy` | CubeHash |
| `EchoWords.dfy`, `Echo.dfy`, `EchoHash.dfy` | packed GF(2^8) arithmetic; the two compressions; the incremental hash |
| `MdHelper.dfy` | the Merkle-Damgard helper |
| `Blake2s.dfy` | BLAKE2s |
| `Bmw.dfy`, `BmwWords.dfy`, `BmwExpansion.dfy` | the ping-pong stream; the word functions; the two message expansions |
| `LinkedList.dfy`, `ThreadQueue.dfy` | the list; the queue in all interleavings |
| `Target.dfy` | difficulty, target, comparison |
| `Stratum.dfy` | line framing |
| `WorkGen.dfy`, `WorkRuns.dfy` | extranonce, merkle root, header, notification; what runs of them give |
| `HashLog.dfy` | the duplicate gate |
| `SubmitRing.dfy` | submit ids |

## What the proofs found

- `hashlog` stamps a record with a 32-bit time and reads zero as "never sent". In every run a second send
  of the same job time and non-zero nonce is refused exactly if the clock at the first was no multiple
  of 2^32 (`HashLog.GateIff`); `HashLog.ZeroStampSendsTwice` gives the runs that send twice. Otherwise two
  sends are more than 300 seconds apart or the whole log was purged between them (`HashLog.SendsApart`).
- Nonce 0 stands for "look for the last nonce sent", and the gate takes that nonce for a time: a share
  with nonce 0 can go out twice (`HashLog.ZeroNonceSendsTwice`) and can be refused although it was never
  sent (`HashLog.ZeroNonceMasked`). `HashLog.ZeroNonceIff` says exactly when it is refused: when the last
  sent record that covers the job's number is of another nonce, whatever was sent with nonce 0.
- `HashLog.SameGate` shows that the gate sees 28 bits of job time and the nonce only: not the pool's job
  id and not the extranonce. `HashLog.RangeStartIff` says when the scan range starts at the least start,
  `HashLog.StartForgotten` where it does not.
- A scan joins the range of its job as the union of both exactly in the cases of `HashLog.ScanJoinsIff`: one
  that overlaps the end of the range does not move it.
- A stratum buffer that begins with a newline is cut in the wrong place: `Stratum.TakesOffALine` gives
  the exact condition for a lossless call and `Stratum.EmptyLineLoses` the lines that are lost. A buffer
  of newlines only is the end of the session (`Stratum.StuckOnNewlines`, `Stratum.NewlineFirst`). Without
  failures and timeouts a whole session gives the lines of the stream exactly if none of them is empty
  (`Stratum.SessionIff`).
- When the time for a line is over, its first part is handed out as a line (`Stratum.LateTearsALine`).
- A pop does not wait in a loop, so another thread can take the item that woke it
  (`ThreadQueue.StolenWakeup`); `ThreadQueue.EmptyHanded` says exactly when a pop returns null, the nulls
  that are pushed on purpose included.
- The compact and the unrolled BLAKE-256 agree for 8 and 14 rounds and for no other setting
  (`BlakeRounds.SameRowsIff`).
- `diff_to_target` overflows its 64-bit conversion exactly at difficulties of at most
  0xFFFF0000 / 2^64 (`Target.MantissaFits`).
- A repeated job takes its extranonce from the old bytes at the new place. It is sure to stay what it was
  exactly if it stays at its place (`WorkRuns.KeptIff`). With any extranonces, the repeat can hand out
  an extranonce that was already used exactly if the first coinbase part has another length, shorter
  or longer (`WorkRuns.RepeatsIff`).
- `mining.set_extranonce` takes effect while a job is in use. The units after it leave the job's parts alone
  and stay in the buffer exactly if the size does not grow (`WorkRuns.SafeChangeIff`), and cover the
  job's coinbase with their own extranonce exactly if the size is the old one
  (`WorkRuns.OwnCoinbaseIff`, `WorkRuns.UnitsCommit`).
- `pbkdf2_blake2b` with `c == 0` computes what it computes for `c == 1`, because the first iterate is
  not part of the loop (`HmacBlake2b.Pbkdf2`).

## Model

| member | source | states |
|---|---|---|
| Bits.TrailingByteBits | sph/blake.c:858-859 | the last byte holds the n bits, then a one, then zeros |
| Output.WriteWords | sph/blake.c:890-892 | the loop that writes the words of the chain value, for either byte order |
| Output.OutputReadsBack | sph/md_helper.c:328-338 | every word can be read back from its place in the output, in either byte order |
| Output.ShorterIsPrefix | sph/md_helper.c:328-338 | a digest of fewer words is the beginning of one of more |
| Bytes.BigReadsBack | sph/sph_types.h:1653-1689 | the big-endian bytes of a word read back as the word |
| Bytes.LittleReadsBack | sph/sph_types.h:1795-1831 | so do the little-endian bytes |
| Words.Enc32LeValue | sph/sph_types.h:1485-1519 | the four bytes of a word are those of its number, the least significant first |
| Words.Enc32BeValue | sph/sph_types.h:1367-1402 | the most significant first |
| Words.Enc64LeValue | sph/sph_types.h:1796-1838 | the eight bytes of a double word |
| Words.Dec32LeValue | sph/sph_types.h:1543-1612 | a word that is read is the number of its bytes |
| Words.EncodedReadsBack | sph/fugue.c:988-996 | every word of a digest reads back from its place, in either byte order |
| Words.Add32Value | sph/sph_types.h:932 | T32 of a sum is the sum modulo 2^32 |
| Words.Rotl32By7 | sph/sph_types.h:933 | the upper seven bits come out below, the others above |
| Words.Rotl32By11 | sph/sph_types.h:933 | the upper eleven bits come out below, the others above |
| Words.XorMeans8 | sph/hmac_blake2b.c:60-61 | the exclusive or has the bits of one of two bytes and not those of both |
| Words.XorMeans32 | sph/cubehash.c:256-265 | so for words |
| Words.XorMeans64 | sph/bmw.c:286-288 | and double words |
| Words.XorBytes | sph/cubehash.c:256-265 | xoring a word that was read xors its bytes |
| FugueRing.LayersRefine | sph/fugue.c:742-916 | one case of a core, for any number of column mixes, equals the steps of the rotating form once its words are read from the moved origin |
| FugueRing.Phase2Layers | sph/fugue.c:752-797 | every index written in the five cases of the 30-word core is a renumbering by the phase |
| FugueRing.Phase3Layers | sph/fugue.c:813-858 | the same for the four cases of the 36-word core with three mixes |
| FugueRing.Phase4Layers | sph/fugue.c:873-913 | the same for the three cases of the 36-word core with four mixes |
| FugueRing.PhaseRefines | sph/fugue.c:742-916 | after each case, in every variant and phase, the state read from the next origin is the old state after a word absorbed with real rotations |
| FugueRing.RunRot | sph/fugue.c:398-440 | renumbered word operations commute with rotating the ring |
| FugueClose.Tix2Does | sph/fugue.c:398-403 | TIX2 word by word, each from the state before it |
| FugueClose.Tix3Does | sph/fugue.c:405-411 | TIX3 word by word |
| FugueClose.Tix4Does | sph/fugue.c:413-420 | TIX4 word by word |
| FugueClose.CmixSmixDoes | sph/fugue.c:422-440 | CMIX puts words 4 to 6 into the first three and into those half a state away, whatever the size; then the first four are mixed |
| FugueClose.XoredDoes | sph/fugue.c:422-438 | each of the three words gets its own word, the rest stays |
| FugueClose.SmixDoes | sph/fugue.c:440-511 | the four mixed words, and no other, change |
| FugueClose.FinalOpsRefine | sph/fugue.c:975-1086 | any number of turns of a final round, without moving a word, is those turns with their rotations once the state is read from where they end |
| FugueClose.FinalSmall | sph/fugue.c:975-984 | a final round of the small variant as six statements on words that stay, read from word 1 |
| FugueClose.FinalMedium | sph/fugue.c:1014-1030 | the medium variant, as twelve |
| FugueClose.FinalBig | sph/fugue.c:1061-1086 | the big variant, as twenty |
| FugueClose.RoundSmall | sph/fugue.c:975-984 | the two turns of the code are those of the definition, which is one formula for all variants |
| FugueClose.RoundMedium | sph/fugue.c:1014-1030 | the three turns |
| FugueClose.RoundBig | sph/fugue.c:1061-1086 | the four turns |
| FugueClose.FinishRounds | sph/fugue.c:963-1090 | the rounds of the three closes |
| FugueClose.DigestWords | sph/fugue.c:988-1107 | the words that are written are four of every column, cut to the digest |
| Fugue.PhaseAbsorbs | sph/fugue.c:742-916 | the logical state after a case is the fold over one more word of the message |
| Fugue.LeadingBitsAre | sph/fugue.c:947 | the byte of the trailing bits keeps exactly the n leading ones |
| Fugue.PaddedFiller | sph/fugue.c:938-951 | the close's buffer completes the message to its zero-padded form followed by the 64-bit bit length |
| Fugue.PaddedEnds | sph/fugue.c:938-951 | the padded message begins with the message and ends, after at most four more bytes, in its bit length, most significant byte first |
| Fugue.Context.AbsorbWords | sph/fugue.c:742-800 | the switch into the loop absorbs words until at most four bytes are left, from whatever phase it enters |
| Fugue.Context.ReadBytes | sph/fugue.c:697-728 | shifting bytes into the partial word gives the big-endian word of all of them |
| Fugue.BeWordValue | sph/fugue.c:697-728 | up to four bytes shifted in are the number that they are, the most significant first |
| Fugue.Context.Core | sph/fugue.c:697-916 | absorbed words and the 0 to 4 held bytes together are exactly the bytes received |
| Fugue.Context.CloseInput | sph/fugue.c:933-951 | for every fill and trailing bit count, what close feeds is the padding, and four more bytes that follow it |
| Fugue.Context.Realign | sph/fugue.c:952-954 | the copies of CLOSE_ENTRY undo exactly the rotation that the phase stands for |
| Fugue.Context.Close | sph/fugue.c:933-1108 | the digest is that of the padded message, so the unset bytes never reach it; the context starts afresh |
| Fugue.DigestOfPieces | sph/fugue.c:658-1108 | every split of every message, with every trailing bit count, gives the one-shot digest |
| Blake2b.TracksNext | sph/blake2b.c:163-172 | compressing a full buffer when one more byte arrives keeps counter and chain on the full blocks before it |
| Blake2b.CountUp | sph/blake2b.c:165-167 | the two-word counter with its comparison carry is the byte count |
| Blake2b.IvRoots | sph/blake2b.c:69-74 | the chain starts from the fractional parts of the square roots of the first eight primes, section 2.6 of RFC 7693 |
| Blake2b.ParameterBlock | sph/blake2b.c:138-140 | what is xored into the first word is the number 0x0101kknn, and the others stay |
| Blake2b.OutReadsBack | sph/blake2b.c:190-194 | every word of the chain value reads back from the output, for every output length that covers it |
| Blake2b.Context.Init | sph/blake2b.c:129-154 | refuses wrong lengths and changes nothing; else the key block is what was absorbed |
| Blake2b.Context.Update | sph/blake2b.c:158-173 | absorbs the data; nothing is compressed while it fits |
| Blake2b.Context.Final | sph/blake2b.c:178-195 | the output is the one-shot hash of everything absorbed |
| Blake2b.DigestOfPieces | sph/blake2b.c:129-195 | every split and every key of 0 to 64 bytes gives the digest of section 3.3 of RFC 7693 |
| HmacBlake2b.Context.Init | sph/hmac_blake2b.c:41-73 | both inner hashes have absorbed the padded key, a long key having been hashed |
| HmacBlake2b.Context.Update | sph/hmac_blake2b.c:75-80 | the message goes to the inner hash |
| HmacBlake2b.Context.Final | sph/hmac_blake2b.c:82-90 | the HMAC of section 2 of RFC 2104, with a 64-byte pad |
| HmacBlake2b.Context.CopyFrom | sph/hmac_blake2b.c:125 | a copied state continues like the original, which is unchanged |
| HmacBlake2b.HmacHash | sph/hmac_blake2b.c:92-99 | init, update and final on one message |
| HmacBlake2b.Int32Value | sph/hmac_blake2b.c:121-126 | the block index goes out most significant byte first, modulo 2^32 |
| HmacBlake2b.OutputBlock | sph/hmac_blake2b.c:121-142 | one block from the saved state is the xor of the c iterates |
| HmacBlake2b.Pbkdf2 | sph/hmac_blake2b.c:101-154 | buf receives exactly the first dkLen bytes of T_1, T_2, and so on, of section 5.2 of RFC 8018 |
| Blake.IncIsCount | sph/blake.c:832-833 | the counter's increment with carry is the bit count of one more block |
| Blake.PresetLands | sph/blake.c:862-870 | the counter that close presets, underflow included, lands after the increment on the bits so far, or on 0 for a block without message bits |
| Blake.LengthWords | sph/blake.c:857-861 | the length field is the counter with the last bits added, without carry |
| Blake.LengthFieldValue | sph/blake.c:875-876 | read back, the two words of the length field are the bit count modulo the square of a word |
| Blake.MarkBits | sph/blake.c:873-874 | the marker sets the last bit before the length and no other |
| Blake.PaddedEnds | sph/blake.c:871-889 | the padded message is whole blocks with the fewest zeros and ends in the marker and its own bit length |
| Blake.BodyEnds | sph/blake.c:871-889 | the bit lengths 446 and 894 decide exactly between one and two last blocks |
| Blake.ChainOnce | sph/blake.c:871-877 | a close of one block gives the chain value of the padded message |
| Blake.ChainTwice | sph/blake.c:878-889 | a close of two blocks gives it, the second with counter zero unless it holds message bits |
| Blake.RawReaches | sph/blake.c:821-837 | blocks compressed with the code's counter are the fold with the counted bits |
| Blake.Context.Hash | sph/blake.c:804-840 | blake32 and blake64: full blocks are compressed, the rest is kept |
| Blake.Context.SetCounter | sph/blake.c:862-870 | the three cases of the counter before the last blocks |
| Blake.Context.LastBlocks | sph/blake.c:871-889 | the buffer feeds that close makes |
| Blake.Context.Close | sph/blake.c:842-893 | the digest bytes of the message, then a fresh context |
| Blake.DigestOfPieces | sph/blake.c:794-998 | every message, split, trailing bit count and digest length, for the 32-bit and the 64-bit functions |
| BlakeRounds.TableRepeats | sph/blake.c:95-112 | the sixteen-row table is the ten macro-generated permutations, then the first six again |
| BlakeRounds.SameRowsIff | sph/blake.c:514-630 | compact and unrolled forms run the same rounds exactly for 8 and 14 rounds |
| BlakeRounds.BigRowsAgree | sph/blake.c:672-788 | the 64-bit forms always do |
| BlakeRounds.CompressCompact | sph/blake.c:553-554 | the loop over the table |
| BlakeRounds.CompressUnrolled | sph/blake.c:604-619 | the straight-line rounds |
| BlakeRounds.BuildsAgree | sph/blake.c:514-630 | for every round function and state the builds agree at 8 and 14 rounds, and a round that counts tells them apart elsewhere |
| CubeHash.RoundEven | sph/cubehash.c:267-364 | the even round gives the swapping round's state in renamed registers |
| CubeHash.IntoHighAt | sph/cubehash.c:267-365 | word by word, what adding the low half into the high half does |
| CubeHash.IntoLowAt | sph/cubehash.c:267-365 | and what rotating the low half and xoring the high half into it does |
| CubeHash.SwapLowAt | sph/cubehash.c:267-365 | the swaps of words 8 and 4 apart that the renaming stands for, by their indices |
| CubeHash.SwapHighAt | sph/cubehash.c:267-365 | the swaps of words 2 and 1 apart |
| CubeHash.WordsInOrder | sph/cubehash.c:184-217 | register by register, the state is the array of words |
| CubeHash.XorBlockBytes | sph/cubehash.c:256-265 | a block is xored into the bytes of the first eight words, and no other word changes |
| CubeHash.DigestReadsBack | sph/cubehash.c:601-604 | every word of a digest reads back as that word of the finished state, the least significant byte first |
| CubeHash.RoundOdd | sph/cubehash.c:366-463 | the odd round, from renamed registers, gives the swapping round's state |
| CubeHash.TwoRounds | sph/cubehash.c:465-481 | even then odd is two rounds with all word swaps performed |
| CubeHash.SixteenRounds2 | sph/cubehash.c:475-481 | sixteen rounds, two at a time |
| CubeHash.SixteenRounds4 | sph/cubehash.c:485-493 | sixteen rounds, four at a time |
| CubeHash.SixteenRounds8 | sph/cubehash.c:497-509 | sixteen rounds, eight at a time |
| CubeHash.SixteenRoundsUnrolled | sph/cubehash.c:513-530 | sixteen rounds written out |
| CubeHash.Context.Core | sph/cubehash.c:541-576 | full blocks are absorbed, the rest is kept |
| CubeHash.Context.Close | sph/cubehash.c:578-604 | padding, the flag and ten times sixteen rounds give the digest |
| CubeHash.DigestOfPieces | sph/cubehash.c:534-604 | every split gives the digest of the definition with swaps |
| EchoWords.By27Holds | sph/echo.c:226-249 | multiplying packed top bits by 27 in 64 bits is doing so in each 32-bit half |
| EchoWords.DoubleHolds | sph/echo.c:226-249 | doubling packed in 64 bits is doubling packed in twice 32 bits |
| EchoWords.MixColumnHolds | sph/echo.c:226-249 | the 64-bit column mix is the 32-bit one on both halves |
| EchoWords.LaneIsByte | sph/echo.c:544-562 | the lanes of a word are its bytes |
| EchoWords.LaneDouble | sph/echo.c:544-562 | each byte lane of a packed doubling is multiplication by {02} in GF(2^8), section 4.2.1 of FIPS 197 |
| EchoWords.GroupedIsMixColumn | sph/echo.c:226-249 | the code's grouping of sums is the matrix of section 5.1.3 of FIPS 197 |
| EchoWords.MixColumnLanes | sph/echo.c:544-562 | every byte lane of the 32-bit mix is the MixColumns product |
| EchoWords.MixColumnLanes64 | sph/echo.c:226-249 | every byte lane of the 64-bit mix is the MixColumns product |
| Echo.NextKeyValue | sph/echo.c:130-134 | the four key words with their carries are a 128-bit counter |
| Echo.KeyAtValue | sph/echo.c:118-135 | the n-th key is the counter plus n, modulo 2^128 |
| Echo.RowsMoved | sph/echo.c:200-222 | rotating one row, swapping in the next and rotating the third back is ShiftRows |
| Echo.ShiftRowsInPlace | sph/echo.c:218-222 | the moves in the matrix |
| Echo.SubWordsInPlace64 | sph/echo.c:109-140 | all words through two AES rounds, each under its own key |
| Echo.MixColumnInPlace64 | sph/echo.c:226-288 | one column of the packed matrix is mixed, the others stay |
| Echo.RoundsInPlace64 | sph/echo.c:290-294 | n rounds of the packed form |
| Echo.RoundsInPlace32 | sph/echo.c:580-584 | n rounds of the 32-bit form |
| Echo.RoundsHold | sph/echo.c:290-294 | matrices that agree stay in agreement through any number of rounds |
| Echo.CompressHolds | sph/echo.c:319-343 | packed and 32-bit compression agree for every state, block and counter |
| Echo.CompressInPlace64 | sph/echo.c:319-343 | the packed compression in place is the function that CompressHolds is about |
| Echo.CompressInPlace32 | sph/echo.c:609-633 | the same for the 32-bit compression |
| EchoHash.IncrCounts | sph/echo.c:637-644 | INCR_COUNTER is addition on 128 bits over four words |
| EchoHash.CounterOfValue | sph/echo.c:826-829 | the four counter words are the count modulo 2^128 |
| EchoHash.CounterBytesValue | sph/echo.c:826-829 | and their sixteen bytes are that number, the least significant first |
| EchoHash.PaddedEnds | sph/echo.c:845-846 | the padded message ends in the digest length and its own bit length modulo 2^128 |
| EchoHash.PaddedWhole | sph/echo.c:837-847 | the padded message is whole blocks, with the fewest zeros |
| EchoHash.ChainOnce | sph/echo.c:834-847 | a close of one block gives the chain value, with the count of the message bits |
| EchoHash.ChainTwice | sph/echo.c:834-847 | a close of two blocks does, the second with counter zero |
| EchoHash.Context.Core | sph/echo.c:730-763 | full blocks are compressed after the 128-bit counter went up, the rest is kept |
| EchoHash.Context.CountLast | sph/echo.c:824-836 | the counter for the last block, and zero if it holds no message bit |
| EchoHash.Context.Close | sph/echo.c:800-857 | what the build writes of the chain value of message and trailing bits, then a fresh context |
| EchoHash.DigestOfPieces | sph/echo.c:646-917 | every split and digest length, for both block sizes and either build's way of writing |
| EchoHash.FoldHolds | sph/echo.c:730-763 | the two builds keep agreeing chain values over a whole message |
| EchoHash.WriteWords32 | sph/echo.c:851-855 | the 32-bit build writes the first words |
| EchoHash.Words32ReadBack | sph/echo.c:852-855 | every word of the chain value reads back from its place |
| EchoHash.WriteWords64 | sph/echo.c:847-855 | the 64-bit build writes double words and cuts them to the digest |
| EchoHash.OutputHolds | sph/echo.c:847-855 | agreeing chain values are written as the same bytes, for even and odd numbers of words |
| EchoHash.BuildsAgree | sph/echo.c:646-917 | the two builds give the same digest bytes for every message and digest length |
| MdHelper.MaskedCount | sph/md_helper.c:135-139 | the masked 64-bit count is the fill of the buffer, also after it wrapped, for any power-of-two block size |
| MdHelper.AndIsMod | sph/md_helper.c:135-139 | masking is the remainder |
| MdHelper.LowPadBits | sph/md_helper.c:255 | the byte under PW01 is a one with the n bits below it |
| MdHelper.FirstPadBits | sph/md_helper.c:254-263 | with PW01 the byte after the message is a one above its last bits, else those bits and a one after them |
| MdHelper.LengthIsExact | sph/md_helper.c:276-284 | the two words of the length field are the exact bit length |
| MdHelper.LengthReadsBack | sph/md_helper.c:271-308 | read back, the length field of every layout is the bit length, modulo 2^64 where it has one word |
| MdHelper.DigestReadsBack | sph/md_helper.c:325-338 | every word of the digest reads back from its place, four bytes under the 32-bit layouts and eight under the others, in their byte order |
| MdHelper.PaddedWhole | sph/md_helper.c:264-270 | message and padding are whole blocks, with the fewest zeros, for every block size and length field |
| MdHelper.Context.Short | sph/md_helper.c:123-163 | the buffered update |
| MdHelper.Context.Direct | sph/md_helper.c:204-213 | blocks taken straight from the input, the rest buffered, the count added at the end |
| MdHelper.Context.Update | sph/md_helper.c:165-229 | short, misplaced or aligned, the update leaves the same state for the same bytes |
| MdHelper.Context.PadToLength | sph/md_helper.c:264-270 | zeros up to the length field, through one more block when it does not fit |
| MdHelper.Context.Close | sph/md_helper.c:237-340 | the digest bytes of message and trailing bits |
| MdHelper.DigestOfPieces | sph/md_helper.c:121-340 | every split, at any address, on machines that read misplaced words or do not, gives the first words of the fold over the message with its padding |
| Blake2s.CountUp | sph/blake2s.c:74-79 | the two 32-bit counter words are the byte count |
| Blake2s.IvRoots | sph/blake2s.c:25-29 | the chain starts from the fractional parts of the square roots of the first eight primes, section 2.6 of RFC 7693 |
| Blake2s.ParameterBlock | sph/blake2s.c:146-178 | the one word of the parameter block that is not zero is the number 0x0101kknn |
| Blake2s.OutReadsBack | sph/blake2s.c:321-324 | every word of the chain value reads back from the output |
| Blake2s.TracksNext | sph/blake2s.c:285-288 | compressing the first of two buffered blocks keeps the invariant |
| Blake2s.TracksLast | sph/blake2s.c:316-319 | the last block with its zeros completes the one-shot hash |
| Blake2s.Context.Init | sph/blake2s.c:160-179 | refuses wrong lengths; else the chain value of the parameter block |
| Blake2s.Context.InitKey | sph/blake2s.c:181-211 | refuses a missing or long key; else the zero-filled key block was absorbed |
| Blake2s.Context.Update | sph/blake2s.c:274-302 | absorbs the data and compresses only when more follows; the fill stays in 0 to 128 |
| Blake2s.Context.CompressFirst | sph/blake2s.c:285-288 | compress and shift leave a valid context with 64 bytes less |
| Blake2s.Context.Final | sph/blake2s.c:304-326 | the extra flush and the last block give the one-shot hash |
| Blake2s.DigestOfPieces | sph/blake2s.c:328-351 | every split, keyed or not, gives the digest of section 3.3 of RFC 7693, or -1 exactly for wrong lengths |
| Bmw.Context.Compress | sph/bmw.c:564-598 | one block, by whatever compression is given, goes from one chaining array into the other, which alone changes |
| Bmw.Context.Update | sph/bmw.c:622-669 | for odd and even numbers of blocks the context's own array ends with the fold over all full blocks |
| Bmw.Context.LastBlocks | sph/bmw.c:680-701 | padding and length in one or two blocks |
| Bmw.Context.Close | sph/bmw.c:671-708 | the last pass under the constant chain value and its last words |
| Bmw.PaddedWhole | sph/bmw.c:682-701 | the padded message is whole blocks, with the fewest zeros |
| Bmw.PaddingEnds | sph/bmw.c:680-693 | the padding begins with the last bits and a one and ends in the bit length modulo 2^64, least significant byte first |
| Bmw.FinalTables | sph/bmw.c:600-607 | the two tables of the last pass are one constant each, counted up |
| Bmw.EncodedReadsBack | sph/bmw.c:706-707 | every word of a chain value or digest reads back from its place |
| Bmw.DigestOfPieces | sph/bmw.c:609-835 | every split, for 32-bit and 64-bit words |
| BmwExpansion.IndexRows | sph/bmw.c:100-115 | each index row is the sixteen positions before its word |
| BmwWords.OneBit | sph/bmw.c:190-199 | where each of the six functions takes one bit |
| BmwWords.AllBits | sph/bmw.c:190-199 | and all bits at once |
| BmwWords.Rb1Rotates | sph/bmw.c:200 | a rotation by 5: the upper bits come out below |
| BmwWords.Rb2Rotates | sph/bmw.c:201 | the one by 11 |
| BmwWords.Rb3Rotates | sph/bmw.c:202 | the one by 27 |
| BmwWords.Rb4Rotates | sph/bmw.c:203 | the one by 32 |
| BmwWords.Rb5Rotates | sph/bmw.c:204 | the one by 37 |
| BmwWords.Rb6Rotates | sph/bmw.c:205 | the one by 43 |
| BmwWords.Rb7Rotates | sph/bmw.c:206 | the one by 53 |
| BmwWords.KbSteps | sph/bmw.c:208 | the constants are consecutive multiples of 0x0555555555555555 |
| BmwWords.KbFirst | sph/bmw.c:208 | from sixteen times it on |
| BmwWords.Sum16Value | sph/bmw.c:224-232 | the sixteen terms are summed modulo 2^64 |
| BmwWords.EltValue | sph/bmw.c:220-222 | two message words less a third plus the constant, modulo 2^64, under a chain word |
| BmwExpansion.RowIndices | sph/bmw.c:408-423 | every sum takes the words at distances 5, 7, 10, 13 and 14 |
| BmwExpansion.ColumnSigns | sph/bmw.c:408-423 | the signs of the sums, column by column |
| BmwExpansion.MakeWValue | sph/bmw.c:286-288 | a sum is its five terms with their signs, modulo 2^64 |
| BmwExpansion.MessageRows | sph/bmw.c:117-132 | each message row is the masked offsets 0, 3, 7 and 10, each rotation one more than its index |
| BmwExpansion.TableRow | sph/bmw.c:212-278 | a word from the tables is the word from the index arithmetic, for all words, message and chain |
| BmwExpansion.ExpandCompact | sph/bmw.c:427-462 | the loops fill the 32 words of the definition |
| BmwExpansion.ExpandTable | sph/bmw.c:466-502 | the straight-line code does |
| BmwExpansion.BuildsAgree | sph/bmw.c:210-280 | both builds give the same 32 words |
| LinkedList.Insert | compat/elist.h:33-41 | inserting between neighbours keeps the circle, with the entry in its place |
| LinkedList.AddTail | compat/elist.h:64-67 | the entry becomes the last |
| LinkedList.AddFirst | compat/elist.h:51-54 | the entry becomes the first |
| LinkedList.Delete | compat/elist.h:76-92 | the rest of the circle keeps its order, the entry's links become null |
| LinkedList.Splice | compat/elist.h:136-159 | one list's entries, in order, come before the other's |
| LinkedList.EmptyIff | compat/elist.h:131-134 | the one-link test is exact, and the next link is the first entry |
| LinkedList.DeleteAll | core/util.cpp:2345-2348 | the safe iteration frees every entry once, in order, while it unlinks them |
| ThreadQueue.Queue.Push | core/util.cpp:2377-2402 | accepted exactly with memory and without a freeze, then last in the circle |
| ThreadQueue.Queue.PopEnter | core/util.cpp:2404-2418 | takes the first item, or must wait exactly when there is none |
| ThreadQueue.Queue.PopWake | core/util.cpp:2415-2434 | after a wait, the first item, or null exactly if the wait failed or the queue is empty |
| ThreadQueue.Queue.Free | core/util.cpp:2345-2348 | every queued entry is freed once, in order, and the list is empty |
| ThreadQueue.Execute | core/util.cpp:2357-2434 | the linked queue, through any interleaving of steps, gives the outcomes of the state machine |
| ThreadQueue.Fifo | core/util.cpp:2357-2434 | in every run, what left followed by what is queued is what was accepted |
| ThreadQueue.PushAnswer | core/util.cpp:2382-2401 | each push is answered by memory and the last freeze or thaw before it |
| ThreadQueue.ExactlyOnce | core/util.cpp:2377-2434 | in every run, nulls pushed or not, the non-null items that callers receive, then those queued, are the non-null accepted ones; accepted items are popped or queued |
| ThreadQueue.PopsReturn | core/util.cpp:2404-2434 | pops begun are pops returned and threads still waiting |
| ThreadQueue.EmptyHanded | core/util.cpp:2415-2422 | a waiting pop returns null exactly when the wait failed, or all accepted items have left, or the next one is a null |
| ThreadQueue.EnterAnswer | core/util.cpp:2404-2418 | a pop that begins waits exactly when all accepted items have left, and else returns the next |
| ThreadQueue.StolenWakeup | core/util.cpp:2415-2422 | a run in which another thread takes the item that woke a pop |
| Target.FullTest | core/util.cpp:816-833 | passes exactly if the 256-bit hash is at most the target |
| Target.MantissaFits | core/util.cpp:881 | the 64-bit conversion is in range exactly above 0xFFFF0000 / 2^64 |
| Target.LeastBelow | core/util.cpp:881 | that bound is below 2^-32 |
| Target.ScaledFits | core/util.cpp:879-881 | scaling keeps it in range |
| Target.NoZeroMantissa | core/util.cpp:881-883 | the branch for a zero mantissa at k = 6 is never taken for difficulties up to 1 |
| Target.WordsAreTarget | core/util.cpp:884-888 | the two words written are the number of the target |
| Target.DiffToTarget | core/util.cpp:874-889 | the loop and the writes produce those words |
| Target.TargetIsQuotient | core/util.cpp:874-889 | the target is 0xFFFF * 2^208 / d rounded down to a multiple of its unit |
| Target.TargetAntitone | core/util.cpp:874-889 | a greater difficulty never has a greater target, across all values of k |
| Target.PassesBelow | core/util.cpp:816-889 | a hash that passes at one difficulty passes at every lower one |
| Target.WindowBits | core/util.cpp:903-912 | the eight bytes are bits 176 to 239 |
| Target.RoundTrip | core/util.cpp:874-917 | for 1 < d <= 2^32 the difficulty read back is in [d, d * (1 + 1/65535)], inside [d, d * (1 + 2^-15)] |
| Stratum.Context.Append | core/util.cpp:1001-1012 | appends, and the buffer stays larger than string and zero by at least one byte |
| Stratum.Context.Remove | core/util.cpp:1055-1067 | what the move leaves in the buffer, leading newlines included, inside the buffer's bounds |
| Stratum.Context.Receive | core/util.cpp:1014-1073 | the call, with its loop, failures and timeouts, does what RecvLine says |
| Stratum.NoLineIff | core/util.cpp:1055-1060 | there is no line exactly when the buffer holds newlines only |
| Stratum.TakesOffALine | core/util.cpp:1055-1067 | a call loses nothing exactly when the buffer holds a newline and does not begin with one |
| Stratum.EmptyLineLoses | core/util.cpp:1055-1067 | after an empty line, everything behind the next line is lost |
| Stratum.StuckOnNewlines | core/util.cpp:1023-1060 | with only newlines in the buffer a call neither receives nor returns a line, so no later one does |
| Stratum.LateTearsALine | core/util.cpp:1045-1060 | when the time is over, the part of a line that has arrived is handed out as a line |
| Stratum.CallLosesNothingIff | core/util.cpp:1014-1073 | a call that returns a line, late or not, loses nothing exactly when what it had and received holds a newline and does not begin with one |
| Stratum.AllReceivedIff | core/util.cpp:1030-1044 | what reaches the buffer is what was sent exactly if no zero byte was sent |
| Stratum.CallKeepsStream | core/util.cpp:1014-1073 | without failures, timeouts and empty lines a call returns a line and keeps the rest, or there is no line in all that was received |
| Stratum.SplitJoined | core/util.cpp:1014-1073 | lines joined with newlines and followed by the rest are the stream |
| Stratum.Session | core/util.cpp:1014-1073 | calls on any input, until there is no line, give the lines that the calls on values give |
| Stratum.SessionIff | core/util.cpp:1014-1073 | without failures and timeouts, whatever the receive boundaries, a session gives the lines of the received stream exactly if none of them is empty |
| Stratum.NewlineFirst | core/util.cpp:1014-1073 | a newline that arrives alone at first ends the session, whatever follows |
| Stratum.AnyPieces | core/util.cpp:1014-1073 | two sockets without failures and timeouts that receive one stream without empty lines in different pieces deliver the same lines |
| WorkGen.IncCounts | ccminer.cpp:2040-2042 | the increment with carry is plus one on the little-endian count |
| WorkGen.SameBytes | ccminer.cpp:2040-2042 | counts have the same bytes exactly when they are congruent modulo 256^size |
| WorkGen.RootFromBranch | ccminer.cpp:2025-2038 | a branch taken from a tree with any first leaf gives the root of the tree with another first leaf |
| WorkGen.UnitCommits | ccminer.cpp:2021-2038 | the root in a unit's header is the root of the whole tree over the bytes that the unit covers |
| WorkGen.HeaderOnWire | ccminer.cpp:2175-2182 | the 80 bytes that are hashed are the pool's fields with swapped words around the unswapped root, and a zero nonce |
| WorkGen.PaddingOnWire | ccminer.cpp:2181-2182 | the twelve words after the 80 bytes are the padding of an 80-byte message: a one bit, zeros and its bit length |
| WorkGen.WireBig | ccminer.cpp:2176-2177 | words read most significant byte first go out as they came in |
| WorkGen.Context.Notify | core/util.cpp:1914-1930 | the coinbase is its four parts; the extranonce is zeroed for a new job id, and else what the old bytes, and past them the heap, hold at the new place |
| WorkGen.Context.SetExtranonce | core/util.cpp:1280-1297 | sizes outside 2 to 16 are refused; else both extranonces change and the job keeps its buffer and place |
| WorkGen.Context.Generate | ccminer.cpp:1930-2042 | the unit carries job id, height, pool and the extranonce at its place in the bytes that its header covers, and the extranonce is counted up there once; past the buffer the model stops |
| WorkGen.Context.AssembleHeader | ccminer.cpp:2044-2182 | the words of the default branch, written one by one into cleared memory |
| WorkGen.Context.Increment | ccminer.cpp:2040-2042 | the carry loop in the coinbase |
| WorkGen.Execute | ccminer.cpp:1930-2042 | the code, through any run of notifications, changes of the extranonce and units, makes the units of the state machine |
| WorkRuns.Keeps | core/util.cpp:1921-1927 | a repeat that leaves the extranonce at its place keeps it |
| WorkRuns.Counts | ccminer.cpp:2040-2042 | from any extranonce on, unit k of a run on one job, with repeats and changes that keep the lengths, carries the k-th count after it |
| WorkRuns.Distinct | ccminer.cpp:2040-2042 | units of one job fewer than 256^size apart have different extranonces, and those 256^size apart the same |
| WorkRuns.FreshStart | core/util.cpp:1926-1927 | a new job id starts at zero, wherever the run was |
| WorkRuns.NewJobCounts | core/util.cpp:1926-1927 | after a notification of a new job id, whatever happened before, unit k of the run on that job carries the number k |
| WorkRuns.KeptIff | core/util.cpp:1921-1927 | a repeat is sure to keep the extranonce exactly if first part and first extranonce together keep their length |
| WorkRuns.TwiceIff | core/util.cpp:1921-1927 | the unit after a repeat has the extranonce of the one before exactly if that is what the counted bytes hold at the new place |
| WorkRuns.ShorterRepeats | core/util.cpp:1921-1927 | for every size, extranonce and shorter first part, bytes with which the same extranonce goes out again |
| WorkRuns.LongerRepeats | core/util.cpp:1921-1927 | the same for every longer first part, from the first unit of a job on |
| WorkRuns.RepeatsIff | core/util.cpp:1921-1927 | a repeat of these lengths can hand out the same extranonce again exactly if they differ |
| WorkRuns.PartsStay | core/util.cpp:1284-1297 | until the next notification the job's parts stay, and no unit runs past the buffer, while the size is at most that of the last notification |
| WorkRuns.SafeChangeIff | core/util.cpp:1284-1297 | a change is safe in that way, whatever the bytes are, exactly if the size does not grow |
| WorkRuns.OwnCoinbaseIff | ccminer.cpp:1941-2042 | a unit after a change runs past the buffer exactly if the size exceeds old extranonce and second part, and else covers the job's coinbase with its own extranonce exactly if the size is the old one |
| WorkRuns.UnitsCommit | ccminer.cpp:1941-2042 | until the next notification every unit of a run that keeps the size does, also under a new first extranonce |
| HashLog.JobIdReadsBack | ccminer.cpp:1938-1940 | the hex prefix written for a job is read back as its 28 bits of time, whatever the pool's id is |
| HashLog.HexCharacters | core/hashlog.cpp:47-52 | the digits of either case have their values, and nothing else has |
| HashLog.Spaces | core/hashlog.cpp:47-52 | the characters that are skipped are the six of isspace |
| HashLog.HexForms | core/hashlog.cpp:47-52 | digits of any number with a space, a sign or a prefix before them, and the largest value for one that is too large |
| HashLog.KeyInjective | core/hashlog.cpp:60-61 | keys are equal exactly when the low 32 bits of the job numbers and the nonces are |
| HashLog.SameGate | core/hashlog.cpp:57-71 | two shares share a key exactly when job time modulo 2^28 and nonce agree |
| HashLog.Shares.AlreadySubmitted | core/hashlog.cpp:57-71 | the stamp of the key's record, or zero; for nonce 0 the last nonce sent |
| HashLog.Shares.GetLastSent | core/hashlog.cpp:170-185 | the backward search over the map |
| HashLog.LastSentIff | core/hashlog.cpp:170-185 | its answer is not zero exactly when, among the sent records whose key has all bits of the job's number set, the last by its key is of a non-zero nonce |
| HashLog.ZeroNonceIff | core/hashlog.cpp:63-66 | with nothing pending, the gate refuses a share with nonce 0 exactly then |
| HashLog.Shares.RememberSubmit | core/hashlog.cpp:75-93 | the record of a send, with all its fields |
| HashLog.RangeIsHull | core/hashlog.cpp:141-164 | the end of a job's scan range is the greatest end of its records; if none starts at zero, the start is the least one |
| HashLog.RangeStartIff | core/hashlog.cpp:141-164 | the start is the least exactly if no record starts at zero or the last one by its key does |
| HashLog.StartForgotten | core/hashlog.cpp:141-164 | two records of one job, the first starting at zero, whose range starts at the second |
| HashLog.FirstScan | core/hashlog.cpp:121-126 | the first scan of a job sets its range, with a start of at least 1 |
| HashLog.EmptyScan | core/hashlog.cpp:121 | an empty interval changes nothing |
| HashLog.ScanJoinsIff | core/hashlog.cpp:121-128 | a later scan moves the start down to its own whenever it begins before it; the end becomes the greater one exactly if the scan follows the range at once and does not end before it, or does not reach beyond it |
| HashLog.Shares.GetScanRange | core/hashlog.cpp:141-164 | the loop over the map computes that range |
| HashLog.Shares.RememberScanRange | core/hashlog.cpp:98-135 | only the record of nonce 0 changes |
| HashLog.Shares.PurgeOld | core/hashlog.cpp:254-270 | erasing while iterating leaves exactly the records that are young enough |
| HashLog.AgeIsElapsed | core/hashlog.cpp:257-265 | a record stays exactly if it is at most 300 seconds old, and goes if the clock went back |
| HashLog.Execute | ccminer.cpp:1355-1422 | the log's methods, through any interleaving, give the outcomes of the state machine |
| HashLog.StaysBarred | ccminer.cpp:1355-1368 | after a send with a non-zero stamp and nonce no step but a purge of its record lets the share through again |
| HashLog.AtMostOnce | ccminer.cpp:1355-1422 | two sends under one key with a non-zero nonce, the first with a non-zero stamp, are separated by a purge that removes its record |
| HashLog.SendsApart | ccminer.cpp:1355-1422 | so on a clock that does not go back they are more than 300 seconds apart or separated by a purge of everything |
| HashLog.GateIff | ccminer.cpp:1355-1422 | in every run, the share of a send that was neither purged nor repeated is refused exactly if the clock at the send was no multiple of 2^32 |
| HashLog.NextCheckIff | ccminer.cpp:1355-1422 | the same for the check right after a send, from any state |
| HashLog.ScanNeverMasks | core/hashlog.cpp:98-135 | a scanned range changes the gate's answer to no share with a non-zero nonce |
| HashLog.DuplicateWasSent | ccminer.cpp:1355-1368 | a share with a non-zero nonce is refused only if one with its key was sent before |
| HashLog.ZeroStampSendsTwice | core/hashlog.cpp:88 | a run, for every share with a non-zero nonce and every clock at a multiple of 2^32, that sends twice |
| HashLog.ZeroNonceSendsTwice | core/hashlog.cpp:63-66 | nonce 0 goes out twice at any time, because the search answers with the nonce |
| HashLog.ZeroNonceMasked | core/hashlog.cpp:170-185 | in a log with one record, of another nonce of the job and with a non-zero stamp, a share with nonce 0 is refused though it never was sent |
| SubmitRing.Ids.Next | ccminer.cpp:1054-1061 | the next id of the counter |
| SubmitRing.Ids.Remember | ccminer.cpp:1064-1071 | the slot of the wrapping position takes the entry |
| SubmitRing.Ids.Lookup | ccminer.cpp:1075-1085 | the first slot that holds the id, or the caller's fallback |
| SubmitRing.SlotInWindow | ccminer.cpp:225-229 | each slot holds one of the last 32 entries or is untouched |
| SubmitRing.HitsExactlyTheWindow | ccminer.cpp:1073-1085 | a lookup hits exactly the last 32 remembered ids, and id 0 while a slot is untouched |
| SubmitRing.Execute | ccminer.cpp:1054-1085 | counter and ring, through any interleaving, give the outcomes of the state machine |
| SubmitRing.IdsUnique | ccminer.cpp:1054-1061 | no id is handed out twice in a run of at most 2^32 allocations |
| SubmitRing.IdsRepeat | ccminer.cpp:1054-1061 | allocations 2^32 apart get the same id |
| SubmitRing.HandedOutFromFirst | ccminer.cpp:1073-1074 | with at most 2^32 - 10 allocations no id is that of an untouched slot |
| SubmitRing.OwnDifficulty | ccminer.cpp:1064-1085 | a lookup of a handed-out id hits exactly if it is among the last 32 remembered, and finds that share's own difficulty |

## Left out

- Blake.DigestOfPieces: the rounds are a parameter, with the salt fixed to the code's zeros, and so is the access to a word of the chain value.
- Blake2b.DigestOfPieces: the compression is a parameter; its rounds (sph/blake2b.c:78-127) are not modelled.
- Blake2s.DigestOfPieces: the compression is a parameter; `last_node`, always zero here, is not modelled, and null output or input pointers are not either.
- Fugue.DigestOfPieces: SMIX is a parameter on four words; `sc->S` is an array, but a core and a close work on a copy of it, so aliasing of the macros' local variables is not captured, and the switch into the loop is a loop that a phase number drives.
- CubeHash.RoundEven: the 32 local variables of the C code are one value that a method returns, since the code keeps them in locals.
- Echo.CompressHolds: the AES round under a key is a parameter shared by both forms, the keyless round being the one under key zero; its tables are not modelled.
- EchoHash.DigestOfPieces: compression and output loop are parameters, for which BuildsAgree takes those of the two builds; with counts of at least 2^128 bits both the counter and the length wrap, as in the code.
- Bmw.DigestOfPieces: the compression is a parameter; of its body only the first sixteen sums and the expansion are modelled (BmwExpansion), not the final fold (sph/bmw.c:515-566).
- BmwExpansion.BuildsAgree: only the 64-bit expansion, since the 32-bit one has no index-arithmetic form.
- MdHelper.DigestOfPieces: the round function is a parameter, and so is the access to a word of the chain value; the combination LE64 with PLW4, shadowed by a repeated test (sph/md_helper.c:290) and set by no file, and HAVAL's own length field are not modelled, nor PLW1 and PLW4 with 32-bit words, whose length field does not fill the room left for it.
- HmacBlake2b.Pbkdf2: block indices are taken modulo 2^32 as in the code; c is below 2^64 - 1, because the code's loop does not end at the largest c.
- HashLog.Execute: `check_dups` is true from the start (ccminer.cpp:101) and nothing clears it for good, so its test is left out; the log has no lock in the code, and each of its functions is taken as one atomic step.
- Stratum.Context.Receive: the missing buffer of a socket that was never connected is not modelled; where the input of a run ends, the socket counts as closed.
- Stratum.SessionIff: sessions with failures or timeouts are covered by Session on values and, call by call, by Receive, TakesOffALine and LateTearsALine.
- Target.DiffToTarget: difficulties are reals, so rounding of doubles is not modelled; difficulties at which the conversion to 64 bits is undefined in C are outside its precondition.
- ThreadQueue.Execute: mutexes and the condition variable appear as the atomicity of steps and as a wait that may end at any time for any reason; fairness is not modelled.
- WorkGen.Execute: the hashes of leaf and node are parameters, and so is the height, which the code reads from the coinbase; the header is that of the default algorithms (ccminer.cpp:2175-2182), and algorithms with another header or their own job format (KawPoW, Pearl, Veil, Lumenite, Verus, RPC2, ...) and GOST's node rule are not modelled. Refused notifications change nothing and are left out with the JSON that they come in.
- WorkGen.Context.SetExtranonce: the sizes that Verus, equihash and ProgPoW derive from the first extranonce (core/util.cpp:1243-1279) are not modelled.
- WorkGen.Context.Generate: what C does when the extranonce reaches past the buffer is undefined; the model reports it and stops there.
- The builds without a 64-bit type (SPH_64 unset) keep 64-bit counters in two words and are not modelled.
- Initial values are parameters of BLAKE, CubeHash, Fugue, BMW and the Merkle-Damgard helper.
- Hosts are little-endian where the code reads words in place, and `unsigned long` has 64 bits.
- Groestl, AES and Hamsi tables, the other hashes of `sph/` whose streaming repeats a pattern above, CUDA kernels, `scanhash_*`, NVML, curl, sockets, JSON parsing, logging, options, pool switching and the control API.
- `hashlog_purge_job`, which compares with the job prefix as a mask.
