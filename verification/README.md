# Verified models of the native runtime's algorithms

This project models, in Dafny, the self-contained algorithms of the runtime's native code and proves
what they are for. Each module follows one source file or one part of it.

* **Hash map with incremental resize** (`Probing`, `PrimeList`, `SizeGaps`, `SlotBits`, `OpenTable`, `HashTable`,
  `SimpleMap`): the double-hash open-addressing table with its packed flag bits, and the map that
  fills a shadow table batch by batch while puts and deletes go on. Tables and maps are classes that
  update arrays in place; they are proved to be a mathematical map at every step.
* **Number theory in the hashes** (`NumberTheory`, `Words`, `Bytes`, `WideMultiply`, `Wyhash`,
  `Primality`, `Polynomials`, `PolymurGroup`, `Polymur`, `PolymurHash`, `PolymurUniversal`): modular
  multiplication with wrap-around, the primality test, the choice of a PolymurHash key, the proof that
  its lazy reduction loses nothing, and that different messages collide under few keys.
* **Streaming hashes** (`Blocks`, `XxHash32`, `XxHash64`, `XxHash3`, `Murmur32`): buffers, carries and
  counters, and why any cutting of a message gives the one-shot hash.
* **MessagePack** (`MsgPack`, `MsgPackScan`, `MsgPackCodec`, `MsgPackWriter`, `StorageBatch`): the
  grammar of the specification's section "Formats", the counter-driven checker and skipper, encoders
  and decoders, and the batch insert that relies on them.
* **Intrusive lists** (`LinkedList`): circular lists on the heap, specified by the sequence of nodes.
* **Executors and scheduler** (`WakeProtocol`, `TaskProtocol`): message passing between rings as state
  machines, with laws over whole runs.

`Primality` and `PrimeList` hold a small proof of Pocklington's and Proth's criteria and the
certificates of the table sizes, `PolymurGroup` those of the generator 37; nothing there comes from the
source but the list and the number. `SizeGaps` adds what the list is; `Polynomials` bounds the roots a
polynomial has modulo a prime.

Where specification and code share a definition, such as a hash's mixing step or a polynomial, known
values and laws about the definition alone fix what it is.

Where the code does not keep a promise on all inputs, the exact condition is proved beside an input
that breaks it: `mul_mod` and `pow_mod` with an operand that is not reduced, `pow_mod` modulo one,
`next_slot` in the largest table, `cut_before` with a first head that already points at the item, a
registration that follows the previous one too quickly, an unregistration with more than one poll,
`mp_sizeof_str`, `mp_sizeof_bin` and `mp_sizeof_ext` with the longest contents, the safe encoders that
rely on them, and `mp_check` on 0x140000005 bytes or more. For `sprp` with a base that is not reduced the
breaking input stands beside a condition that suffices; it cannot be received, since `sprp` is called by
`is_prime` alone, with bases of at most 37 that are below the number. `is_prime` answers 0 for 2, as its
code does. The comment above `cut_before` says the old content of the first head is discarded; the guard
nevertheless looks at it.

## Model

| member | source | states |
|---|---|---|
| Probing.NextSlotExactIff | core/native/maps/simple.h:215-220 | The 32-bit addition of a probe step lands on the sum modulo the table size exactly when the plain sum fits in 32 bits |
| Probing.NextSlotWrapsInLargestTable | core/native/maps/simple.h:482-483 | With the largest listed size a probe step can wrap and land on another slot; the concrete step is given |
| Probing.ProbeNext | core/native/maps/simple.h:236-247 | Each step of the loop is the next element of the probe sequence, for every size up to 2^31 |
| Probing.ProbesCoverIffPrime | core/native/maps/simple.h:215-220 | The first n probes of every hash visit every slot if and only if n is prime |
| Probing.SameProbesIff | core/native/maps/simple.h:215-247 | Two hashes probe alike if and only if they agree modulo n(n-1), so there are n(n-1) different probe sequences |
| PrimeList.AllPrime | core/native/maps/simple.h:450-484 | The listed table sizes up to 1610612741 are prime, by checked certificates |
| SizeGaps.LeastPrimeAbove | core/native/maps/simple.h:450-484 | From 53 on each listed size is the least prime above three times a power of two |
| PrimeList.OtherSizes | core/native/maps/simple.h:450-484 | The sizes outside that rule: the three smallest and the two largest |
| SlotBits.SetExistEffect | core/native/maps/simple.h:143-150 | Setting an exist bit in the packed words changes that slot's exist bit and no other bit of any slot |
| SlotBits.SetFreeEffect | core/native/maps/simple.h:143-150 | Clearing an exist bit changes that slot's exist bit and nothing else |
| SlotBits.SetDirtyEffect | core/native/maps/simple.h:143-150 | Setting a dirty bit changes that slot's dirty bit and nothing else |
| SlotBits.FlagPositions | core/native/maps/simple.h:143-150 | A word holds sixteen exist bits in its low half and the dirty bits of the same slots in its high half |
| OpenTable.AbsentWhenClean | core/native/maps/simple.h:240-248 | Where the probe path of a key meets a clean slot without having met the key, the table does not hold it |
| OpenTable.ProbeBounded | core/native/maps/simple.h:238-248 | A walk over dirty slots is shorter than the table while some slot is clean, so every probe loop ends |
| OpenTable.CountIsCardinality | core/native/maps/simple.h:327-329 | With no two stored slots holding the same key, the number of exist bits is the number of keys |
| HashTable.SevenTenths | core/native/maps/simple.h:650 | The load bound is the largest number of slots not above seven tenths of the table |
| OpenTable.Insert | core/native/maps/simple.h:317-331 | Taking a free slot at the end of a chain known to lack the key keeps the table invariant and adds exactly that entry to the map |
| OpenTable.Delete | core/native/maps/simple.h:407-414 | Freeing a slot but leaving its dirty bit keeps every other probe chain and removes exactly that key |
| HashTable.Table.Find | core/native/maps/simple.h:228-272 | The probe loop ends, and finds the slot of the key if and only if the map holds it |
| HashTable.Table.SkipTaken | core/native/maps/simple.h:295-308 | The first loop only adds dirty bits, leaves the map unchanged, and stops at the key or at a free slot on its path |
| HashTable.Table.SeekDuplicate | core/native/maps/simple.h:309-324 | The second loop finds the key beyond the free slot or proves it absent |
| HashTable.Table.PutSlot | core/native/maps/simple.h:283-332 | The slot returned is the right one to store the node in: the map then gains that entry; the flag says whether the key was there, and the counters still count bits |
| HashTable.Table.Put | core/native/maps/simple.h:358-366 | Refines map update in one table and reports the node that was replaced |
| HashTable.Table.Delete | core/native/maps/simple.h:406-414 | Refines removal of the key stored in a slot, with size and n_dirty still exact |
| SimpleMap.Room | core/native/maps/simple.h:342-350 | Batches of at least 256 slots and the growth of the listed sizes bound both tables of a resize: the shadow stays below its own load bound and the old table keeps a clean slot |
| SimpleMap.MigratePut | core/native/maps/simple.h:349-365 | A put into both tables keeps the shadow a submap that covers every slot below the position |
| SimpleMap.MigrateDelete | core/native/maps/simple.h:415-418 | So does a delete from both tables |
| SimpleMap.MigrationComplete | core/native/maps/simple.h:598-602 | When the last slot is migrated the two tables hold the same map and their sizes agree |
| SimpleMap.Map.constructor | core/native/maps/simple.h:495-510 | A new map is valid and empty |
| SimpleMap.Map.Resize | core/native/maps/simple.h:577-605 | A batch changes no entry of the map; a resize that ends swaps in a table with room, its sizes agreeing so that abort is not reached; one that does not end advances by exactly one batch |
| SimpleMap.Map.StartResize | core/native/maps/simple.h:607-656 | The next size is the first listed one that is large enough; the batch is what is asked for, or a 262144th of the table, but at least 256; a request while resizing or for fewer buckets changes nothing; the map keeps its entries |
| SimpleMap.Map.Put | core/native/maps/simple.h:334-404 | During any stage of any resize a put refines map update, returns the replaced entry, leaves the two tables in step and moves a resize in progress on by exactly one batch or to its end; a resize to the next listed size begins if and only if none is going on and the load bound is reached |
| SimpleMap.FinishResize | core/native/maps/simple.h:577-605 | Whatever is put and removed, a resize at position p is over before more than (n - p) / batch + 1 puts, n being the old number of slots and batch its batch size |
| SimpleMap.Map.Delete | core/native/maps/simple.h:406-420 | Deleting a slot removes its key from the map at any stage of a resize, from the shadow as well, and never moves the resize back |
| SimpleMap.Map.StepAfterDelete | core/native/maps/simple.h:486-493 | The resize step at the end of a delete changes no entry and moves on by one batch or to the end |
| SimpleMap.Map.Remove | core/native/maps/simple.h:423-429 | Removing a key refines map removal whether or not it was there |
| SimpleMap.Map.FindValue | core/native/maps/simple.h:431-435 | Lookup refines map lookup, also while a resize is in progress |
| SimpleMap.Map.SizeIsCardinality | core/native/maps/simple.h:162-164 | size is the number of keys at every moment |
| SimpleMap.Run | core/native/maps/simple.h:334-435 | Any interleaving of puts and removes across any number of resizes leaves the map that the operations describe on a mathematical map; it stops early only at the load bound of the largest modelled table |
| WideMultiply.WyMum | core/native/hashing/wyhash.h:80-92 | The two words returned are the exact 128-bit product, the wrap-arounds being counted |
| WideMultiply.Mult64To128 | core/native/hashing/xxhash.h:4692-4706 | The two words are the exact 128-bit product and no intermediate sum overflows; the same code is in polymur.h:158-164 |
| Wyhash.MulMod | core/native/hashing/wyhash.h:282-302 | Equals a times b modulo m for all b and a below m in spite of wrap-around in both additions, and what it equals for every other a |
| Wyhash.MulModExactIff | core/native/hashing/wyhash.h:282-302 | For which inputs the value is the product modulo m, as a condition on the inputs alone |
| Wyhash.MulModUnreducedCounterexample | core/native/hashing/wyhash.h:282-302 | An unreduced operand for which it is not |
| Wyhash.PowMod | core/native/hashing/wyhash.h:303-313 | Its value for every input; it is the power modulo m, if m is at least 2 or the exponent positive, whenever the operand can be doubled without missing the modulus, or is not squared, or loses a multiple of m |
| Wyhash.PowModExactIff | core/native/hashing/wyhash.h:303-313 | An operand gives the right power for all positive exponents if and only if its doubling loses nothing or a multiple of m |
| Wyhash.PowModUnreducedCounterexample | core/native/hashing/wyhash.h:303-313 | An operand and modulus for which the square is wrong |
| Wyhash.PowModOneCounterexample | core/native/hashing/wyhash.h:303-313 | The zeroth power modulo one is wrong for every operand |
| Wyhash.SplitOff | core/native/hashing/wyhash.h:316-337 | The shifts by 8, 4, 2 and 1 bits split a number into its odd part and the exact number of twos |
| Wyhash.Sprp | core/native/hashing/wyhash.h:314-348 | For every base decides whether the squares of what pow_mod gives hold a witness, early exits included; and so decides the strong probable prime test of Miller and Rabin wherever pow_mod loses nothing |
| Wyhash.SprpUnreducedCounterexample | core/native/hashing/wyhash.h:314-348 | A base above 2^63 to which the prime 7 fails though it is a strong probable prime |
| Wyhash.PrimePasses | core/native/hashing/wyhash.h:338-347 | An odd prime passes to every base it does not divide, by Fermat's theorem and since its only square roots of one are 1 and -1 |
| Wyhash.IsPrime | core/native/hashing/wyhash.h:349-367 | Accepts every odd 64-bit prime (2 is refused); accepts exactly the odd numbers that pass the tests the source makes; and what it accepts satisfies Fermat's congruence to base 2, and from 2047 on to each of the first twelve primes, none of which can then divide it |
| Polymur.Red611Exact | core/native/hashing/polymur.h:131-134 | The lazy reduction is congruent to its argument modulo 2^61-1 whenever the high part leaves room for the low 61 bits |
| Polymur.ExtRed611Exact | core/native/hashing/polymur.h:179-182 | The second reduction is congruent, and how nearly reduced its result is |
| Polymur.UpperTableSeed | core/native/hashing/polymur.h:209-211 | The constant of the table is 37^(2^32) modulo 2^61-1 |
| Polymur.BuildTable | core/native/hashing/polymur.h:209-217 | Entry i of the filled table is congruent to 37^(2^i), for all 64 entries |
| Polymur.AcceptedIffCoprime | core/native/hashing/polymur.h:221-225 | The remainder tests accept an odd exponent if and only if it is coprime to 2^61-2 |
| Polymur.PowerOf37 | core/native/hashing/polymur.h:227-236 | Two bits per step compute 37 to the exponent modulo 2^61-1, never reading past the table |
| Polymur.KeyPowers | core/native/hashing/polymur.h:238-244 | k, k2 and k7 are congruent to the key, its square and its seventh power, with the bounds on their size |
| PolymurGroup.OrderFactors | core/native/hashing/polymur.h:222-225 | Every prime factor of 2^61-2 is two or one of the eleven the source tests for |
| PolymurGroup.GeneratesIffCoprime | core/native/hashing/polymur.h:227-229 | A number congruent to 37^e generates the multiplicative group modulo 2^61-1, its powers returning to one after 2^61-2 steps and not before, if and only if e is coprime to 2^61-2; that 37 is a generator is certified |
| PolymurGroup.GeneratorReachesAll | core/native/hashing/polymur.h:227-229 | Every residue but zero is a power of a generator |
| Polymur.InitParams | core/native/hashing/polymur.h:201-247 | The loop ends, within 2^64 attempts, with the first exponent drawn that is not refused; the exponent is the one odd number that goes with the seed of that attempt; the parameters satisfy the bound on k7 and their key is 37 to that exponent, coprime to 2^61-2, and so a generator |
| Polymur.SameExponentIff | core/native/hashing/polymur.h:221 | Two seeds give the same exponent if and only if they agree above their low four bits |
| Polymur.RefusedIff | core/native/hashing/polymur.h:222-245 | An exponent is refused if and only if it shares a factor with 2^61-2 or the seventh power of its key is reduced to 15/16 of 2^60 or more, or to at most five |
| PolymurHash.Load0To8 | core/native/hashing/polymur.h:99-113 | Overlapping loads or-ed together give the little-endian value of 0 to 8 bytes without reading outside them |
| PolymurHash.OverlappingLoads | core/native/hashing/polymur.h:110-112 | Two 4-byte loads that share bytes agree on them, so or-ing adds nothing |
| PolymurHash.BlockFits | core/native/hashing/polymur.h:277-282 | With the bound on k7 no product or sum of a block wraps, the reduction is exact, and the accumulator stays below 2^64-2^56 |
| PolymurHash.ThreeProductsFit | core/native/hashing/polymur.h:304-308 | The sums of the longest tail do not wrap either |
| PolymurHash.HashBlock | core/native/hashing/polymur.h:274-286 | One round gives the exact polynomial step modulo 2^61-1 |
| PolymurHash.HashBlocks | core/native/hashing/polymur.h:267-290 | The block loop gives the explicit sum of the blocks weighted by powers of k^7 |
| PolymurHash.LongTail | core/native/hashing/polymur.h:292-309 | Tails of 8 to 49 bytes, with their overlapping words, give the intended polynomial |
| PolymurHash.HashPoly611 | core/native/hashing/polymur.h:254-313 | For every message, key and tweak the result less the tweak is congruent modulo 2^61-1 to the exact polynomial of the message over the integers |
| PolymurUniversal.CoefficientsArePolynomial | core/native/hashing/polymur.h:254-313 | The polynomial of a message as a row of coefficients, in which a block's lowest coefficient falls on the next block's highest |
| PolymurUniversal.CoefficientsDetermine | core/native/hashing/polymur.h:254-313 | Different messages stand for different polynomials, even modulo 2^61-1: from the coefficients the length, every word and every byte can be read off |
| PolymurUniversal.Universal | core/native/hashing/polymur.h:254-313 | Two different messages agree modulo 2^61-1 at no more than 7c+14 of the 2^61-1 possible keys, c being the number of blocks of the longer one |
| PolymurUniversal.CollisionKey | core/native/hashing/polymur.h:254-313 | HashPoly611 gives two messages the same value, under any tweak, only under one of those keys |
| PolymurUniversal.UnmixMix | core/native/hashing/polymur.h:190-199 | The final mixing can be undone and so makes no more messages collide |
| PolymurUniversal.MixKnown | core/native/hashing/polymur.h:190-199 | The mixed value of one word |
| PolymurUniversal.KnownShort | core/native/hashing/polymur.h:254-313 | The polynomial of three given bytes under the key two |
| PolymurUniversal.KnownMiddle | core/native/hashing/polymur.h:254-313 | The polynomial of fifteen given bytes under the key two |
| PolymurUniversal.KnownLong | core/native/hashing/polymur.h:254-313 | The polynomial of forty given bytes under the key two |
| PolymurUniversal.KnownBlocks | core/native/hashing/polymur.h:254-313 | The polynomial of ninety-nine given bytes, two blocks and a byte, under the key two |
| Blocks.FoldContinue | core/native/hashing/xxhash.h:3201-3247 | Reading on from any point of a message is reading the left-over bytes and then what follows |
| Blocks.Buffer.Feed | core/native/hashing/xxhash.h:3201-3247 | Filling up the buffer, taking the full blocks and keeping the rest leaves the state over the message so far and its tail in the buffer, for any block width; the 64-bit variant has the same lines |
| XxHash32.Finalize | core/native/hashing/xxhash.h:2993-3009 | The rolled loops digest the last bytes as the recursive definition does |
| XxHash32.OneShot | core/native/hashing/xxhash.h:3089-3128 | The one-shot loop computes the hash of the message as folded over its blocks |
| XxHash32.State.Update | core/native/hashing/xxhash.h:3185-3251 | After an update the lanes, the buffer, the wrapped length and the flag are those of the message so far with the input appended |
| XxHash32.State.Count | core/native/hashing/xxhash.h:3198-3199 | The flag is set if and only if the true total is at least 16, though the 32-bit length wraps |
| XxHash32.State.Digest | core/native/hashing/xxhash.h:3254-3270 | The digest is the one-shot hash of everything fed in so far |
| XxHash32.Stream | core/native/hashing/xxhash.h:3173-3270 | Any cutting of any message into updates gives the one-shot hash |
| XxHash32.ReadBytes | core/native/hashing/xxhash.h:2805-2834 | The bytes of a word are those of the input, least significant first |
| XxHash32.KnownZero | core/native/hashing/xxhash.h:3089-3128 | The hash of a text of two blocks, a word and three bytes |
| XxHash32.KnownSeeded | core/native/hashing/xxhash.h:3089-3128 | The hash of the same text with a seed |
| XxHash32.KnownBlock | core/native/hashing/xxhash.h:3089-3128 | The hash of exactly one block |
| XxHash32.KnownShort | core/native/hashing/xxhash.h:3089-3128 | The hash of three bytes |
| XxHash64.Finalize | core/native/hashing/xxhash.h:3496-3523 | The loops digest the last 0 to 31 bytes as the recursive definition does, taking the length modulo 32 |
| XxHash64.OneShot | core/native/hashing/xxhash.h:3544-3585 | The one-shot loop computes the hash of the message as folded over its blocks |
| XxHash64.State.Update | core/native/hashing/xxhash.h:3643-3702 | After an update lanes, buffer and length are those of the message so far with the input appended |
| XxHash64.State.Digest | core/native/hashing/xxhash.h:3705-3725 | The digest is the one-shot hash of everything fed in so far, unless the 64-bit length has wrapped to less than 32; what it is then is given, too |
| XxHash64.Stream | core/native/hashing/xxhash.h:3630-3725 | Any cutting of any message into updates gives the one-shot hash, or that other value when the length has wrapped to less than 32 |
| XxHash64.ReadBytes | core/native/hashing/xxhash.h:2805-2834 | The bytes of a short word are those of the input, least significant first |
| XxHash64.ReadHalves | core/native/hashing/xxhash.h:3377-3408 | A long word is the short word at its place and the next one above it |
| XxHash64.KnownZero | core/native/hashing/xxhash.h:3544-3585 | The hash of a text of a block, a short word and three bytes |
| XxHash64.KnownSeeded | core/native/hashing/xxhash.h:3544-3585 | The hash of the same text with a seed |
| XxHash64.KnownBlock | core/native/hashing/xxhash.h:3544-3585 | The hash of exactly one block |
| XxHash64.KnownShort | core/native/hashing/xxhash.h:3544-3585 | The hash of a long word, a short word and three bytes with a seed |
| XxHash3.RowIsFold | core/native/hashing/xxhash.h:5061-5078 | A run of stripes within a block is what single stripes do, the scramble falling behind the last one |
| XxHash3.ConsumeStripes | core/native/hashing/xxhash.h:6537-6578 | Stripes that start and end anywhere in a block advance lanes and counter as one stripe at a time would, across any number of block ends |
| XxHash3.HashLong | core/native/hashing/xxhash.h:6120-6157 | Whole blocks first and then the rest give the same lanes as stripe after stripe, all but the last 1 to 64 bytes, and then the last 64 once more |
| XxHash3.OneShot | core/native/hashing/xxhash.h:6285-6302 | The hash of a whole message, short or long |
| XxHash3.State.Update | core/native/hashing/xxhash.h:6588-6679 | After an update the state stands for the message so far with the input appended: some stripes consumed, the rest buffered, never less than one byte, and the buffer's end still showing the last stripe consumed |
| XxHash3.State.FillBuffer | core/native/hashing/xxhash.h:6635-6650 | Completing the buffer consumes its four stripes and nothing else |
| XxHash3.State.TakeInput | core/native/hashing/xxhash.h:6652-6665 | Stripes consumed straight from the input leave a copy of the last one at the buffer's end |
| XxHash3.State.DigestLong | core/native/hashing/xxhash.h:6688-6730 | The lanes, with the last stripe rebuilt from the buffer's two ends when it must be, are those of the one-shot loop; the state is unchanged |
| XxHash3.State.RebuiltStripe | core/native/hashing/xxhash.h:6717-6725 | The catch-up bytes and the buffered bytes together are the last 64 bytes of the message |
| XxHash3.State.Digest | core/native/hashing/xxhash.h:6733-6749 | The digest is the one-shot hash of everything fed in so far, unless the 64-bit length has wrapped to 240 or less; then it is the short hash of the buffer |
| XxHash3.Stream | core/native/hashing/xxhash.h:6588-6749 | Any cutting of a message into updates gives the one-shot hash, whatever the secret and the mixing functions, unless its length has wrapped to 240 or less |
| XxHash3.BlockFillsSecret | core/native/hashing/xxhash.h:6129-6131 | A block has as many stripes as the secret allows at eight bytes each: 1024 bytes with a secret of 192 |
| XxHash3.KeyedLanes | core/native/hashing/xxhash.h:5916-5931 | Where a stripe equals the 64 bytes of the secret it meets, each lane gains its neighbour's word and no product |
| XxHash3.ScrambledKey | core/native/hashing/xxhash.h:5963-5993 | The scramble takes the last eight words of the secret, one a lane |
| XxHash3.LastStripeKeyed | core/native/hashing/xxhash.h:6150-6156 | The last stripe meets the 64 bytes of the secret that end seven bytes before its end |
| XxHash3.KnownLanes | core/native/hashing/xxhash.h:6120-6157 | The lanes after 648 given bytes under a secret of 136 zeros: nine stripes, a scramble, a tenth stripe and the last one |
| XxHash3.LongFrom241 | core/native/hashing/xxhash.h:6285-6302 | 240 bytes are a short message and 241 a long one |
| Murmur32.ShiftByte | core/native/hashing/murmur32.c:163-172 | Shifting a byte into the carry appends it to the bytes carried, whatever lies below them |
| Murmur32.ShiftWord | core/native/hashing/murmur32.c:216-246 | Joining the carried bytes with a word yields one full block and leaves as many bytes over, for each carry count |
| Murmur32.CountStored | core/native/hashing/murmur32.c:256-257 | The count stored in the low bits can be read back and leaves the carried bytes alone |
| Murmur32.DoBytes | core/native/hashing/murmur32.c:163-172 | Byte by byte the state becomes that of the longer message |
| Murmur32.PlainWords | core/native/hashing/murmur32.c:198-203 | Mixing words as they are is right when nothing is carried |
| Murmur32.NothingCarried | core/native/hashing/murmur32.c:192-199 | After the first bytes the carry is empty, or there are too few bytes for a word |
| Murmur32.JoinedWords | core/native/hashing/murmur32.c:223-246 | Joining each word with the carried bytes is right for each carry count from 1 to 3 |
| Murmur32.ProcessUnaligned | core/native/hashing/murmur32.c:178-258 | With its plain word loop, one call turns the state of a message into that of the message with the input appended |
| Murmur32.ProcessAligned | core/native/hashing/murmur32.c:208-258 | The aligned variant, with its choice of word loop, does the same for every address |
| Murmur32.Result | core/native/hashing/murmur32.c:263-281 | The result is the reference MurmurHash3_x86_32 of the message |
| Murmur32.Stream | core/native/hashing/murmur32.c:178-291 | Any pieces, each read by either variant at any alignment, give the reference hash of their concatenation; the two variants agree |
| Murmur32.KnownHello | core/native/hashing/murmur32.c:148-281 | The hash of a block and a byte |
| Murmur32.KnownEmpty | core/native/hashing/murmur32.c:263-291 | The hash of nothing, with a seed |
| MsgPack.HeadOfValue | storage/dart/assets/msgpuck.h:3208-3311 | The first bytes of a written value are recognised as exactly that value's, with its number of nested values |
| MsgPack.FlatFindsValues | storage/dart/assets/msgpuck.h:3204-3315 | Counting values still due instead of recursing finds the end of any row of values of the grammar |
| MsgPack.FlatIsValues | storage/dart/assets/msgpuck.h:3204-3315 | And whatever that count accepts is such a row |
| MsgPack.ScanIffValue | storage/dart/assets/msgpuck.h:3204-3320 | Scanning one value succeeds if and only if the bytes begin with a value of the recursive grammar |
| MsgPack.Unambiguous | storage/dart/assets/msgpuck.h:3204-3320 | No bytes are two different rows of values |
| MsgPack.ScanMore | storage/dart/assets/msgpuck.h:3179-3189 | More bytes change no verdict but truncated, and a truncated buffer can only be completed beyond its end and by at least as many bytes as values were due |
| MsgPackScan.HintIsFormat | storage/dart/assets/msgpuck.h:3018-3032 | The hint of each first byte says what its format in the specification says |
| MsgPackScan.CheckFixed | storage/dart/assets/msgpuck.h:3212-3231 | A round for a fixed hint makes the step the grammar calls for, errors included |
| MsgPackScan.CheckCounted | storage/dart/assets/msgpuck.h:3233-3314 | So does a round that reads a length or count |
| MsgPackScan.Check | storage/dart/assets/msgpuck.h:3174-3321 | Returns success exactly when the bytes begin with a value of the grammar whose extensions the checker accepts, then stops at its end; and otherwise which error, where, with how many values due; the 64-bit counter cannot overflow on buffers below 0x140000005 bytes |
| MsgPackScan.CounterOverflows | storage/dart/assets/msgpuck.h:3204-3277 | A buffer of map headers of at least 0x140000005 bytes, each announcing as many pairs as it can, takes the counter out of 64 bits |
| MsgPackScan.CounterFitsIff | storage/dart/assets/msgpuck.h:3204-3277 | No buffer of n bytes takes the counter out of 64 bits if and only if n is below 0x140000005 |
| MsgPackScan.CheckExact | storage/dart/assets/msgpuck.h:3323-3339 | Succeeds exactly when the whole buffer is one value |
| MsgPackScan.EightEqual | storage/dart/assets/msgpuck.h:3055-3074 | The multiplication trick recognises exactly the words of eight equal bytes |
| MsgPackScan.SkipEqual | storage/dart/assets/msgpuck.h:3061-3083 | Skipping eight equal one-byte values per load stays inside the buffer and ends where single steps would |
| MsgPackScan.NextSlowpath | storage/dart/assets/msgpuck.h:3037-3145 | From any point within a value the slow path ends at the value's end |
| MsgPackScan.Skip | storage/dart/assets/msgpuck.h:3148-3172 | mp_next ends at the end of the value, on any value of the grammar in a buffer of any length, including the hand-over to the slow path, and reads nothing beyond it; its counter never exceeds the bytes left |
| MsgPackCodec.SizeIsLength | storage/dart/assets/msgpuck.h:2473-2495 | For every encoder the sizeof function is the number of bytes written modulo 2^32, and the number itself if and only if a string or binary is shorter than 2^32-5 bytes and an extension shorter than 2^32-6 |
| MsgPackCodec.SizeWrapsCounterexample | storage/dart/assets/msgpuck.h:2473-2477 | The longest string: its size is 4 and 2^32+4 bytes are written |
| MsgPackCodec.EncodedIsValue | storage/dart/assets/msgpuck.h:2214-2264 | What is encoded for an integer, float, double, string, binary, extension, boolean or nil is a value of the grammar |
| MsgPackCodec.NeverBegins | storage/dart/assets/msgpuck.h:3204-3315 | The byte 0xc1 begins no value |
| MsgPackCodec.FloatRoundTrip | storage/dart/assets/msgpuck.h:2386-2440 | Decoding an encoded float or double gives its bits back and moves the cursor by its size |
| MsgPackCodec.ArrayIsValue | storage/dart/assets/msgpuck.h:1904-1917 | An array header followed by that many values is an array of the grammar |
| MsgPackCodec.MapIsValue | storage/dart/assets/msgpuck.h:1986-2000 | A map header followed by that many pairs is a map of the grammar |
| MsgPackCodec.UIntRoundTrip | storage/dart/assets/msgpuck.h:2277-2295 | Decoding an encoded unsigned number gives it back and moves the cursor by its size |
| MsgPackCodec.IntRoundTrip | storage/dart/assets/msgpuck.h:2337-2355 | Decoding an encoded negative number gives it back and moves the cursor by its size |
| MsgPackCodec.IntOfAnyWidth | storage/dart/assets/msgpuck.h:2337-2355 | A signed number of any of the four widths is read with its value, negative or not |
| MsgPackCodec.CompareIsNumeric | storage/dart/assets/msgpuck.h:2297-2335 | On encoder output the comparison has the sign of the numeric comparison |
| MsgPackCodec.ReadFits | storage/dart/assets/msgpuck.h:2806-2944 | On encoder output each mp_read_intN succeeds with the value if and only if it fits, and moves the cursor only then |
| MsgPackCodec.ReadRefusesWideFormat | storage/dart/assets/msgpuck.h:2806-2830 | On other input the format decides: a small number written wide is refused |
| MsgPackCodec.ArrayRoundTrip | storage/dart/assets/msgpuck.h:1947-1972 | Decoding an array header gives the count back |
| MsgPackCodec.MapRoundTrip | storage/dart/assets/msgpuck.h:2027-2042 | Decoding a map header gives the count back |
| MsgPackCodec.StrRoundTrip | storage/dart/assets/msgpuck.h:2628-2655 | Decoding a string gives its length back and its contents are what follows |
| MsgPackCodec.BinRoundTrip | storage/dart/assets/msgpuck.h:2657-2683 | Decoding a binary gives its length back and its contents are what follows |
| MsgPackCodec.ExtRoundTrip | storage/dart/assets/msgpuck.h:2125-2161 | Decoding an extension gives type and length back and its contents are what follows |
| MsgPackCodec.BoolRoundTrip | storage/dart/assets/msgpuck.h:2767-2804 | Decoding an encoded boolean gives it back and moves the cursor by one byte |
| MsgPackWriter.Writer.EncodeSafe | storage/dart/assets/msgpuck.h:2532-2541 | The size goes down by the item's 32-bit size whether or not it is written, it is written if and only if that leaves nothing negative, and the buffer holds the longest prefix whose sizes fit |
| MsgPackWriter.EncodeAll | storage/dart/assets/msgpuck.h:1919-1928 | After any sequence of safe calls the size is the start less all sizes, the bytes written are the encodings of the longest prefix of items whose sizes fit, and nothing around them has changed; with exact sizes they are as many as the sizes say and inside the room |
| MsgPackWriter.TotalIsLength | storage/dart/assets/msgpuck.h:2532-2541 | What is counted is the number of bytes written if and only if every item's size is exact, and less otherwise |
| MsgPackWriter.RoomKeptIff | storage/dart/assets/msgpuck.h:2532-2541 | Safe calls keep to the room, whatever it is, if and only if every item's size is exact |
| MsgPackWriter.OverrunCounterexample | storage/dart/assets/msgpuck.h:2532-2541 | The longest string is written to a room of four bytes, with zero left afterwards |
| StorageBatch.SlicesCover | storage/native/storage/box.c:306-314 | The ranges lie end to end and together are exactly the elements' bytes |
| StorageBatch.InsertMany | storage/native/storage/box.c:295-337 | On success the ranges are those of the array's elements in order, from the header's end to the payload's end; it fails if and only if the box refuses an element after those before it or the commit fails, and at the first one refused |
| LinkedList.Node.Create | core/native/lists/linked.h:65-70 | A node by itself is a ring |
| LinkedList.Rotate | core/native/lists/linked.h:56-60 | A ring read from any of its nodes is the same ring |
| LinkedList.Add | core/native/lists/linked.h:75-82 | The item becomes the first of the list |
| LinkedList.AddTail | core/native/lists/linked.h:87-94 | The item becomes the last of the list |
| LinkedList.Delete | core/native/lists/linked.h:99-105 | The item leaves the list from any place and becomes a ring of its own |
| LinkedList.Shift | core/native/lists/linked.h:107-115 | The first item leaves the list; an empty list gives its own head |
| LinkedList.Empty | core/native/lists/linked.h:164-168 | Tells whether the list has items |
| LinkedList.MoveTail | core/native/lists/linked.h:187-196 | The item becomes the last of the target list and leaves its own, also when both are the same list or it is last already |
| LinkedList.Swap | core/native/lists/linked.h:198-213 | The two heads exchange their lists, empty ones included |
| LinkedList.Splice | core/native/lists/linked.h:218-229 | The second list's items come before those of the first and the second is empty |
| LinkedList.SpliceTail | core/native/lists/linked.h:234-245 | The second list's items come behind those of the first and the second is empty |
| LinkedList.CutBefore | core/native/lists/linked.h:251-265 | The items before the given one move under the first head, for every cut including none and all; for a first head with stale links this holds if and only if it does not point at the item already or there is nothing to move |
| LinkedList.CutSkippedByStaleHead | core/native/lists/linked.h:251-258 | Two items and a first head that points at the second: the cut is not made |
| LinkedList.GuardPasses | core/native/lists/linked.h:254-258 | The head of a proper list of its own always satisfies that condition |
| WakeProtocol.DecodeSent | executor/native/scheduler/scheduler.c:67-125 | In the order of the tests each message is decoded as what it was sent as, a poll that found input as a poll whatever else its mask says, and a poll that only failed as nothing |
| WakeProtocol.Round | executor/native/scheduler/scheduler.c:44-128 | A batch read in place and released together is its completions handled one after the other |
| WakeProtocol.TokenStep | executor/native/scheduler/scheduler.c:67-125 | Each step of scheduler, kernel or executor changes the number of wake tokens of an executor only by a registration, a farewell post, a removed poll, or a message or post that is ignored |
| WakeProtocol.OneTokenPerRegistration | executor/native/scheduler/scheduler.c:84-104 | Throughout a registration, however it goes on, exactly one wake token exists if and only if none was left over when REGISTER was handled |
| WakeProtocol.TokensOfRegistration | executor/native/scheduler/scheduler.c:84-104 | At any moment of a registration there is one token more than were left over, less those taken by removals that found a poll armed; at most as many as removals were pending, and none if no token was left over |
| WakeProtocol.NothingLeftOver | executor/native/scheduler/scheduler.c:67-125 | None is left over exactly when no poll is armed or about to be, and no poll event, request or post is under way |
| WakeProtocol.CleanAfterGone | executor/native/scheduler/scheduler.c:106-125 | After a clean unregistration the next registration is clean as soon as nothing is under way |
| WakeProtocol.HastyReactivation | executor/native/scheduler/scheduler.c:96-125 | Unregistering and registering again at once leaves three; the run is given |
| WakeProtocol.UnregisterLeaves | executor/native/scheduler/scheduler.c:106-125 | Handling UNREGISTER leaves no poll behind if and only if at most one would be armed once the queue is executed, as with at most one wake token |
| WakeProtocol.PollsLeftArmed | executor/native/scheduler/scheduler.c:84-125 | A run from a sound state that ends with two polls armed, nobody registered and nothing left to submit |
| WakeProtocol.NoPollAfterUnregister | executor/native/scheduler/scheduler.c:106-125 | And through any run until the next registration no poll is armed once the scheduler's queue is submitted |
| WakeProtocol.StepPrompt | executor/native/executor/executor.h:40-48 | An idle executor never has a message waiting to be submitted |
| WakeProtocol.StepValid | executor/native/executor/executor.c:51-151 | No step makes an executor send a scheduler message that names another |
| WakeProtocol.StepFifo | executor/native/scheduler/scheduler.c:44-128 | Completions and submissions are taken in the order they came in, and a registration or its end comes behind all its executor sent before |
| WakeProtocol.RequestsInOrder | executor/native/executor/executor.c:51-87 | What an executor submits keeps its order |
| TaskProtocol.StepKeeps | executor/native/executor/executor.c:89-122 | Every step keeps each task in exactly one place, with the source, target and run count that place implies |
| TaskProtocol.OnePlace | executor/native/executor/executor.c:89-122 | In every reachable state a task is carried by exactly the queue its place names, and never twice |
| TaskProtocol.SentComesHome | executor/native/executor/executor.c:89-122 | A task sent is either on its way or back in the ring it was sent from, its method having run exactly once |
| TaskProtocol.SentIsServedThere | executor/native/executor/executor.c:89-122 | Through every run a task sent to a ring is on its way there or there until its method has run, and the step that runs the method is one of that ring |
| TaskProtocol.StepFifo | executor/native/executor/executor.c:89-122 | Every queue is served in the order in which messages came into it |
| TaskProtocol.StepCloser | storage/native/storage/executor.c:46-61 | Every step but a new sending brings one task nearer to its return |
| TaskProtocol.SomeStep | storage/native/storage/executor.c:46-61 | As long as a task is away such a step is possible, so no task is stuck |
| TaskProtocol.RunCloser | storage/native/storage/executor.c:46-61 | A run without a new sending has no more steps than the tasks' distance, and what is left of the distance is smaller by at least as much |
| TaskProtocol.RunEndsHome | storage/native/storage/executor.c:46-61 | After any run that can only be continued by a new sending, every task is home |
| TaskProtocol.AllComeHome | storage/native/storage/executor.c:46-61 | From every reachable state the rings can bring all tasks home without a new sending, in no more steps than the distance they have to go |
| TaskProtocol.ServeBatch | storage/native/storage/executor.c:46-62 | A batch of the storage's loop, read in place and released together, runs and returns every task in order, and empties the completions |

## Left out

- SimpleMap.Map.Put: stops at the load bound of the table of 1610612741 slots; in the two larger sizes `next_slot` wraps, which `Probing.NextSlotWrapsInLargestTable` shows.
- SimpleMap.Map.StartResize: a request for exactly the current number of buckets, which only `reserve` can make, starts a resize to the same size and is outside the growth argument.
- SimpleMap.Map.constructor: allocation failure, `calloc` and `free` are not modelled; the shadow is an object that is absent when the source zeroes it.
- The recursive put into the shadow is modelled as a put into one table; `SimpleMap.Room` shows that the shadow stays below its load bound, so the recursion's own resize branch is never taken.
- Keys carry their hash and are compared as values: the caller's hash and comparison macros are assumed to agree.
- `clear`, `reserve`, `random`, iteration and the byte-map variant of `simple.h`: `clear` resets neither n_dirty nor resize_position, so the counting invariant does not cross it.
- The load bound 0.7 times n, computed in floating point, is taken as floor(7n/10).
- Wyhash.IsPrime: that an accepted number is prime is not shown; it rests on published tables of pseudoprimes.
- PolymurHash.HashPoly611: the addition of s behind the final mixing is left out; `PolymurUniversal.UnmixMix` shows the mixing alone. How likely it is that a drawn key is one of the colliding ones is not counted, only how many of these there are.
- The hash functions' mixing steps are taken as they are: what is proved holds for them but says nothing about their quality.
- XxHash3.Stream: the short-input hashes and the merging of the lanes are arbitrary functions of their inputs; the secret is any one of at least 136 bytes. SIMD forms, secret generation and aligned allocation are left out.
- XxHash32.Finalize: the jump-table form of the finalization is left out.
- XxHash3.State.Digest: for a message whose length has wrapped to 240 or less it is not said what the buffer then holds.
- Murmur32.JoinedWords: the three word loops for one to three carried bytes are one loop that picks the shift; `|` of disjoint bits is proved to be a sum.
- MsgPackScan.Check: buffers are below 0x140000005 bytes, from where on the counter can overflow, as `MsgPackScan.CounterFitsIff` shows. The definitions of `mp_parser_hint` and `mp_ext_hint` are not part of the repository's files; the tables are written from the specification and the hint constants.
- MsgPackCodec.FloatRoundTrip: floating-point numbers are the words of their bits.
- MsgPackWriter.Writer.EncodeSafe: one method stands for the safe family, and an encoding is stored as a whole; calls without a size are left out. The size counted down is an unbounded integer: that it stays above -2^63 is not part of the claim.
- StorageBatch.InsertMany: transactions, ports and tuples are reduced to whether an element is taken and whether the commit succeeds.
- `mp_format`, JSON printing, `mp_stack` and the other box functions.
- `linked_list_move` and `linked_list_shift_tail` are compositions of the modelled operations.
- WakeProtocol.OneTokenPerRegistration: an executor that is paused or stopped drops its posts, and a poll that ends without input is ignored by the loop; either ends the claim.
- WakeProtocol.Round: rings, ports and executors are values, not objects; submission queues never run full, posts always succeed, and the scheduler's table starts empty although the source leaves it uninitialised. The STOPPING state of the Dart side, start-up and shutdown are left out.
- TaskProtocol.SentComesHome: the storage ring only serves; `executor_call_dart` and `executor_callback_to_dart`, which only test code uses, are left out, as are full queues.
- The Dart bridge, crash handling, printing, transport, memory pools and the Tarantool launcher: glue over code that is not shown.
