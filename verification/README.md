# Exosphere and emuMMC: a verified model

This project models the hardest logic of the Exosphere secure monitor (`exosphere/src`) and one decoder of
emuMMC (`emummc/source/emmc`), and proves what that logic keeps, computes or fails to guarantee.
`dafny verify dfyconfig.toml` checks the whole project.

| module | models |
|---|---|
| `Package2` | the package2 metadata validator in wrapping 32-bit arithmetic, and the section loader over a byte memory |
| `SmcProtocol` | secure monitor calls, the user lock, the callback key and the Security Engine slot as a step system |
| `Bakery` | the four-core bakery lock, as intended and as written, over all interleavings |
| `Bits`, `Gf128`, `Gcm`, `KeyWrap`, `Cmac`, `RsaEncodings` | GF(2^128), GHASH, key wrapping, CMAC, MGF1, OAEP, PSS over abstract ciphers and hashes |
| `Words`, `Memory`, `Strings` | the word-at-a-time libc over one byte memory |
| `Mmu`, `Layout`, `MemoryMap` | translation tables, the running-offset layout and the monitor's memory map |
| `RandomCache`, `SharedCache` | the ring cache of random bytes, call by call and step by step for two contexts |
| `CardResponse` | SD/MMC response reassembly and the register parsers |

What the model takes as parameters: the block cipher, its CTR keystream, SHA-256 and the digest unit are
functions (the cipher is only assumed length-preserving, or injective where a statement says so); random keys,
arrival of the completion interrupt, caller arguments and schedules are chosen by the environment; whether
section hashes are compared is a flag (the repository's debug setting switches it off, `exocfg.h`). Physical
memory is an array indexed by address; in the libc modules an index is an address, so its remainder modulo 8 is
the alignment. Attribute bits of a page descriptor are a set, because all the fields that are ORed together are
disjoint. Completion interrupts are handled only on core 3 and only outside the monitor, so core 3's own
bookkeeping is atomic while every operation on the shared user lock is a step of its own. Word accesses of the libc
demand aligned addresses. Every lemma switches automatic induction off, so each induction is written out.

Where code and comment or standard disagree, the code is modelled and the difference is proved:

- The bakery loop reads the core's own slot, so every ticket is 1 and two cores can be inside together
  (`Bakery.LiteralTicketIsOne`, `Bakery.LiteralAdmitsTwo`, `Bakery.LiteralExcludesIff`).
- A status query that is early or has the wrong size consumes the key while the lock stays held, and an AES
  request of zero bytes reports success without ever completing (`SmcProtocol.WedgedExactlyBySpoiling`).
- GHASH drops a partial last block and moves the length word (`Gcm.GhashVersusStandard`,
  `Gcm.EncryptingGhashVersusStandard`, `Gcm.GhashAgreesIff`); `gcm_encrypt_key` never
  copies its payload (`KeyWrap.WrappedPayloadIsLost`); CMAC of the empty message uses K1 (`Cmac.EmptyMessage`);
  PSS ignores the top bit (`RsaEncodings.StandardAcceptsIff`); OAEP refuses the empty message and the longest one the
  standard allows (`RsaEncodings.DecodeEncode`).
- The comments on the two AMS pages say they are not mapped at startup; the loop maps them to physical address 0
  (`MemoryMap.AmsPagesAreMapped`).
  The 7.0.0+ device macro reads the older table (`MemoryMap.Device7xPaMacroIsMapped`).
- Eighteen full reads of the random cache look like none to the refill (`RandomCache.SeventeenIsExact`), and core 3
  can read the cache at the same time as one of the other cores, so overlapping reads get the same bytes
  (`SharedCache.SafeIff`).
- An SD card of version 2 with C_SIZE all ones gets capacity 0 (`CardResponse.CsdVersion2`).

## Model

| member | source | states |
|---|---|---|
| `Package2.OverlapsMeaning` | exosphere/src/utils.c:69-76 | the half-open range test is "some address lies in both" on non-empty ranges, and what it answers for an empty first range |
| `Package2.Validate` | exosphere/src/package2.c:250-342 | the wrapping validator returns true exactly for metadata that is acceptable in unbounded arithmetic: sound layout, true sum, entrypoint in a section, hashes (when checked), versions |
| `Package2.ValidateAs` | exosphere/src/package2.c:250-342 | the same, with the size and version words already recovered from the header counter |
| `Package2.AcceptableAsMeans` | exosphere/src/package2.c:250-342 | acceptability with every number written out: magic, revision and version limits, section limits and alignment, pairwise disjointness, the sum and its cap, the entrypoint, and where each hashed section starts |
| `Package2.SizeWord` | exosphere/src/package2.c:258-258 | a header whose first counter word masks n with the third and fourth has package size n, for every n |
| `Package2.VersionWord` | exosphere/src/package2.c:259-259 | for every four bytes of the second counter word the version is the XOR of the lowest and the two highest |
| `Package2.CheckSections` | exosphere/src/package2.c:281-328 | the section loop passes exactly when every section passes, and finds the entrypoint exactly when a section holds it |
| `Package2.CheckSection` | exosphere/src/package2.c:285-326 | one iteration: alignment, 32-bit overflow, overlap with every later section, hash |
| `Package2.WrappedChecksAreExact` | exosphere/src/package2.c:276-328 | the 32-bit wrapping sum and per-section checks hold exactly when the layout is sound and the sizes truly add up to the package size |
| `Package2.DisjointSumFits` | exosphere/src/package2.c:276-313 | sections that end below 2^32 and are pairwise disjoint have a true size sum below 2^32, so the wrapped sum is exact |
| `Package2.AcceptedLayoutFacts` | exosphere/src/package2.c:250-342 | on acceptance every section is below the size limit and exactly one section holds the entrypoint |
| `Package2.SevenWindowsSuffice` | exosphere/src/package2.c:386-404 | pigeonhole: for every loadable layout one of the first seven windows meets no section |
| `Package2.HitsAtMostTwo` | exosphere/src/package2.c:386-404 | a section below the size limit meets at most the two windows that hold its ends |
| `Package2.FindWindow` | exosphere/src/package2.c:386-409 | the search returns the first clear window of eight, or none exactly when none of the eight is clear |
| `Package2.Relocate` | exosphere/src/package2.c:376-418 | the buffer ends up in a region no section touches, below the load region if moved, holding the original image; the load region is wiped and nothing else changes |
| `Package2.PlaceSection` | exosphere/src/package2.c:420-437 | one section arrives copied or CTR-transformed at its destination, nothing else changes |
| `Package2.PlaceAll` | exosphere/src/package2.c:420-437 | after the loop every section holds its bytes; earlier sections and the buffer are never disturbed |
| `Package2.LoadSections` | exosphere/src/package2.c:373-441 | for every loadable layout the panic is unreachable; every section holds the bytes of its slice of the image found on entry; load region and scratch are zero except where sections landed; no other byte changes |
| `Package2.DecryptHeader` | exosphere/src/package2.c:345-371 | accepts the first master key revision whose decryption validates, with all lower revisions rejected; panics exactly when none up to the maximum validates |
| `Package2.ReadHeader` | exosphere/src/package2.c:600-615 | the header bytes at the load address decide: a plaintext header is taken as parsed, otherwise the lowest revision whose candidate validates against the bytes in memory, with the four counter words of the clear header and every other field as decrypted; the panic exactly when none does |
| `Package2.LoadPackage2` | exosphere/src/package2.c:600-623 | from the bytes at the load address to the loaded sections: the header is decided as above, clear counter words and decrypted fields included; on a panic memory is unchanged; otherwise the sections hold their slices (hashing to their digests when checked), load region and scratch are wiped around them and nothing else changes |
| `SmcProtocol.StepKeepsInvariant` | exosphere/src/smc_api.c:216-448 | every lock step, wrapper step, handler, query and interrupt, on any core, keeps the protocol invariant |
| `SmcProtocol.EngineSafety` | exosphere/src/se.c:54-69 | in every run a pending engine callback means the user lock is held by a returned asynchronous call; no engine operation starts while one is pending; the callback-slot panic is unreachable; a live key means the lock is held |
| `SmcProtocol.PendingKeyBranchIsDead` | exosphere/src/smc_api.c:237-247 | whenever smc_wrapper_async has just taken the lock the callback key is zero, so its "still pending" answer is never given |
| `SmcProtocol.WedgedForever` | exosphere/src/smc_api.c:382-432 | once the key of an outstanding call is consumed, or nothing was started for it, the lock stays held in every continuation, suspends included |
| `SmcProtocol.CollectReleases` | exosphere/src/smc_api.c:434-448 | after the completion interrupt a query with the key and the expected size succeeds, frees the lock and clears the key |
| `SmcProtocol.ReleasableIffNotWedged` | exosphere/src/smc_api.c:334-432 | in every reachable state with the lock held, some continuation releases it if and only if the state is not wedged |
| `SmcProtocol.WedgedExactlyBySpoiling` | exosphere/src/smc_api.c:382-432 | a step wedges the protocol if and only if it is an empty AES request or a query with the right key that is too early or has the wrong size |
| `SmcProtocol.DisciplineKeepsProgress` | exosphere/src/smc_api.c:382-474 | a client that avoids exactly those events never wedges the protocol |
| `SmcProtocol.EarlyQueryWedges` | exosphere/src/smc_api.c:382-432 | concrete runs: a status or result query with the right key before the interrupt answers 3 and leaves the lock held in every continuation |
| `SmcProtocol.WrongSizeWedges` | exosphere/src/smc_api.c:434-448 | concrete runs: so does a query of the wrong size after the interrupt, for an exponentiation or a title key; oversized requests spoil nothing |
| `SmcProtocol.EmptyAesWedges` | exosphere/src/smc_user.c:297-350 | concrete run: an AES request of zero bytes reports success, starts nothing and leaves the lock held in every continuation |
| `SmcProtocol.KernelRandomNeverRefused` | exosphere/src/smc_api.c:582-605 | in every run a kernel request is answered from the cache at once, or takes the lock, keeps it and its place through any events of others, and its own two steps answer it and restore the state |
| `SmcProtocol.HolderAlone` | exosphere/src/smc_api.c:334-367 | while a core is inside any call that holds the lock, no event but its own next step changes anything |
| `SmcProtocol.SyncReplyIsHandedOn` | exosphere/src/smc_api.c:334-342 | in every run a synchronous call answers what its handler returned and frees the lock, whatever other cores do in between |
| `SmcProtocol.SuspendRefusalIsHandedOn` | exosphere/src/smc_api.c:565-572 | likewise for a refused suspend |
| `SmcProtocol.AsyncReplies` | exosphere/src/smc_api.c:344-367 | in every run an asynchronous call that starts answers 0 and keeps lock and key; a refused one answers its code, frees the lock and clears the key, whatever others do in between |
| `SmcProtocol.NoKeyReplies` | exosphere/src/smc_api.c:361-367 | in every run a call that draws no key answers 3 and frees the lock |
| `SmcProtocol.BusyReplies` | exosphere/src/smc_api.c:334-350 | while the lock is held, a synchronous, suspend or asynchronous call from outside answers 3 and changes nothing |
| `SmcProtocol.StatusReplies` | exosphere/src/smc_api.c:382-395 | in every run: 4 without a key, 5 for a wrong key; with the live key status 3 exactly while unfinished, 2 exactly when finished with a sized result, 0 exactly when finished without one, which is when the lock is freed |
| `SmcProtocol.ResultReplies` | exosphere/src/smc_api.c:397-532 | in every run: 4 without a key, 5 for a wrong key, 2 for an oversized request; with the live key status 3 exactly while unfinished, 2 exactly on a wrong size or a failed unwrap, 0 exactly on success; the lock is freed exactly when finished with the right size |
| `SmcProtocol.FinishedByInterrupt` | exosphere/src/se.c:63-69 | a started operation stays unfinished through any events until the completion interrupt, and is finished right after it |
| `Bakery.MutualExclusion` | exosphere/src/synchronization.h:77-137 | with the maximum taken over all customers, no interleaving puts two cores between enter and leave while tickets stay below 128 |
| `Bakery.StepKeepsInvariant` | exosphere/src/synchronization.h:92-137 | each read or write of any core keeps the ordering invariant of the intended algorithm |
| `Bakery.OverflowAdmitsTwo` | exosphere/src/synchronization.h:25-30 | the bound is needed: two cores that keep handing over reach ticket 128, which the 7-bit field shows as 0, and both end up inside |
| `Bakery.TicketBoundIsExact` | exosphere/src/synchronization.h:25-30 | a bound on the tickets drawn makes the intended algorithm exclude on all interleavings if and only if it is at most 128 |
| `Bakery.BootStateIsReached` | exosphere/src/start.s:294-299 | the boot state with core 0 inside is reached from the empty one, so all statements over runs cover runs from there |
| `Bakery.FirstComeFirstServed` | exosphere/src/synchronization.h:92-123 | as intended, a core that is past the doorway before another sets its flag is served first, over all continuations |
| `Bakery.LiteralStarves` | exosphere/src/synchronization.h:84-88 | as written, for every pair and any number of rounds the lower core enters that often while the higher one, ticket in hand and given as many turns, never moves |
| `Bakery.DeadlockFree` | exosphere/src/synchronization.h:108-119 | in every reachable state of either variant where a core has started to enter, some such core can go on |
| `Bakery.LiteralTicketIsOne` | exosphere/src/synchronization.h:97-103 | as written, every ticket ever taken is 1 |
| `Bakery.LiteralAdmitsTwo` | exosphere/src/synchronization.h:97-119 | as written, for every pair of cores there is a run of just those two with both in the critical section |
| `Bakery.LiteralExcludesIff` | exosphere/src/synchronization.h:92-137 | as written, the lock excludes over all interleavings of a set of cores if and only if the set has at most one core |
| `Bakery.LiteralExclusionInOrder` | exosphere/src/synchronization.h:92-137 | as written, it still excludes in every run where a core starts to enter only while all higher-numbered cores are idle |
| `Gcm.Shr128` | exosphere/src/gcm.c:29-34 | the two-word right shift is the 128-bit right shift |
| `Gcm.Shl128` | exosphere/src/gcm.c:36-41 | the two-word left shift is the 128-bit left shift |
| `Gcm.Round` | exosphere/src/gcm.c:60-67 | one round adds the selected multiple, shifts y and multiplies x by the field variable |
| `Gcm.Gf128Mul` | exosphere/src/gcm.c:43-72 | for all operands, dst aliasing one or both included, the result is the product of section 6.3 of NIST SP 800-38D, and the remainder of the carry-less product by x^128 + x^7 + x^2 + x + 1 with the quotient returned |
| `Gf128.MulIsStandard` | exosphere/src/gcm.c:43-72 | summing multiples of x over the bits of y gives the standard product, which sums multiples of y over the bits of x |
| `Gf128.MulIsRemainder` | exosphere/src/gcm.c:43-72 | the product is congruent to the carry-less product modulo x^128 + x^7 + x^2 + x + 1: some quotient makes up the difference |
| `Gf128.RemainderIsUnique` | exosphere/src/gcm.c:43-72 | no other block is congruent to it, so the division determines the product |
| `Gf128.MulCommutes` | exosphere/src/gcm.c:43-72 | the product commutes |
| `Gf128.MulDistributes` | exosphere/src/gcm.c:43-72 | the product distributes over XOR on both sides |
| `Gf128.MulAssociates` | exosphere/src/gcm.c:43-72 | the product is associative |
| `Gf128.MulIdentity` | exosphere/src/gcm.c:43-72 | the block with only its first bit set is the unit |
| `Gcm.Ghash` | exosphere/src/gcm.c:77-128 | ghash is GHASH over the whole blocks, a zero block for a partial tail, and the length block, XORed with E(J) when encrypting |
| `Gcm.GHashOfTwo` | exosphere/src/gcm.c:89-98 | hashing [a] gives a*H and hashing [a, b] gives a*H*H + b*H |
| `Gcm.GhashVersusStandard` | exosphere/src/gcm.c:77-128 | when not encrypting it equals the standard hash on whole-block data; otherwise they differ by the dropped tail times H squared, so they agree exactly when that is zero |
| `Gcm.EncryptingGhashVersusStandard` | exosphere/src/gcm.c:110-125 | when encrypting, the standard block differs by H times the moved length plus the dropped tail times H, on all data; they agree exactly when that is zero |
| `Gcm.GhashAgreesIff` | exosphere/src/gcm.c:100-125 | for every invertible H: without encrypting they agree if and only if the dropped tail is zero; with it, on whole blocks if and only if the bit length is a multiple of 2^64, else if and only if the tail makes up for the length |
| `Gcm.DroppedTailDiffers` | exosphere/src/gcm.c:100-105 | concrete cipher and one-byte data on which the hashes differ |
| `Gcm.MovedLengthDiffers` | exosphere/src/gcm.c:110-115 | concrete cipher and every one-block datum on which the encrypting results differ |
| `Gcm.TailIsIgnored` | exosphere/src/gcm.c:100-108 | the contents of a partial last block do not influence the result |
| `KeyWrap.GcmDecryptKey` | exosphere/src/gcm.c:132-191 | panics exactly without room; runs past its work buffer exactly above 0x400 bytes; otherwise the unwrapping function: MAC over the plaintext, device check, payload and high id byte |
| `KeyWrap.AcceptedIsAuthentic` | exosphere/src/gcm.c:159-190 | every accepted blob carries as MAC the GHASH of its decrypted text under E(0), XORed with the encrypted GHASH of its counter; its device id matches and what is returned are its payload and high id byte |
| `KeyWrap.TamperedBlockIsRejected` | exosphere/src/gcm.c:159-190 | for every invertible H, two accepted blobs that differ in at most one whole ciphertext block are equal: changing one is always noticed |
| `KeyWrap.GcmEncryptKey` | exosphere/src/gcm.c:193-227 | panics exactly without room; runs past its work buffer exactly above 0x400 bytes; otherwise the sealed form of an all-zero body of the payload size |
| `KeyWrap.UnsealSeal` | exosphere/src/gcm.c:132-227 | for every cipher, counter, body and device, unwrapping a sealed body returns its payload and the high id byte |
| `KeyWrap.SealUnseal` | exosphere/src/gcm.c:132-227 | every accepted blob is reproduced by sealing the body recovered from it |
| `KeyWrap.WrappedPayloadIsLost` | exosphere/src/gcm.c:193-227 | unwrapping what gcm_encrypt_key produced returns zeros, so it returns the payload handed in if and only if that was all zero |
| `Cmac.ShiftLeftBytes` | exosphere/src/se.c:621-627 | the byte loop is the 128-bit left shift and returns the bit shifted out |
| `Cmac.ShiftLeftXorRb` | exosphere/src/se.c:621-631 | subkey doubling of section 6.1 of NIST SP 800-38B |
| `Cmac.ComputeCmac` | exosphere/src/se.c:633-686 | on every non-empty message the CMAC of section 6.2 of NIST SP 800-38B; on the empty one E(K1) |
| `Cmac.TwoBlockTag` | exosphere/src/se.c:642-680 | the tag of a two-block message, whole or padded, with every cipher call and subkey written out |
| `Cmac.CbcChains` | exosphere/src/se.c:656-680 | chaining one more block encrypts the XOR of the previous output and the block, from zero |
| `Cmac.EmptyMessage` | exosphere/src/se.c:648-671 | for an injective cipher the empty-message tag is the standard one if and only if E(0) is the one block C000..007D |
| `Cmac.EmptyMessageDiffers` | exosphere/src/se.c:648-671 | concrete cipher with a wrong empty-message tag |
| `Cmac.DoubleIsToolDouble` | sept/sept-secondary/sept_sign.py:13-23 | on every subkey the bytewise doubling is the Python integer function: top-bit test, shift, XOR with 0x87 or 0, mask |
| `RsaEncodings.MgfAndXor` | exosphere/src/titlekey.c:58-91 | panics exactly on a seed of 0xE0 bytes or more; otherwise XORs the mask into the given range and touches nothing else |
| `RsaEncodings.Mgf1IsStandard` | exosphere/src/titlekey.c:58-91 | the mask is MGF1 of section B.2.1 of RFC 8017 |
| `RsaEncodings.OaepUnwrap` | exosphere/src/titlekey.c:93-166 | the in-place unmasking and scanning decide exactly the OAEP decoding function |
| `RsaEncodings.DecodeEncode` | exosphere/src/titlekey.c:93-166 | encoding then unwrapping returns the message if and only if it is non-empty, leaves padding and fits; otherwise it is rejected |
| `RsaEncodings.OaepEncodingWrittenOut` | exosphere/src/titlekey.c:93-166 | the encoding byte range by byte range: zero byte, masked seed, masked label hash, zeros, 0x01 and message |
| `RsaEncodings.EncodeDecode` | exosphere/src/titlekey.c:93-166 | every accepted input is the encoding of its recovered seed, the label hash and the returned message |
| `RsaEncodings.UnmaskDb` | exosphere/src/se.c:430-440 | the inline MGF1 with an 8-bit counter is the MGF1 of calculate_mgf1_and_xor |
| `RsaEncodings.PssVerify` | exosphere/src/se.c:411-465 | the verifier returns true exactly when the recovered fields are consistent |
| `RsaEncodings.PssAcceptsIffEncoded` | exosphere/src/se.c:411-465 | that is the case if and only if the message with its top bit cleared is an EMSA-PSS encoding of the data under some 32-byte salt |
| `RsaEncodings.PssEncodingWrittenOut` | exosphere/src/se.c:418-464 | the accepted encoding byte range by byte range: hash of eight zeros, digest and salt; trailer 0xBC; masked zeros, 0x01 and salt; top bit clear |
| `RsaEncodings.PssBindsData` | exosphere/src/se.c:454-464 | one encoding accepted for two data means equal digests, or two different explicit inputs with the same hash |
| `RsaEncodings.PssSeesDigest` | exosphere/src/se.c:454-464 | the verdict depends on the data through its digest alone |
| `RsaEncodings.StandardAcceptsIff` | exosphere/src/se.c:441-452 | the message is an EMSA-PSS encoding of the data if and only if the code accepts it and its top bit is clear |
| `RsaEncodings.AcceptedNonEncoding` | exosphere/src/se.c:441-452 | for every data and salt the encoding with its top bit set is accepted and is no encoding |
| `RsaEncodings.TopBitIsIgnored` | exosphere/src/se.c:442-442 | setting or clearing the top bit never changes the verdict |
| `Words.DetectNull` | exosphere/src/my_libc.c:424-433 | DETECTNULL is non-zero if and only if one of the eight bytes is zero |
| `Words.DetectChar` | exosphere/src/my_libc.c:439-441 | DETECTCHAR is non-zero if and only if one of the eight bytes is the sought one |
| `Words.Spread` | exosphere/src/my_libc.c:352-357 | the doubling steps fill every byte of the mask |
| `Words.EqualWords` | exosphere/src/my_libc.c:579-586 | comparing words is comparing their eight bytes |
| `Memory.Memmove` | exosphere/src/my_libc.c:126-211 | for every overlap, alignment and length the destination holds the old source and nothing else changes |
| `Memory.CopyForward` | exosphere/src/my_libc.c:176-206 | the forward word and byte loops move correctly whenever the destination starts at or below the source, or past its end |
| `Memory.Memcpy` | exosphere/src/my_libc.c:235-292 | non-overlapping copy, every alignment and length |
| `Memory.Memset` | exosphere/src/my_libc.c:325-384 | exactly the given range is filled, every alignment and length |
| `Memory.Memchr` | exosphere/src/my_libc.c:443-505 | returns the first occurrence within the length, or none exactly when there is none; reads nothing outside the range |
| `Memory.Memcmp` | exosphere/src/my_libc.c:545-604 | the word form returns what the byte-at-a-time form does, for every content, alignment and length |
| `Memory.MemcmpMeaning` | exosphere/src/my_libc.c:518-522 | that is the byte difference at the first place the regions differ, and zero when they do not |
| `Strings.FindNull` | exosphere/src/my_libc.c:887-912 | the byte, word, byte scan stops exactly at the terminator and reads nothing past the aligned word that holds it |
| `Strings.Strlen` | exosphere/src/my_libc.c:882-913 | the number of characters before the terminator |
| `Strings.Strchr` | exosphere/src/my_libc.c:639-701 | the first occurrence in the string, terminator included, or none exactly when there is none |
| `Strings.Strcmp` | exosphere/src/my_libc.c:736-781 | the word form returns what the byte-at-a-time form does, for every content and alignment |
| `Strings.Strncmp` | exosphere/src/my_libc.c:947-1007 | the word form returns what the byte-at-a-time form does; strings need not be terminated within n |
| `Strings.StopsHere` | exosphere/src/my_libc.c:740-747 | the byte form is the difference at the first place where the first string ends or the two differ |
| `Strings.ComparisonOrders` | exosphere/src/my_libc.c:712-721 | the result is zero if and only if the strings are equal, negative if and only if the first comes first lexicographically |
| `Strings.Strcpy` | exosphere/src/my_libc.c:815-853 | the string and its terminator arrive, no other byte changes, for every alignment |
| `Strings.Strncpy` | exosphere/src/my_libc.c:1047-1104 | at most n characters arrive, followed by zeros up to n, no other byte changes |
| `Mmu.InitTable` | exosphere/src/mmu.h:137-141 | clears as many entries as the byte count has eights |
| `Mmu.MapRange` | exosphere/src/mmu.h:172-184 | the loop over a rounded-up range writes exactly the covered entries, each with its own physical address |
| `Mmu.UnmapRange` | exosphere/src/mmu.h:186-191 | exactly the covered entries fault afterwards |
| `Mmu.LastWriterWins` | exosphere/src/coldboot_init.c:119-136 | in a table several ranges were mapped into, an entry belongs to the last range covering it |
| `Mmu.SharingIsRightIffCompatible` | exosphere/src/coldboot_init.c:119-136 | one table serves a list of ranges correctly if and only if no two of them want different descriptors in one entry |
| `Layout.PlacedDisjoint` | exosphere/src/coldboot_init.c:51-101 | rows laid out by a running offset that advances at least by their size never meet in the table, for any rows |
| `Layout.DisjointRangesTranslate` | exosphere/src/coldboot_init.c:119-136 | any list of ranges that meet nowhere is looked up in level 3 as asked, byte by byte |
| `MemoryMap.AnyDisjointMapTranslates` | exosphere/src/coldboot_init.c:119-136 | for any list of ranges that meet nowhere the three-level walk sends every byte to its own physical address and attributes |
| `MemoryMap.LinkedWalk` | exosphere/src/coldboot_init.c:117-136 | for any list of ranges the complete translation: DRAM to itself, the windows through level 3, a fault elsewhere |
| `MemoryMap.NothingClashes` | exosphere/src/memory_map.h:26-110 | in the monitor's own map no level-3 entry is written twice, on any firmware |
| `MemoryMap.IdentityMapAll` | exosphere/src/coldboot_init.c:40-49 | writes the three page ranges in level 3 and the DRAM blocks in level 1 |
| `MemoryMap.MmioMapAll` | exosphere/src/coldboot_init.c:51-64 | level 3 gains the device ranges at the running offsets |
| `MemoryMap.Lp0MapAll` | exosphere/src/coldboot_init.c:66-75 | level 3 gains the LP0 entry segments |
| `MemoryMap.WarmbootMapAll` | exosphere/src/coldboot_init.c:77-86 | level 3 gains the warmboot segments |
| `MemoryMap.TzramMapAll` | exosphere/src/coldboot_init.c:88-101 | level 3 gains the TZRAM segments of the firmware's layout |
| `MemoryMap.ConfigureTables` | exosphere/src/coldboot_init.c:103-137 | whatever the tables held, they end up as the linked skeleton with the whole map folded in |
| `MemoryMap.WalkExactly` | exosphere/src/coldboot_init.c:103-137 | the complete translation: DRAM to itself, six 2 MB windows through the shared level-3 table, a fault everywhere else |
| `MemoryMap.EveryRegionTranslates` | exosphere/src/coldboot_init.c:103-137 | every byte of every region goes to its own physical address with its own attributes, on every firmware |
| `MemoryMap.IdentityTranslates` | exosphere/src/memory_map.h:194-201 | every identity-mapped address goes to itself: secure and executable below DRAM, non-secure and never executable in DRAM |
| `MemoryMap.DeviceRegion` | exosphere/src/memory_map.h:202-208 | the region of every device row with its firmware-dependent address and its attributes: non-secure exactly when not marked secure |
| `MemoryMap.Lp0Translates` | exosphere/src/memory_map.h:210-214 | every byte of every LP0 segment: 0x10000 steps, own physical address, never executable |
| `MemoryMap.WarmbootTranslates` | exosphere/src/memory_map.h:216-220 | every byte of every warmboot segment: non-secure device memory, never executable |
| `MemoryMap.TzramTranslates` | exosphere/src/memory_map.h:222-226 | every byte of every TZRAM segment at its firmware-dependent address, executable exactly when its row says so |
| `MemoryMap.LinkerScriptAgrees` | exosphere/linker.ld:17-21 | the first two TZRAM segments and the vector half-page start where the linker script places loader and vectors |
| `MemoryMap.VectorsTranslate` | exosphere/linker.ld:20-21 | the vectors at their linked address translate to the second half of the vector page, executable, in both layouts |
| `MemoryMap.NothingElseTranslates` | exosphere/src/coldboot_init.c:103-137 | an address translates if and only if it is DRAM or a window address whose page some region covers |
| `MemoryMap.WindowsAlias` | exosphere/src/coldboot_init.c:125-130 | addresses equal below 2 MB are the same memory in all windows, a consequence of sharing |
| `MemoryMap.TablesReachThemselves` | exosphere/src/coldboot_init.c:107-115 | the macro addresses of the level-2 and level-3 table segments translate to the tables the walk reads, in both layouts |
| `MemoryMap.LevelOneReachesItself` | exosphere/src/coldboot_init.c:107-115 | the same for the level-1 table inside the exception vector page |
| `MemoryMap.AmsPagesAreMapped` | exosphere/src/memory_map.h:51-52 | every byte of the two AMS pages translates to physical address 0 onwards, from startup |
| `MemoryMap.NoEntryIffEmpty` | exosphere/src/memory_map.h:87-95 | a row writes no entry if and only if its size is zero |
| `MemoryMap.UserpageFaults` | exosphere/src/memory_map.h:90-90 | the one empty row, the user page segment, faults over its whole increment |
| `MemoryMap.DeviceAddressIsMapped` | exosphere/src/memory_map.h:167-171 | the MMIO address macro names the address the loop maps, for every device |
| `MemoryMap.Lp0AddressIsMapped` | exosphere/src/memory_map.h:176-176 | likewise for the LP0 entry segments |
| `MemoryMap.WarmbootAddressIsMapped` | exosphere/src/memory_map.h:181-181 | likewise for the warmboot segments |
| `MemoryMap.TzramAddressIsMapped` | exosphere/src/memory_map.h:187-187 | likewise for the TZRAM segments |
| `MemoryMap.Device7xPaMacroIsMapped` | exosphere/src/memory_map.h:166-166 | the 7.0.0+ physical address macro agrees with the mapping for a device if and only if it is not the bootloader mailbox |
| `RandomCache.Store.RefillSegment` | exosphere/src/randomcache.c:34-43 | exactly the segment, cut at the end of the cache, is regenerated |
| `RandomCache.Store.constructor` | exosphere/src/randomcache.c:45-49 | a fully generated cache with high + 1 at low |
| `RandomCache.Store.Refill` | exosphere/src/randomcache.c:51-76 | exactly the positions from high + 1 round to low are regenerated and high + 1 is low again |
| `RandomCache.Store.GetBytes` | exosphere/src/randomcache.c:78-91 | every read of up to 0x38 bytes is in bounds, returns the bytes at low and leaves room for the next |
| `RandomCache.NothingDeliveredTwice` | exosphere/src/randomcache.c:51-91 | over whole calls one after the other: with at most 17 reads between refills no random byte is handed out twice |
| `RandomCache.EighteenReadsRepeat` | exosphere/src/randomcache.c:51-91 | eighteen full reads, a refill and a read deliver the first bytes again |
| `RandomCache.SeventeenIsExact` | exosphere/src/randomcache.c:51-91 | over whole calls one after the other: a limit on reads between refills is safe on every run if and only if it is at most 17 |
| `SharedCache.TwoReadsRepeat` | exosphere/src/randomcache.c:78-91 | two contexts that both find the user lock held and load low before either stores it deliver the same bytes, after two reads |
| `SharedCache.SlowReadsRepeat` | exosphere/src/randomcache.c:51-91 | even one read between refills repeats when calls overlap: a slow read, with core 3 collecting, refilling, starting another user call and reading meanwhile |
| `SharedCache.LateReadIsForgotten` | exosphere/src/randomcache.c:70-73 | a read between generating a segment and storing high leaves its delivered bytes in the cache as fresh, from every such state |
| `SharedCache.SequentialIsSafe` | exosphere/src/randomcache.c:51-91 | step by step over both contexts and the user lock: calls that never overlap and at most 17 reads between refills repeat nothing |
| `SharedCache.SafeIff` | exosphere/src/randomcache.c:51-91 | a discipline is safe on every interleaving if and only if it allows no reads, or at most 17 between refills and no overlapping calls |
| `CardResponse.CacheResponse` | emummc/source/emmc/sdmmc_driver.c:305-351 | long responses become the 128-bit register number with a zero checksum byte, short ones the first register; refused exactly on an unknown type or a short buffer |
| `CardResponse.CacheLong` | emummc/source/emmc/sdmmc_driver.c:320-343 | each word of the loop is one register without its top byte followed by the next one's top byte |
| `CardResponse.UnstuffIsField` | emummc/source/emmc/sdmmc.c:35-44 | unstuff_bits returns exactly the bits [start, start + size) of the four words, across word boundaries too |
| `CardResponse.UnstuffReadsRegister` | emummc/source/emmc/sdmmc.c:35-44 | on a cached long response those are bits [start - 8, start - 8 + size) of the response registers |
| `CardResponse.Storage.ParseSdCid` | emummc/source/emmc/sdmmc.c:1196-1212 | the parsed identification is the decoded register, nothing else changes |
| `CardResponse.Storage.ReceiveSdCid` | emummc/source/emmc/sdmmc.c:1262-1265 | from the response registers through the cache to the parsed identification: the decoded card register |
| `CardResponse.Storage.ReceiveSdCsd` | emummc/source/emmc/sdmmc.c:1271-1276 | likewise for the card-specific data |
| `CardResponse.CidFields` | emummc/source/emmc/sdmmc.c:1196-1212 | its fields are those of the CID layout of section 5.2 of the SD Physical Layer Simplified Specification |
| `CardResponse.Storage.ParseSdCsd` | emummc/source/emmc/sdmmc.c:1214-1233 | the parsed card data is the decoded register, unread fields keep their values |
| `CardResponse.CsdVersion1` | emummc/source/emmc/sdmmc.c:1223-1226 | version 1 capacity is (C_SIZE + 1) * 2^(C_SIZE_MULT + 2), never wrapped, all fields at their places in section 5.3.2 |
| `CardResponse.CsdVersion2` | emummc/source/emmc/sdmmc.c:1227-1231 | version 2 capacity is (C_SIZE + 1) * 1024 if and only if C_SIZE is not all ones, when it wraps to zero |

## Left out

- AES, SHA-256 and modular exponentiation: hardware, kept abstract; keys, moduli and key-slot bookkeeping carry no logic here.
- Bakery.MutualExclusion: assumes no ticket reaches 128, where the 7-bit field wraps; TicketBoundIsExact shows that this bound is the exact one.
- Bakery memory model: plain reads and writes are sequentially consistent; barriers and event instructions are not modelled.
- Bakery.LiteralExclusionInOrder: gives one direction, a discipline that suffices for a run; the exact condition on the set of contending cores is LiteralExcludesIff.
- SmcProtocol argument checks of the individual handlers: reduced to their outcome (refused, refused late, started, nothing to do); user pages and argument registers are not modelled.
- Package2.LoadPackage2: parsing and decrypting the header are parameters; the signature check, the plaintext switch and the recovery hash around them are not modelled.
- SmcProtocol sleep: a suspend holds the lock until warmboot frees it; powering down, the other cores and the saved engine context are not modelled.
- SharedCache steps: a cursor is loaded once for a test and the arguments that follow it, and again after each call that writes memory, as compiled code does; copying the bytes of one read is one step; generation of the bytes is a parameter.
- KeyWrap.GcmEncryptKey: the counter is a parameter (the code generates it), and the key derivation before the wrapping is not modelled.
- Words copies: a word copy reads eight bytes and then writes them; the copied value is not represented as an integer.
- Strings.Strcpy: overlapping strings, which C leaves undefined, are excluded; likewise for strncpy and memcpy.
- strnlen and the initialiser arrays of my_libc.c: easy members.
- Mmu descriptors as 64-bit numbers, cache and TLB maintenance, the unmapping and remapping done after cold boot.
- CardResponse.Storage.ParseSdCid: the eMMC variants of the parsers, the extended CSD, SCR and SSR use the same reader and are not repeated; the narrowing of fields to u8 and u16 loses nothing and is not written out.
- Register setup, clocks, UART, I2C, pin multiplexing, power management and timers: register writes without logic to prove.
- configitem.c, exocfg.c, bootconfig.c: switch tables settled by reading one branch.
- emuMMC card initialisation, tuning, the file backend and hooking; FatFs; all other programs of the repository.
