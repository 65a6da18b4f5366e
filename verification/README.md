# Verified model of the ADB host's key, list, archive and atomic code

Four parts of the repository, each modelled in Dafny and proved against what it is for.

**RSA public key records** (`Limbs`, `Modular`, `Montgomery`, `RsaKey`, `Bignum`).
`RSA_to_RSAPublicKey` turns a modulus into little-endian 32-bit words, `-1/n[0] mod 2^32` and
`R^2 mod n`. `RsaKey.RsaToRsaPublicKey` is that method, word loops and all, for records of any
number `k` of words (the original's `RSANUMWORDS` is 64, so `R` is `2^(32k)`). Its contract fixes the
whole record (`RecordUnique`), and the record is proved to be exactly what Montgomery arithmetic
needs: reduction, conversion in and out, and modular powers. BIGNUMs are natural numbers here;
`BN_mod_inverse` is extended Euclid, proved to find an inverse whenever there is one. The original
ignores its failure, so an even modulus is accepted; the stored inverse is usable if and only if the
modulus is odd. `Bignum` is `bn_correct_top` and the word tests of `openssl/bn.h` on the same words.

**Atomic operations** (`Bits`, `Atomics`, `AtomicProgress`, `AtomicLoops`). Any number of threads run the retry loops
of `android_atomic_add`, `_and` and `_or` on one cell. `Atomics` is the step system: a step is one
access to the cell, and the ARM form (whose kernel helper may refuse a swap for no reason and is then
asked again) and the x86 form (`cmpxchg`, `xadd`) may be mixed freely. Over every interleaving the
operations are linearizable (`Linearizable`, by positions in the history), and a thread is only ever
told to retry because another one got through. `AtomicProgress` is the other half: a thread left alone
returns, within a stated number of steps, and no thread reads the cell more often than its calls and the
others' commits account for.
`AtomicLoops` is the loop itself, run by one thread while an adversary acts between its accesses.

**Archives** (`ZipFormat`, `CentralDir`, `ZipRoundTrip`, `ZipFile`). `ZipFormat` writes archives
(PKWARE APPNOTE.TXT sections 4.3.7, 4.3.12 and 4.3.16); `CentralDir` is the reader, with the list
nodes it allocates; `ZipRoundTrip` proves that the reader undoes the writer; `ZipFile` is opening,
releasing, lookup, iteration, dumping and copying stored entries out. Positions in the file stand for
pointers into it. Three habits of the code are kept. Sizes are held in an `int` (`ssize_t` in
`adbServerTest/adb/private.h:21`), so a directory said to start far behind the end of the file passes
the room check: `RoomExact` says when, `FarDirectory` is such a file. The room for an entry is computed
once, before the first entry. Staying inside the file is therefore a precondition (`ReadsInside`: the
size fits the `int`, and every record the reader comes to is inside), which every encoded archive is
proved to meet. And entries are put in front of the list, so they end up in reverse order.

**Lists and key rotation** (`Ring`, `Rotation`, `AuthKeys`). `Ring` is `cutils/list.h`: cyclic, doubly
linked, with the head on the cycle. `AuthKeys` is the key list built at start-up and
`adb_auth_nextkey`, down to a run of AUTH tokens in the transport (`handle_packet` in
`adbServerTest/adb/Catransport.cpp`, lines 344-355), which feeds each key back.

`Wrappers` holds the option type.

Where the code and its documentation disagree, the code is modelled:

- `include/zipfile/zipfile.h:35-36` promises a lookup by name, NULL if there is none. The code compares
  only as many bytes as the stored name has, so a stored name that merely starts the query matches, and
  an entry without a name matches everything. A stored name may even be longer than the query by the
  query's terminating zero. `LookupExact` says exactly when all this makes no difference.
- The same comment promises NULL for an entry that cannot be decompressed. The lookup never looks at the
  compression method; `LookupGoesWrong` looks up such an entry and has its decompression refused, and
  `PromiseExact` says exactly when the whole promise is kept.
- `adbServerTest/adb/centraldir.cpp:171-174` speaks of 18 bytes of end record and of junk after it; the
  code searches 22 + 65535 bytes and wants the declared comment to fit in the file.

## Model

| member | source | states |
|---|---|---|
| RsaKey.RsaToRsaPublicKey | adbServerTest/adb/adb_auth_host.cpp:109-154 | a key of exactly the record's size is converted, any other refused with the record untouched; both word arrays evaluate to the modulus and to R^2 mod n, n[0] * n0inv is -1 modulo 2^32 for an odd modulus |
| Modular.ModInverse | adbServerTest/adb/adb_auth_host.cpp:132 | the inverse below m when there is one; none only if no number whatever is an inverse |
| RsaKey.WordInverse | adbServerTest/adb/adb_auth_host.cpp:131-132 | a word has an inverse modulo 2^32 if and only if it is odd |
| RsaKey.NegatedInverse | adbServerTest/adb/adb_auth_host.cpp:135 | subtracting the inverse from zero with wrap-around gives the negated inverse |
| Limbs.PeelWord | adbServerTest/adb/adb_auth_host.cpp:136-141 | one turn of a word loop keeps words written + weighted running quotient equal to the number being written |
| Limbs.Finished | adbServerTest/adb/adb_auth_host.cpp:136-141 | after as many words as the number needs the quotient is 0 and the words evaluate to the number |
| Limbs.NumBytesRange | adbServerTest/adb/adb_auth_host.cpp:122-125 | the size test accepts exactly the numbers below R whose top byte is not zero |
| RsaKey.AcceptedModulusNormal | adbServerTest/adb/adb_auth_host.cpp:122-141 | the modulus words of an accepted key have a top word of at least 2^24, so nothing shorter holds them |
| RsaKey.RecordUnique | include/mincrypt/rsa.h:40-46 | the stated conditions determine every field of the record |
| RsaKey.StoredInverseSound | include/mincrypt/rsa.h:42 | adding the chosen multiple of n clears the low word of every number, if and only if the modulus is odd |
| RsaKey.EvenModulusUnserved | adbServerTest/adb/adb_auth_host.cpp:122-135 | for every number of words, 64 included, a concrete even modulus that the size test accepts and that gets a useless n0inv |
| RsaKey.RecordReduces | include/mincrypt/rsa.h:42-43 | k reduction steps bring any t below nR under 2n, congruent to t/R modulo n |
| RsaKey.RecordConverts | include/mincrypt/rsa.h:44 | Montgomery-multiplying by the number in rr gives xR mod n, and multiplying that by 1 gives x back |
| RsaKey.RecordExponentiates | include/mincrypt/rsa.h:40-46 | entering with rr, multiplying d times and leaving with 1 computes x^d mod n |
| RsaKey.RecordVerifies | adbServerTest/adb/adb_auth_host.cpp:142 | the stored exponent is the key's exactly when that is below 2^31, and then raising to it with the record computes x^e mod n; an exponent of more than a word is stored as -1 |
| Montgomery.ReduceExact | include/mincrypt/rsa.h:42-43 | the steps divide exactly: R times the result is t plus a multiple of n, the multiplier below R |
| Montgomery.ProductIs | include/mincrypt/rsa.h:42-43 | the Montgomery product is the only number below n whose multiple by R is congruent to xy |
| Bignum.BigNum.CorrectTop | include/openssl/bn.h:751-760 | gives up exactly the zero words at the top; the signed number stays, the result is normalised |
| Limbs.NormalUnique | include/openssl/bn.h:751-760 | a number has one normalised word array |
| Bignum.AbsIsWordExact | include/openssl/bn.h:379-380 | on normalised bignums the absolute word test is numeric equality, both ways |
| Bignum.WordTestsExact | include/openssl/bn.h:379-383 | on normalised bignums the zero, one and word tests decide the signed number, both ways |
| Bignum.IsOddExact | include/openssl/bn.h:384 | the parity test is right even without normalisation |
| Bignum.NegativeExact | include/openssl/bn.h:439 | the sign test decides the sign if and only if zero is not marked negative |
| Bignum.IsZeroUnnormalised | include/openssl/bn.h:381 | without normalisation the zero test is right if and only if no words are in use or one is not zero |
| Bignum.SameNumberSameWords | include/openssl/bn.h:288-296 | equal magnitudes, normalised, have the same top and the same words |
| Bits.AndBits | include/cutils/atomic-arm.h:217 | And is the conjunction of the operands at every bit |
| Bits.OrBits | include/cutils/atomic-arm.h:248 | Or is the disjunction of the operands at every bit |
| Bits.BitIsDigit | include/cutils/atomic-arm.h:217 | the bits spoken of are the binary digits |
| Atomics.ApplyMeans | include/cutils/atomic-arm.h:169-251 | add is the sum modulo 2^32, and the conjunction and or the disjunction at every bit |
| Atomics.StepKeeps | include/cutils/atomic-arm.h:114-127 | every step of every thread keeps: the cell is the fold of the commits, each answered with the fold before it, and each thread's failures are covered by others' commits |
| Atomics.StepOrderly | include/cutils/atomic-arm.h:169-179 | every step keeps each thread's events in the order call, one commit, return of the committed answer |
| Atomics.CommitsAreSequential | include/cutils/atomic-x86.h:101-140 | in every interleaving the cell and all answers are those of the committed operations done one after another |
| Atomics.CommitsDoTheirWork | include/cutils/atomic-x86.h:101-140 | in every interleaving the first commit finds the initial value, each leaves its own sum, conjunction or disjunction with what it found to the next, and the last leaves the cell |
| Atomics.CallTakesEffectOnce | include/cutils/atomic-arm.h:169-179 | every returned call has exactly one invocation and one commit in the history, its thread doing nothing else in between, and returned the fold of the commits before its own |
| Atomics.RealTimeOrder | include/cutils/atomic-arm.h:169-179 | when a call starts after another has returned, its own commit has a later place in the sequential order |
| Atomics.CommitsAreCalled | include/cutils/atomic-arm.h:169-179 | in every interleaving each commit belongs to exactly one earlier invocation of the same operation by the same thread, and no invocation has two commits |
| Atomics.Linearizable | include/cutils/atomic-x86.h:101-140 | for every interleaving at once: the cell is the fold of the commits, each commit carries out an invoked operation and no invocation has two, each returned call's own commit explains its answer at its place, and those places respect real time |
| Atomics.NoIncrementLost | include/cutils/atomic-arm.h:169-179 | when all threads add, the cell is the initial value plus all committed increments modulo 2^32 |
| Atomics.FailureMeansProgress | include/cutils/atomic-arm.h:114-127 | failure is reported only after another thread committed since this one's read, spurious refusals notwithstanding |
| Atomics.FailureBound | include/cutils/atomic-arm.h:174-177 | a thread's failures are at most the others' commits; all failures at most n - 1 per commit |
| AtomicProgress.CallEnds | include/cutils/atomic-arm.h:114-127 | from every reachable state a thread inside a call and left alone returns after at most 4 steps and 2 for each refusal, all but one of which must be spurious; until it has returned a step is enabled, on ARM without a spurious refusal and on x86 without any |
| AtomicProgress.CanStart | include/cutils/atomic-arm.h:169-179 | a thread that is in no call can start any |
| AtomicProgress.AttemptsAre | include/cutils/atomic-arm.h:174-177 | the attempts of a thread are its calls and its reported failures, one each |
| AtomicProgress.AttemptBound | include/cutils/atomic-x86.h:121-140 | over every run a thread makes at most one attempt for each of its calls and each commit of another thread |
| AtomicLoops.AtomicCas | include/cutils/atomic-arm.h:114-127 | success swaps exactly once on the expected value; failure swaps nothing and, for a fresh value, means somebody else committed |
| AtomicLoops.SomeOperation | include/cutils/atomic-arm.h:114-127 | every new value a caller may ask for is some operation on the expected one, so naming one excludes no swap |
| AtomicLoops.AtomicUpdate | include/cutils/atomic-arm.h:169-179 | whatever the others do the loop ends, leaves the sum, conjunction or disjunction with the value it found, once, returns that value, and fails at most once per foreign commit |
| Ring.ListInit | adbServerTest/adb/list.cpp:19-23 | an empty ring |
| Ring.ListAddTail | adbServerTest/adb/list.cpp:25-31 | the ring stays well formed and its sequence grows at the end |
| Ring.ListRemove | adbServerTest/adb/list.cpp:33-37 | the ring stays well formed and its sequence loses exactly that element; the element keeps its links |
| Ring.RingEnds | include/cutils/list.h:51-53 | the macros decide emptiness and name the first and last element |
| Ring.RingUnique | include/cutils/list.h:26-30 | the links determine the sequence |
| Ring.ForEach | include/cutils/list.h:41-42 | visits every element once, in order |
| Ring.ForEachReverse | include/cutils/list.h:44-45 | visits the mirror image |
| Rotation.AnswerCycles | adbServerTest/adb/zipfile.cpp:147-160 | feeding answers back goes round the n elements and NULL, n + 1 calls a turn |
| Rotation.OneTurn | adbServerTest/adb/adb_auth_host.cpp:405-425 | each turn answers every element once, in order, then NULL |
| AuthKeys.ReadKey | adbServerTest/adb/adb_auth_host.cpp:272-304 | a key that loads is appended, one that does not changes nothing |
| AuthKeys.GetVendorKeys | adbServerTest/adb/adb_auth_host.cpp:366-390 | each vendor key that loads goes to the end of the list, in the order of the paths |
| AuthKeys.AuthInit | adbServerTest/adb/adb_auth_host.cpp:457-472 | by position: first the user key, then the keys of exactly the vendor paths that loaded, in their order; nothing without a user key |
| AuthKeys.NextKey | adbServerTest/adb/adb_auth_host.cpp:405-425 | the next key in list order, the first for NULL, NULL after the last and for a node not on the list |
| AuthKeys.AnswerTokens | adbServerTest/adb/adb_auth_host.cpp:405-425 | a run of AUTH tokens tries every key once in order, then the public key, and round again |
| AuthKeys.StartAndAnswer | adbServerTest/adb/adb_auth_host.cpp:405-472 | from start-up, token k is signed with the key at position k mod (n + 1) of that list; the public key is sent at n |
| ZipFormat.ReadLeShort | adbServerTest/adb/centraldir.cpp:27-31 | shifted and or-ed bytes are the little-endian number |
| ZipFormat.ReadLeInt | adbServerTest/adb/centraldir.cpp:21-25 | shifted and or-ed bytes are the little-endian number, below 2^32 |
| ZipFormat.MemberRead | adbServerTest/adb/centraldir.cpp:95-152 | each encoded member's directory entry, local header and payload are where the reader looks for them |
| ZipFormat.EndRead | adbServerTest/adb/centraldir.cpp:43-49 | each field of the encoded end record, directory size included, is where the reader looks for it |
| CentralDir.LastSignature | adbServerTest/adb/centraldir.cpp:199-216 | the largest signature position in the window, none only if there is none |
| CentralDir.FindEocd | adbServerTest/adb/centraldir.cpp:199-216 | the backward scan finds that position; its one-byte test changes no answer |
| CentralDir.ReadCentralDirValues | adbServerTest/adb/centraldir.cpp:33-61 | succeeds exactly if the record and its comment fit, and then every field is stored |
| CentralDir.ReadCentralDirectoryEntry | adbServerTest/adb/centraldir.cpp:63-160 | succeeds exactly on room and signature; stores the record and moves the cursor past it |
| CentralDir.ReadEntries | adbServerTest/adb/centraldir.cpp:231-248 | links exactly the leading signed records, last in front, each allocated once; succeeds if that is all of them; leaves the cursor behind the last one linked |
| CentralDir.ReadCentralDir | adbServerTest/adb/centraldir.cpp:180-253 | returns 0 exactly for the accepted files; the list is the reversed records |
| CentralDir.AcceptedBytes | adbServerTest/adb/centraldir.cpp:180-253 | the exact success condition in bytes: at least 22 of them, PK\5\6 last at a position among the last 65557, 22 bytes and the comment left there, disk numbers 0, equal counts, and, if there are entries, 46 bytes left at the directory start and PK\1\2 at each position walked |
| CentralDir.LinkedBytes | adbServerTest/adb/centraldir.cpp:231-248 | success or not, the entries linked are those marked PK\1\2 up to the first that is not, and none without an end record or room |
| CentralDir.AcceptedLinksAll | adbServerTest/adb/centraldir.cpp:193-248 | a file is accepted if and only if its end record is and all announced entries get linked |
| CentralDir.DataPositionWraps | adbServerTest/adb/centraldir.cpp:145-152 | header position, 30, name and local extra length are added modulo 2^32 |
| CentralDir.CursorConservation | adbServerTest/adb/centraldir.cpp:117-143 | after k records the cursor has moved by 46k plus the sum of all name lengths, of all extra field lengths and of all comment lengths |
| CentralDir.RoomExact | adbServerTest/adb/centraldir.cpp:231-233 | the room check passes if and only if an entry fits between the directory start and the end of the file, or the start is so far behind the end that the difference wraps round |
| CentralDir.RoomReal | adbServerTest/adb/centraldir.cpp:88-91 | when the records read are inside the file the check decides exactly whether an entry fits |
| ZipRoundTrip.EndRecordFound | adbServerTest/adb/centraldir.cpp:199-216 | the encoder's end record is found if and only if no signature follows it; otherwise a later one is taken |
| ZipRoundTrip.NoSignatureWithoutP | adbServerTest/adb/centraldir.cpp:207 | no signature can follow when nothing after the end record's first byte is the letter P |
| ZipRoundTrip.FarDirectory | adbServerTest/adb/centraldir.cpp:231-239 | a concrete 22-byte file whose directory starts outside it and that passes the room check |
| ZipRoundTrip.CursorOnEncoded | adbServerTest/adb/centraldir.cpp:231-248 | the cursor visits the encoded entries one by one |
| ZipRoundTrip.PayloadFound | adbServerTest/adb/centraldir.cpp:145-152 | the data position, computed from the local extra length, is where the payload was put |
| ZipRoundTrip.RoundTrip | adbServerTest/adb/centraldir.cpp:180-253 | every well-formed archive without a later signature is accepted, read without leaving the file, and its records are its members: name, method, sizes, payload position |
| ZipRoundTrip.OneMemberArchive | adbServerTest/adb/centraldir.cpp:180-253 | every small one-member archive, whatever its name and contents, is one that the round trip is about |
| ZipFile.InitZipfile | adbServerTest/adb/zipfile.cpp:9-27 | opens exactly the accepted files, which are those well marked in bytes, allocating one node an entry; after a failure exactly the entries already linked stay allocated |
| ZipFile.ReleaseZipfile | adbServerTest/adb/zipfile.cpp:29-40 | frees every entry and the file once each; a link is only followed from an entry still allocated, and nothing is known of a freed entry's fields |
| ZipFile.OpenAndRelease | adbServerTest/adb/zipfile.cpp:9-40 | opening and releasing leaves the allocation as it was |
| ZipFile.OpenEncoded | adbServerTest/adb/zipfile.cpp:9-27 | opening the file of a well-formed archive succeeds, and the list reads as its members, last first |
| ZipFile.FirstMatch | adbServerTest/adb/zipfile.cpp:46-53 | the walk stops at the first list entry whose name starts the query, at the end only if there is none |
| ZipFile.LookupZipentry | adbServerTest/adb/zipfile.cpp:42-54 | the directory's last entry whose name starts the terminated query, NULL only if there is none; names behind that entry need not be readable |
| ZipFile.LookupExact | include/zipfile/zipfile.h:35-38 | comparing with the query and its terminator finds the last entry of the queried name if and only if every other name that starts the terminated query has an entry of the queried name behind it |
| ZipFile.PromiseExact | include/zipfile/zipfile.h:35-38 | the answer is the last entry of the queried name, or none if that cannot be decompressed, if and only if every member that starts the terminated query and is of another name or cannot be decompressed has one of the queried name behind it |
| ZipFile.LookupFindsPrefix | adbServerTest/adb/zipfile.cpp:48 | concrete names among which a lookup, terminator included, finds a shorter one |
| ZipFile.LookupFindsTerminated | adbServerTest/adb/zipfile.cpp:48 | concrete names among which a lookup finds one that ends in the query's terminator |
| ZipFile.TerminatorIgnored | adbServerTest/adb/zipfile.cpp:48 | for names without a zero byte the query's terminator plays no part |
| ZipFile.LookupMember | adbServerTest/adb/zipfile.cpp:9-54 | a lookup in an opened well-formed archive answers with the entry of the last member whose name starts the terminated query, NULL if and only if there is none; that is the last member of the queried name, and is all that is promised, exactly under the two conditions above |
| ZipFile.ZeroFreeNames | adbServerTest/adb/zipfile.cpp:48 | member names without a zero byte can be compared with every C string and the answer is that for the bare query |
| ZipFile.ExtractNamed | adbServerTest/adb/zipfile.cpp:9-129 | opening, looking up and decompressing: a stored member found comes back byte for byte, a member of method 8 goes to zlib, one of any other method is refused |
| ZipFile.LookupGoesWrong | include/zipfile/zipfile.h:35-38 | in a concrete archive a lookup answers with the wrong member, one whose decompression is refused |
| ZipFile.IterateZipfile | adbServerTest/adb/zipfile.cpp:147-160 | one step of the walk, answer and cookie alike |
| ZipFile.IterateRepeatedly | adbServerTest/adb/zipfile.cpp:147-160 | call number k answers list entry k mod (n + 1), NULL at n |
| ZipFile.DumpZipfile | adbServerTest/adb/zipfile.cpp:131-145 | the counted walk visits the whole list and never steps past its end |
| ZipFile.DecompressZipentry | adbServerTest/adb/zipfile.cpp:115-129 | method 0: the bytes are copied to the front of the buffer and nothing else is written; method 8 goes to zlib; any other is refused |
| ZipFile.ExtractStored | adbServerTest/adb/zipfile.cpp:115-123 | opening a well-formed archive, walking to any stored member and copying it out yields the bytes it was written with, the rest of the buffer untouched |

## Left out

- RsaToRsaPublicKey: takes `BN_div` and `BN_mod_sqr` at their mathematical meaning, and `BN_mod_inverse` to leave its output at zero when there is no inverse; OpenSSL's storage and allocation are not part of this model.
- AtomicCas: its unused first read of the cell stays unused.
- AtomicUpdate: the adversary acts finitely often, as the loop need not end otherwise; that failures are bounded without such an assumption is `FailureBound`, and that a thread left alone returns is `CallEnds`.
- StepKeeps: accesses are sequentially consistent; barriers, the load-linked/store-conditional assembly and the MIPS file are not modelled.
- ReadCentralDir: the fields nothing reads again (version, flags, times, checksums, attributes) are not stored; positions do not wrap around the address space, but the 32-bit sum of the data position does.
- DecompressZipentry: a deflated entry is answered with `Inflate`; zlib is not part of this model.
- SameBytes: compares byte by byte and stops at the first difference, so a name may be longer than the query only if they differ before its end.
- AuthInit: loading a key file and splitting the vendor path list are parameters, one outcome a path.
- AnswerTokens: signing is taken to succeed; a failed signature sends nothing and changes no key.
- `malloc` failure in the reader, `get_zipentry_name` and `get_zipentry_size`: they would add only easy members.
- Transport, shell, sync and USB code other than the AUTH branch named above.
- The base64 key file, `RSA_sign`, key generation, `adb_auth_get_userkey` and the other file handling in `adb_auth_host.cpp`.
- The lazy lock initialisation in `include/cutils/threads.h`, the vendor id table and the remaining headers.
