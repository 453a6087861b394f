# Verified models of five RTEMS components

A Dafny model of five parts of RTEMS's cpukit, with proofs of what each of them is for. Each part has a
specification that is simpler than the code (a transducer, a polynomial remainder, a tokenizer, a
denotation of format strings), methods that follow the code's loops and in-place updates, and theorems
about every input, every run or every reachable state.

| part | source | files |
|---|---|---|
| FTP daemon | `cpukit/ftpd/ftpd.c` | `FtpText`, `FtpTransfer`, `FtpPool`, `FtpDescriptors`, `FtpSession`, `FtpCommand`, `FtpTokens` |
| crypt | `cpukit/libcrypt/*.c` | `CryptSalt`, `CryptDigest`, `CryptSteps`, `CryptPack`, `CryptFormats`, `CryptResult`, `CryptOutput`, `CryptInPlace`, `Crypt` |
| Base64 | `cpukit/base64/*.c` | `Base64`, `Base64Encode`, `Base64Decode`, `Base64RoundTrip` |
| CRC-24Q | `cpukit/crc/crc24q.c` | `Crc24qTable`, `Polynomials`, `Crc24qWords`, `Crc24q`, `Crc24qDetection` |
| kernel printf | `cpukit/dev/iovprintf.c` | `PrintfNumber`, `Printf`, `PrintfText`, `Vprintf` |

`Bytes`, `Decimals`, `Alphabets` and `Divisions` hold what several parts share. `dafny verify dfyconfig.toml` checks everything.

## What is proved

**FTP transfers.** For any file and any two chunkings, what RETR sends in ASCII mode and STOR receives is
stored as the original, less a carriage return at the very end, which the STOR loop holds back and never
writes. The stored file is the original if and only if the original does not end in a carriage return.
STOR's segment loop is a one-character transducer run on the concatenated stream, and its count of bare
line feeds is the number of line feeds in the whole stream without a carriage return before them.

**FTP session pool.** The ring, the mutex sections and the semaphore are a state machine whose steps any
number of tasks interleave. Over every run: one owner for each entry, free plus held entries are all the
entries, semaphore plus waits and posts in flight is the occupancy of the ring, no push overwrites a live
slot, hand-out is first in, first out.

**FTP sockets.** All sessions share one descriptor table. For any sequence of sessions on one entry, with any
system call but close failing at any time and other sessions opening and closing descriptors between any
two calls: no data socket between commands, at most one data descriptor at a time, nothing named by an
entry back in the pool, every connect goes to the control peer's IP, to the peer's own address unless the
event just before is the PORT that named it, and a passive connection serves at most one transfer.

A STOR to /dev/null that gets its data connection closes descriptor 0 without having opened it for the
file: the descriptor may be another session's, the session's own data connection or its own control
connection. Over every interleaving of all sessions the closes of descriptors that are not open, made and
still to come, are exactly as many as such stores. When every entry is back, every descriptor opened has
been closed, and no close was stray if and only if no session made such a store; the session that suffers
need not be the one that made it.

RETR sends two final replies if and only if socket, bind or connect fails, STOR and LIST send none if and
only if setsockopt fails, and PASV sends two if and only if its accept fails; otherwise each sends one.

**crypt.** The digest loops compute the numbered steps of Drepper's "Unix crypt using SHA-256 and
SHA-512"; the result always fits the buffer; a stored result verifies a password if and only if the
digests agree. The fixpoint law `crypt(k, crypt(k, s)) == crypt(k, s)` is false for some salts: those in
which no rounds were recognized but whose first sixteen characters are `rounds=` and then nothing but a
number, or nothing. `$5$rounds=1000` without a dollar sign behind it is one. The law is proved to hold
exactly for all other salts, over every list of formats. A result that is checked in the buffer it was
left in comes back if and only if its salt text is empty: the call writes over the salt before copying it.

**Base64.** Decoding inverts encoding for every source, alphabet, line length and white-space line break,
into any target with room, and writes at most one byte behind the data; a smaller target overflows. A text
is accepted and fills a target if and only if its sextets are those of the encoding of the resulting
bytes. The interface (`cpukit/include/rtems/base64.h:70-71`) documents a break after a word length of
characters; the code breaks there if and only if the word length is at most four, and otherwise one to
four characters earlier.

**CRC-24Q.** All 256 table entries are checked; the table-driven update is polynomial division by
0x1864CFB; the division identity and its uniqueness are proved; the update is linear and, for a fixed
message, a bijection; an error goes unnoticed if and only if it is a multiple of the generator, so every
error in an odd number of bits and every error within 24 consecutive bits is found, and within 25 only the
generator itself is missed; a message with its own CRC appended leaves residue zero.

**printf.** The interpreter prints exactly the denotation of the format and returns its length; formats
compose; flags are scanned back from their spelling; numbers read back from every rendering; and the text
of every directive is given character by character.

**What pins the specifications.** Each function that a method is proved against is also characterized without
its own body: alphabets and magic strings by the strings the sources spell, the rounds of the digests by a
table of their pieces, what is hashed by position, tokens, fields and transferred bytes character by
character.

## Model

| member | source | states |
|---|---|---|
| FtpText.ReceiverMeaning | cpukit/ftpd/ftpd.c:1061-1122 | the one-character receiver drops each CR before an LF, holds back a CR at the end, and counts the LFs without a CR before them, as defined by position on the whole stream |
| FtpText.CollapseExpand | cpukit/ftpd/ftpd.c:831-866 | receiving an expanded text gives the text back less a CR at its very end, and no LF of it arrives bare |
| FtpText.RoundTripExact | cpukit/ftpd/ftpd.c:1061-1122 | the round trip is exact if and only if the text does not end in CR |
| FtpText.ExpandAt | cpukit/ftpd/ftpd.c:842-861 | what is sent, by position: every byte in order, a line feed behind a carriage return |
| FtpText.CollapseAt | cpukit/ftpd/ftpd.c:1088-1117 | what is stored, by position: every byte but a carriage return before a line feed or at the very end, in order |
| FtpTransfer.Retrieve | cpukit/ftpd/ftpd.c:818-884 | for every chunking the bytes sent are the file in the transfer's mode; 226 if and only if no send was short, read ended at the end of file and the close succeeded; after a failure what was sent is a prefix |
| FtpTransfer.RetrieveBinary | cpukit/ftpd/ftpd.c:822-830 | the binary loop sends the chunks as they are and stops at the first short send |
| FtpTransfer.RetrieveAscii | cpukit/ftpd/ftpd.c:831-866 | the ASCII loops send the file with every LF as CR LF, over any chunking |
| FtpTransfer.SendExpanded | cpukit/ftpd/ftpd.c:836-864 | the inner loop on one buffer sends its expansion; `rest` is 0 if and only if nothing failed |
| FtpTransfer.ScanToLf | cpukit/ftpd/ftpd.c:842-852 | the scan stops at the first LF or at the end of the buffer |
| FtpTransfer.Store | cpukit/ftpd/ftpd.c:1033-1140 | for every chunking the bytes written are the stream collapsed (ASCII) or as it is (binary); 226 if and only if no write was short and the close succeeded; the number of bare LFs reported is that of the whole stream |
| FtpTransfer.StoreBinary | cpukit/ftpd/ftpd.c:1049-1060 | the binary loop writes the stream and stops at the first short write |
| FtpTransfer.StoreAscii | cpukit/ftpd/ftpd.c:1061-1122 | output, pending CR and bare LF count are those of the one-character receiver on the concatenation of the chunks |
| FtpTransfer.StoreBuffer | cpukit/ftpd/ftpd.c:1067-1120 | one buffer takes the receiver from its state before to its state after, the pending CR crossing the buffer boundary; the inner loop strictly decreases `rest` |
| FtpTransfer.ScanSegment | cpukit/ftpd/ftpd.c:1085-1107 | a segment is at least one character long and what it writes is what the receiver puts out for it |
| FtpTransfer.WriteStretch | cpukit/ftpd/ftpd.c:1110-1115 | a stretch of count characters is written, nothing for a count that is not positive |
| FtpTransfer.RoundTrip | cpukit/ftpd/ftpd.c:1061-1122 | for any two chunkings the stored bytes are the file less a final CR, with no bare LF counted |
| FtpTransfer.BinaryRoundTrip | cpukit/ftpd/ftpd.c:1049-1060 | in binary mode the file arrives and is stored as it is |
| FtpTransfer.SendAndStore | cpukit/ftpd/ftpd.c:786-1140 | if RETR and then STOR of what was sent both end with 226, the stored file is the original less a final CR |
| FtpPool.TaskPool.Init | cpukit/ftpd/ftpd.c:433-487 | succeeds if and only if there is memory and every task starts; then the ring holds every entry in order |
| FtpPool.TaskPool.ObtainLocked | cpukit/ftpd/ftpd.c:507-512 | the locked section pops the ring and returns the entry at its head |
| FtpPool.TaskPool.ReleaseLocked | cpukit/ftpd/ftpd.c:530-534 | the locked section pushes the entry on the ring |
| FtpPool.InitInv | cpukit/ftpd/ftpd.c:440-485 | the invariant holds of the pool as initialized |
| FtpPool.StepInv | cpukit/ftpd/ftpd.c:503-536 | every step of every task keeps the invariant |
| FtpPool.RunInv | cpukit/ftpd/ftpd.c:503-536 | so does every run |
| FtpPool.SingleOwner | cpukit/ftpd/ftpd.c:503-536 | in every reachable state an entry has at most one owner and an owned entry is not in the ring |
| FtpPool.RingHasNoDuplicates | cpukit/ftpd/ftpd.c:527-536 | in every reachable state no entry is in the ring twice |
| FtpPool.Conservation | cpukit/ftpd/ftpd.c:503-536 | in every reachable state free and held entries together are all entries, and the semaphore with the waits and posts in flight is the number of free ones |
| FtpPool.PopIsSafe | cpukit/ftpd/ftpd.c:506-508 | a task past the semaphore finds the ring non-empty and takes its oldest entry |
| FtpPool.PushIsSafe | cpukit/ftpd/ftpd.c:530-533 | a push never overwrites a live slot |
| FtpPool.HandOutIsFifo | cpukit/ftpd/ftpd.c:503-536 | entries are handed out in the order they entered the ring |
| FtpPool.BlockedOnlyWhenAllTaken | cpukit/ftpd/ftpd.c:506-506 | when the semaphore is zero every entry is held or on its way |
| FtpSession.ConnectsFollowPort | cpukit/ftpd/ftpd.c:674-686 | every connect goes to the control peer's IP, to another address than the peer's own only directly after the PORT that named it, and never while a passive connection waits |
| FtpSession.PassiveServesOnce | cpukit/ftpd/ftpd.c:634-689 | a transfer over a passive connection directly follows the PASV that accepted it, so the connection serves one transfer at most |
| FtpDescriptors.StepKept | cpukit/ftpd/ftpd.c:1036-1124 | every open, close and store to /dev/null of any session keeps the account: open descriptors are named, and stray closes made and to come are as many as stores to /dev/null |
| FtpDescriptors.RunKept | cpukit/ftpd/ftpd.c:1036-1124 | so does every interleaving of all sessions |
| FtpDescriptors.KeptEven | cpukit/ftpd/ftpd.c:1036-1124 | stray closes are never ahead of stores to /dev/null, and level exactly when every named descriptor is open and named once |
| FtpDescriptors.AllBack | cpukit/ftpd/ftpd.c:1982-1984 | when every session has closed what it named, nothing is open and stray closes are exactly as many as stores to /dev/null, so none if and only if no session made one |
| FtpDescriptors.NoNullNoStray | cpukit/ftpd/ftpd.c:1036-1124 | at any point of any run without such a store no close was stray and every session's descriptors are open and its own |
| FtpDescriptors.Interference | cpukit/ftpd/ftpd.c:1036-1124 | a run in which one session stores to /dev/null and the close of another, which does not, is the stray one |
| FtpDescriptors.TracedKept | cpukit/ftpd/ftpd.c:1899-2079 | the account holds of any run of one session and all the others, step by step as the session's code makes them |
| FtpSession.System.Interfere | cpukit/ftpd/ftpd.c:433-487 | between two system calls of this session the others make any number of steps of their own, which keep the account |
| FtpSession.NullThenData | cpukit/ftpd/ftpd.c:1124-1141 | closing descriptor 0 and then the data descriptor: which close is stray, and that of all the others' descriptors only descriptor 0 is lost |
| FtpSession.Session.CloseSocket | cpukit/ftpd/ftpd.c:607-619 | closes a descriptor that is not negative and that the session names, and nothing else |
| FtpSession.Session.DataSocket | cpukit/ftpd/ftpd.c:634-689 | returns the waiting passive connection, or else a new connection or -1, puts the default address in force again, and sends a reply on every failure but that of setsockopt |
| FtpSession.Session.ConnectToPeer | cpukit/ftpd/ftpd.c:636-685 | on every failure the new socket is closed again; connect gets the address in force |
| FtpSession.Session.Connect | cpukit/ftpd/ftpd.c:643-683 | which of setsockopt, bind and connect failed, and the reply sent for it |
| FtpSession.Session.CloseDataSocket | cpukit/ftpd/ftpd.c:704-716 | the data or passive descriptor and no other is closed, and the session has neither afterwards |
| FtpSession.Session.CloseStream | cpukit/ftpd/ftpd.c:731-748 | the control descriptor is closed exactly once, through the stream or directly |
| FtpSession.Session.CommandPort | cpukit/ftpd/ftpd.c:1477-1528 | the PORT address is taken if and only if it is six bytes with the control peer's IP; otherwise the default is in force; one final reply |
| FtpSession.Session.CommandPasv | cpukit/ftpd/ftpd.c:1544-1603 | the session's own steps are: close the old connection, open the listening socket, accept, close the listening socket; the accepted descriptor stays as the passive one, on every failure path none does; one final reply, or two exactly if the accept fails |
| FtpSession.Session.CommandRetrieve | cpukit/ftpd/ftpd.c:786-889 | if it asks for the data connection, none is left and the default address is in force; if it returns before, a waiting passive connection and a PORT address stay; the file is closed on every path; one final reply and the one of data_socket, if that sent one |
| FtpSession.Session.CommandStore | cpukit/ftpd/ftpd.c:927-1142 | the same for the data connection; with no other session running, all descriptors are as they should be and no close was stray if and only if the store was not to /dev/null or got no data connection, and otherwise exactly which close is stray and whether the control connection survives; one final reply, or none exactly if setsockopt fails |
| FtpSession.Session.CommandList | cpukit/ftpd/ftpd.c:1271-1325 | nothing is left of the data connection if it was asked for, nothing changes if access is denied; one final reply, or none exactly if setsockopt fails |
| FtpSession.StartSession | cpukit/ftpd/ftpd.c:2028-2076 | an entry is set up naming exactly its control descriptor, or given back naming none |
| FtpSession.Execute | cpukit/ftpd/ftpd.c:1707-1880 | every command leaves the data socket at -1 and the account of the shared table kept |
| FtpSession.Serve | cpukit/ftpd/ftpd.c:1899-1986 | a whole session, stores to /dev/null included and others running, returns its entry naming nothing, with the account kept |
| FtpSession.ServeAll | cpukit/ftpd/ftpd.c:1899-2079 | over any sequence of sessions on one entry, with others running, the account of the shared table is kept and the record of connections is justified; if nobody else names a descriptor, nothing is open, every descriptor opened was closed and stray closes are exactly as many as stores to /dev/null of all sessions |
| FtpCommand.SkipOptions | cpukit/ftpd/ftpd.c:1618-1644 | never passes the terminator; stops where the tokenizer says the arguments start and writes its NUL at the end of the last option |
| FtpCommand.SkipOption | cpukit/ftpd/ftpd.c:1625-1637 | one option word; a word that is exactly "--" with a space behind it ends the options |
| FtpCommand.UpperWord | cpukit/ftpd/ftpd.c:1669-1673 | upper-cases the command word in place and nothing else |
| FtpTokens.UpperMeans | cpukit/ftpd/ftpd.c:1671-1671 | upper case is 32 less exactly for a to z |
| FtpCommand.CutLine | cpukit/ftpd/ftpd.c:1684-1687 | ends the arguments at the first CR or LF |
| FtpCommand.SplitCommand | cpukit/ftpd/ftpd.c:1662-1688 | the three strings left in the buffer are command, options and arguments of a pure tokenizer on the original text; nothing behind the terminator changes |
| FtpCommand.Assembled | cpukit/ftpd/ftpd.c:1662-1688 | no inserted NUL damages any of the three strings |
| FtpCommand.OptionsGap | cpukit/ftpd/ftpd.c:1641-1643 | between options and arguments there is a space for the NUL, unless the text ends there |
| FtpTokens.TokensMean | cpukit/ftpd/ftpd.c:1662-1688 | the line is white space, a word, white space, options, white space, arguments and the rest; the command is that word with 32 less exactly for a to z; the arguments run to the first CR or LF |
| FtpTokens.OptionsMean | cpukit/ftpd/ftpd.c:1618-1644 | every option word starts with a minus, a word "--" is the last one, and the options stop there or before the first other word |
| CryptSalt.HeadReadBack | cpukit/libcrypt/crypt-sha256.c:84-100 | parsing a printed head gives the same salt and rounds back, unless the printed salt itself looks like a rounds specification |
| CryptSalt.PlainHasRounds | cpukit/libcrypt/crypt-sha256.c:88-98 | a salt text with a dollar sign behind it is read as a rounds specification if and only if it is `rounds=` and a number, or nothing, to its end |
| CryptSalt.PrintedNumber | cpukit/libcrypt/crypt-sha256.c:217-223 | strtoul reads back every number that was printed |
| CryptSalt.StrtoulBeforeDollar | cpukit/libcrypt/crypt-sha256.c:90-93 | what strtoul reads before a dollar sign does not depend on what follows it |
| CryptSalt.StrtoulMeans | cpukit/libcrypt/crypt-sha256.c:90-93 | the number for any white space, sign and digits, out of range or negated too |
| CryptSalt.StrtoulTakesNothing | cpukit/libcrypt/crypt-sha256.c:90-93 | nothing is taken without a digit |
| CryptSalt.ParseMeans | cpukit/libcrypt/crypt-sha256.c:84-100 | the parser by character: salt text, when rounds are recognized, and their range |
| CryptPack.To64Injective | cpukit/libcrypt/misc.c:42-49 | the sextets of a number determine it |
| CryptPack.Itoa64Is | cpukit/libcrypt/misc.c:39-40 | the alphabet, as the string the source spells |
| CryptPack.PackGroupAt | cpukit/libcrypt/misc.c:51-69 | character i of a group is the i-th digit in base 64, from the lowest, of the number with its three bytes |
| CryptPack.PackInjective | cpukit/libcrypt/misc.c:51-69 | text packed by groups that use every byte once determines the digest |
| CryptFormats.Sha256Follows | cpukit/libcrypt/crypt-sha256.c:233-243 | the eleven groups follow the rotation of bytes j, j + 10, j + 20 |
| CryptFormats.Sha512Follows | cpukit/libcrypt/crypt-sha512.c:233-254 | the twenty-two groups follow the rotation of bytes j, j + 21, j + 42 |
| CryptFormats.FollowsInverse | cpukit/libcrypt/crypt-sha512.c:233-254 | such groups use every digest byte exactly once, and their length in closed form |
| CryptFormats.Md5Inverse | cpukit/libcrypt/crypt-md5.c:138-149 | the six groups of MD5 use every digest byte exactly once |
| CryptFormats.Md5Follows | cpukit/libcrypt/crypt-md5.c:138-149 | group j takes bytes j, j + 6 and j + 12, with byte 5 in the last full one and byte 11 left over |
| CryptDigest.CycleAt | cpukit/libcrypt/crypt-sha256.c:156-180 | byte i of P and S is the digest byte at i modulo the digest length |
| CryptDigest.UpdateCycle | cpukit/libcrypt/crypt-sha256.c:130-133 | the block loop feeds one byte of the digest for each character of the key |
| CryptDigest.UpdateByBits | cpukit/libcrypt/crypt-sha256.c:135-141 | the bit loop feeds digest or key for each bit of the key length, lowest first |
| CryptDigest.CopyCycle | cpukit/libcrypt/crypt-sha256.c:156-162 | the memcpy loop fills its buffer exactly with the digest repeated |
| CryptDigest.ComputeA | cpukit/libcrypt/crypt-sha256.c:103-144 | steps 1 to 12 of the specification |
| CryptDigest.ComputeSequence | cpukit/libcrypt/crypt-sha256.c:146-180 | steps 13 to 20: the digest of the repeated input, repeated to the wanted length |
| CryptDigest.FeedRound | cpukit/libcrypt/crypt-sha256.c:185-206 | what a round feeds, in order |
| CryptSteps.RoundTable | cpukit/libcrypt/crypt-sha256.c:184-206 | every round feeds the pieces of a table of twelve rows, by the round number modulo 6 and whether 7 divides it |
| CryptSteps.EveryThird | cpukit/libcrypt/crypt-sha256.c:194-196 | the salt is left out exactly in every third round; the digest is first in even rounds and last in odd ones |
| CryptSteps.EverySeventh | cpukit/libcrypt/crypt-sha256.c:198-200 | the key is fed twice, but once in every seventh round |
| CryptSteps.Period | cpukit/libcrypt/crypt-sha512.c:184-206 | the pieces repeat every 42 rounds |
| CryptSteps.ByBitsIs | cpukit/libcrypt/crypt-sha256.c:135-141 | one piece for each bit of the key length, from the lowest, chosen by that bit |
| CryptSteps.BitLengthIs | cpukit/libcrypt/crypt-sha256.c:137-137 | the number of these pieces is the number of bits of the key length |
| CryptSteps.RoundsFollowTable | cpukit/libcrypt/crypt-sha256.c:184-210 | the digest after a round is the hash of what the table says |
| CryptSteps.ShaSteps | cpukit/libcrypt/crypt-sha512.c:103-210 | the whole SHA digest, by position in what is hashed at each step |
| CryptSteps.Md5Steps | cpukit/libcrypt/crypt-md5.c:73-134 | the whole MD5 digest in the same way |
| CryptDigest.RunRounds | cpukit/libcrypt/crypt-sha256.c:182-210 | the rounds loop is the iterate of step 21 |
| CryptDigest.ComputeSha | cpukit/libcrypt/crypt-sha512.c:103-210 | the whole computation refines the stepwise specification, for both digest sizes |
| CryptDigest.UpdatePieces | cpukit/libcrypt/crypt-md5.c:90-92 | the MD5 block loop feeds one byte of the digest for each character |
| CryptDigest.ComputeMd5Start | cpukit/libcrypt/crypt-md5.c:73-109 | the MD5 computation up to its rounds, with the digest cleared before the bit loop, is its specification |
| CryptResult.ShaLength | cpukit/libcrypt/crypt-sha512.c:214-261 | the length of a SHA result in closed form, at most 123 |
| CryptResult.ShaReparsed | cpukit/libcrypt/crypt-sha256.c:84-100 | a result parses to the salt it was made from, unless that is ambiguous; then it parses as a rounds specification |
| CryptResult.ShaFixpoint | cpukit/libcrypt/crypt-sha256.c:84-249 | a password verifies against its own SHA result if and only if the salt is not ambiguous |
| CryptResult.AmbiguousGrows | cpukit/libcrypt/crypt-sha256.c:88-100 | for an ambiguous salt the second result is longer than the first |
| CryptResult.AmbiguousFamily | cpukit/libcrypt/crypt-sha256.c:88-98 | `rounds=` and any number up to the maximum, without a dollar sign, is ambiguous |
| CryptResult.ShaPackedDeterminesDigest | cpukit/libcrypt/crypt-sha512.c:233-254 | the digest can be decoded from the text |
| CryptResult.ShaVerifies | cpukit/libcrypt/crypt-sha256.c:65-262 | another password passes the check if and only if its digest is the same |
| CryptResult.Md5Reparsed | cpukit/libcrypt/crypt-md5.c:59-71 | an MD5 result parses to the salt it was made from, always |
| CryptResult.Md5Verifies | cpukit/libcrypt/crypt-md5.c:48-156 | a password passes the MD5 check if and only if its digest is the same |
| CryptResult.ShaResultIs | cpukit/libcrypt/crypt-sha256.c:214-249 | the result: prefix, rounds as the salt gave them, salt text, dollar sign, packed digest |
| CryptResult.Md5SaltMeans | cpukit/libcrypt/crypt-md5.c:59-71 | the MD5 salt by character |
| CryptResult.VariantsAre | cpukit/libcrypt/crypt-sha512.c:49-69 | prefixes and digest sizes of the SHA formats |
| CryptOutput.Stpncpy | cpukit/libcrypt/crypt-sha256.c:214-226 | copy, zero padding and returned end |
| CryptOutput.Snprintf | cpukit/libcrypt/crypt-sha256.c:218-219 | truncated text and terminator, and the untruncated length |
| CryptOutput.CryptTo64 | cpukit/libcrypt/misc.c:42-49 | n sextets, least significant first |
| CryptOutput.B64From24bit | cpukit/libcrypt/misc.c:51-69 | exactly which characters are written and how the counter ends, for every counter: the test comes after the store, so it stops two characters behind the space that is left |
| CryptOutput.ParseSalt | cpukit/libcrypt/crypt-sha256.c:78-100 | start and length of the salt, rounds, and whether they were given |
| CryptOutput.PrintPrefix | cpukit/libcrypt/crypt-sha256.c:214-223 | prefix and rounds are in the buffer, a zero follows, and the counter of remaining space is exact |
| CryptOutput.PrintHead | cpukit/libcrypt/crypt-sha256.c:214-231 | the head is in the buffer and the counter of remaining space is exact, at least 219 |
| CryptOutput.PrintGroups | cpukit/libcrypt/crypt-sha512.c:233-254 | the packed digest follows and the counter stays exact |
| CryptOutput.CryptShaR | cpukit/libcrypt/crypt-sha512.c:65-274 | NULL is never returned and the buffer holds the specified string, terminated |
| CryptOutput.ScanMd5Salt | cpukit/libcrypt/crypt-md5.c:66-71 | the salt ends at a dollar sign, at the end or after eight characters |
| CryptOutput.PutGroups | cpukit/libcrypt/crypt-md5.c:136-149 | the packed MD5 digest follows the head |
| CryptOutput.CryptMd5R | cpukit/libcrypt/crypt-md5.c:48-156 | the buffer holds the specified string, terminated |
| CryptInPlace.SaltPlace | cpukit/libcrypt/crypt-sha256.c:84-98 | in a stored result the salt starts at the index where the next result will put it |
| CryptInPlace.StpncpyWithin | cpukit/libcrypt/crypt-sha256.c:225-226 | a copy from the buffer into itself, empty if its source has been cleared |
| CryptInPlace.CryptShaInPlace | cpukit/libcrypt/crypt-sha256.c:65-262 | with any salt in the result buffer nothing is written outside it and NULL is not returned; for a stored result the new one is prefix, rounds, dollar sign and the right packed digest, without the salt |
| CryptInPlace.ShaInPlaceFixpoint | cpukit/libcrypt/crypt-sha256.c:214-231 | a stored SHA result used in place comes back if and only if its salt text is empty |
| CryptInPlace.PrintMd5HeadInPlace | cpukit/libcrypt/crypt-md5.c:104-107 | the salt is lost, and what the rounds will read in its place |
| CryptInPlace.CryptMd5InPlace | cpukit/libcrypt/crypt-md5.c:48-156 | with the salt in the result buffer, the rounds use the overwritten salt and the result has none |
| CryptInPlace.Md5InPlaceFixpoint | cpukit/libcrypt/crypt-md5.c:104-134 | a stored MD5 result used in place comes back if and only if its salt text is empty |
| Crypt.Registry.AddFormat | cpukit/libcrypt/crypt.c:47-51 | a format not in the list becomes its head; one in the list changes nothing; the list stays linked, without duplicates, the default last |
| Crypt.Registry.Choose | cpukit/libcrypt/crypt.c:58-62 | the first format whose magic the salt starts with, or else the head of the list |
| Crypt.Registry.CryptR | cpukit/libcrypt/crypt.c:53-65 | the buffer holds the string of the chosen format and is never NULL |
| Crypt.Registry.CryptRInPlace | cpukit/libcrypt/crypt.c:53-65 | what the chosen format leaves when the salt is a stored result in the result buffer |
| Crypt.CopyDefault | cpukit/libcrypt/crypt.c:29-38 | the password, truncated to 255 characters and terminated |
| Crypt.FormatsAre | cpukit/libcrypt/crypt.c:29-45 | the magic strings of the formats, and the 255 characters the default format keeps |
| Crypt.ResultFindsFormat | cpukit/libcrypt/crypt.c:58-60 | a string with the magic of a format in the list is given to that format, wherever it stands |
| Crypt.SecondRun | cpukit/libcrypt/crypt.c:53-65 | a result used as salt goes back to the format that made it |
| Crypt.Fixpoint | cpukit/libcrypt/crypt.c:47-65 | for every list, password and salt the result is a fixpoint if and only if the salt is not lossy for the chosen format |
| Crypt.Verifies | cpukit/libcrypt/crypt.c:53-65 | for every list and every other salt, another password passes the check if and only if the digests agree |
| Crypt.InPlaceFixpoint | cpukit/libcrypt/crypt.c:53-65 | for every list and every salt that is not lossy, the result checked in its own buffer goes to the same format and comes back if and only if its salt text is empty |
| Base64.DecodingInvertsEncoding | cpukit/base64/base64-decode.c:45-77 | the decoding table inverts both alphabets |
| Base64.EncodingIs | cpukit/base64/base64-encode.c:91-113 | the two alphabets, as the strings the source spells |
| Base64.DecodingIs | cpukit/base64/base64-decode.c:45-77 | what the decoding table makes of every character |
| Base64Encode.DoEncode | cpukit/base64/base64-encode.c:39-89 | the characters put are the lines of the encoding joined by the word break, and the return value is their number |
| Base64Encode.LineLengths | cpukit/base64/base64-encode.c:50-73 | every line with another behind it has the same length, the last one at most that |
| Base64Encode.FullLineLength | cpukit/base64/base64-encode.c:46-63 | a full line reaches the word length if and only if that is at most four; above, it is one to four characters short |
| Base64Encode.LinesFit | cpukit/base64/base64-encode.c:46-73 | each line has at least four characters and fits wordlen, strictly if that is above four; full lines have their exact length |
| Base64Encode.LinesWithoutBreaks | cpukit/base64/base64-encode.c:61-73 | without the breaks the lines are the one-line text |
| Base64Encode.BreakWhenFull | cpukit/base64/base64-encode.c:62-63 | the break test is met exactly when the line has its number of groups, that is, when one more group would reach the word length |
| Base64Encode.TextLength | cpukit/base64/base64-encode.c:50-88 | four characters for every three bytes or part of them |
| Base64Encode.TextCharacters | cpukit/base64/base64-encode.c:74-87 | characters of the alphabet only, pads only at the end and as many as the last group is short of bytes |
| Base64Encode.JoinIs | cpukit/base64/base64-encode.c:62-72 | one break between any two lines, none in front of the first or behind the last |
| Base64Decode.Base64DecodeControl.constructor | cpukit/base64/base64-decode.c:79-85 | the initial control block |
| Base64Decode.Base64DecodeControl.Decode | cpukit/base64/base64-decode.c:87-165 | the in-place step on control block and target is the pure step |
| Base64Decode.OnlyDataMatters | cpukit/base64/base64-decode.c:100-113 | a text is accepted if and only if it has no invalid character, no data after a pad, and its sextets alone are accepted; spaces and pads change nothing else |
| Base64Decode.FullTarget | cpukit/base64/base64-decode.c:117-119 | a full target refuses data and does not change |
| Base64Decode.AfterKeepsPrefix | cpukit/base64/base64-decode.c:121-164 | finished bytes never change again |
| Base64Decode.FillsIffSextets | cpukit/base64/base64-decode.c:100-164 | sextets are all accepted and fill the target with given bytes if and only if they are the sextets of these bytes |
| Base64RoundTrip.AcceptedIffEncoding | cpukit/base64/base64-decode.c:87-165 | the same for texts: zero leftover bits, no dangling sextet, no data after a pad |
| Base64RoundTrip.DecodeOfEncode | cpukit/base64/base64-encode.c:39-89 | decoding an encoder output into any target with room succeeds on every character and puts the source at its start, for any alphabet, line length and white-space break; behind it only one byte may change, to zero |
| Base64RoundTrip.RoomSuffices | cpukit/base64/base64-decode.c:121-160 | with room every sextet of an encoding is accepted, and the carry clears one byte behind the data exactly when the last group is not whole |
| Base64RoundTrip.SmallTargetOverflows | cpukit/base64/base64-decode.c:117-151 | with less room some sextet overflows |
| Base64RoundTrip.DecodeIntoSmallerTarget | cpukit/base64/base64-decode.c:117-151 | so an encoder output in a smaller target ends in overflow and nothing else |
| Base64RoundTrip.EncodeOfDecode | cpukit/base64/base64-encode.c:50-88 | re-encoding what was decoded gives the same sextets |
| Crc24qTable.EntryCorrect | cpukit/crc/crc24q.c:42-128 | every table entry is eight division steps on its index |
| Crc24q.TableEntry | cpukit/crc/crc24q.c:42-128 | as polynomials: the index times x to the 24th modulo the generator |
| Crc24q.UpdateIsEightFeeds | cpukit/crc/crc24q.c:130-132 | one lookup is eight steps of the bit-serial register; the top eight bits of the word play no part |
| Crc24q.UpdateAllIsFeed | cpukit/crc/crc24q.c:138-148 | for every start value and message the low 24 bits are those of the bit-serial register |
| Crc24q.SequenceUpdate | cpukit/crc/crc24q.c:138-148 | the loop computes that value |
| Crc24q.UpdateAllConcat | cpukit/crc/crc24q.c:138-148 | updating over a concatenation is the composition of updates |
| Crc24q.CrcIsDivision | cpukit/crc/crc24q.c:130-148 | the low 24 bits are what schoolbook division by 0x1864CFB leaves after the message and 24 zeros, started where 24 divisions by x take the start value |
| Crc24q.CrcIsRemainder | cpukit/crc/crc24q.c:138-148 | from zero they are the remainder of the message times x to the 24th |
| Polynomials.DivisionIdentity | cpukit/crc/crc24q.c:42-128 | a polynomial is quotient times generator plus a remainder of degree below 24 |
| Polynomials.RemainderUnique | cpukit/crc/crc24q.c:42-128 | which determines quotient and remainder |
| Polynomials.FeedBitsBijective | cpukit/crc/crc24q.c:130-132 | for a fixed message the register is a bijection on its states, with an explicit inverse |
| Polynomials.FeedBitsLinear | cpukit/crc/crc24q.c:130-132 | the register is linear in state and message together |
| Crc24q.UpdateAllBijective | cpukit/crc/crc24q.c:138-148 | two start values give the same CRC if and only if their low 24 bits are the same |
| Crc24q.UpdateAllOnto | cpukit/crc/crc24q.c:138-148 | for every message, every 24-bit CRC is reached from some start word |
| Crc24q.UpdateAllLinear | cpukit/crc/crc24q.c:130-148 | the update is linear under exclusive or |
| Crc24q.BurstDetected | cpukit/crc/crc24q.c:130-148 | two different messages of one length that differ only within 24 consecutive bits have different CRCs |
| Crc24q.ResidueZero | cpukit/crc/crc24q.c:130-148 | a message followed by its own three CRC bytes leaves zero |
| Crc24qDetection.UndetectedIffMultiple | cpukit/crc/crc24q.c:130-148 | two messages of one length have the same CRC if and only if their difference is a multiple of the generator |
| Crc24qDetection.OddErrorDetected | cpukit/crc/crc24q.c:130-148 | messages that differ in an odd number of bits have different CRCs |
| Crc24qDetection.BurstOf25 | cpukit/crc/crc24q.c:130-148 | of the differences within 25 consecutive bits only the generator itself is missed |
| Crc24qDetection.TimesXParity | cpukit/crc/crc24q.c:42-128 | multiplication by x modulo the generator keeps the parity of the weight |
| PrintfNumber.NumeralMeans | cpukit/dev/iovprintf.c:83-86 | the digits evaluate to the number and start with a zero only for zero |
| PrintfNumber.BufferSuffices | cpukit/dev/iovprintf.c:52-53 | every 64-bit number in a base from 8 up fits the buffer with its terminator |
| PrintfNumber.Ksprintn | cpukit/dev/iovprintf.c:77-89 | the buffer holds the digits in reverse behind a terminator, the result is their number |
| PrintfNumber.RenderedLength | cpukit/dev/iovprintf.c:318-353 | the emitted length is max(width, tmp + max(dwidth, n)), with the zero flag overriding the precision |
| PrintfNumber.RenderedReadsBack | cpukit/dev/iovprintf.c:317-355 | whatever flags, width and precision, the text reads back to the number with its sign |
| Printf.ScanExtends | cpukit/dev/iovprintf.c:134-179 | scanning a directive does not depend on what follows its conversion character |
| Printf.Composition | cpukit/dev/iovprintf.c:122-368 | what two formats one behind the other print: the second gets the arguments the first has left, or is copied verbatim behind an unknown directive |
| Printf.LiteralFormat | cpukit/dev/iovprintf.c:125-129 | a format without a percent sign prints itself |
| Printf.SpellingScansBack | cpukit/dev/iovprintf.c:134-179 | every choice of flags, width, precision and length is scanned back from its usual spelling |
| Printf.SignedReadsBack | cpukit/dev/iovprintf.c:293-355 | a signed directive prints a text that reads back to its argument, the most negative value included |
| Printf.UnsignedReadsBack | cpukit/dev/iovprintf.c:273-355 | an unsigned directive does, in each base and either case |
| Printf.TextLength | cpukit/dev/iovprintf.c:234-254 | %s emits the longer of the width and the text under its precision |
| PrintfText.TextDirective | cpukit/dev/iovprintf.c:234-254 | %s by character, from the format string: the characters shown, and blanks, or zeros exactly with a zero flag, before them or behind |
| PrintfText.TextIs | cpukit/dev/iovprintf.c:234-254 | the same for any precision and for a null string |
| PrintfText.CharDirective | cpukit/dev/iovprintf.c:180-190 | %c in the same way |
| PrintfText.PercentIs | cpukit/dev/iovprintf.c:147-149 | two percent signs print one |
| PrintfText.UnknownDirective | cpukit/dev/iovprintf.c:356-366 | from an unknown directive on, the format prints itself |
| PrintfText.IntegerDirective | cpukit/dev/iovprintf.c:273-355 | every integer directive by character, from the format string: blanks, sign, prefix, zeros, digits of one case and blanks |
| PrintfText.PointerIs | cpukit/dev/iovprintf.c:228-233 | %p by character: 0x exactly if no width is given, never a sign |
| PrintfText.LengthsAre | cpukit/dev/iovprintf.c:209-224 | how many values of the argument each length leaves |
| PrintfText.StarIs | cpukit/dev/iovprintf.c:150-160 | a star takes a width, a negative one adjusting to the left, or a precision |
| PrintfText.DumpOfOne | cpukit/dev/iovprintf.c:196-199 | %D: two lower-case digits for a byte, the high one first |
| PrintfText.DumpOfTwo | cpukit/dev/iovprintf.c:196-203 | and the text between two bytes, not behind the last |
| PrintfText.NullFormatIs | cpukit/dev/iovprintf.c:119-120 | the text of a null format |
| Printf.PointerReadsBack | cpukit/dev/iovprintf.c:228-233 | %p prints a text that reads back to the pointer |
| Printf.DirectiveReadsBack | cpukit/dev/iovprintf.c:122-355 | from the format string to the text and back, for d, i, o, u, x, X, y and p with any flags |
| Vprintf.ScanNumber | cpukit/dev/iovprintf.c:169-174 | the digit loop computes the number and stops behind it, without overflow in between |
| Vprintf.TakeStar | cpukit/dev/iovprintf.c:150-160 | a width from an argument, a negative one turning the adjustment round, or a precision |
| Vprintf.OneTurn | cpukit/dev/iovprintf.c:134-272 | one turn of the switch |
| Vprintf.ScanFlags | cpukit/dev/iovprintf.c:134-272 | the switch stops at the conversion character with the flags of the specification |
| Vprintf.FetchSigned | cpukit/dev/iovprintf.c:293-315 | magnitude and sign of the argument, computed in unsigned 64 bits |
| Vprintf.FetchUnsigned | cpukit/dev/iovprintf.c:273-292 | the argument modulo the number of values of the type that the length flags select |
| Vprintf.FieldArithmetic | cpukit/dev/iovprintf.c:328-331 | blanks and zeros to put, with no overflow of int |
| Vprintf.PutNumber | cpukit/dev/iovprintf.c:316-355 | the pieces put are the rendered number |
| Vprintf.PreciseLength | cpukit/dev/iovprintf.c:238-242 | the length of a string under its precision |
| Vprintf.PutDump | cpukit/dev/iovprintf.c:191-204 | the bytes of %D in hexadecimal with the separator between them |
| Vprintf.PutConversion | cpukit/dev/iovprintf.c:147-365 | each conversion puts its text and takes its arguments |
| Vprintf.PutDirective | cpukit/dev/iovprintf.c:130-367 | a directive puts its text, or itself verbatim if unknown, after which everything is copied |
| Vprintf.Interpret | cpukit/dev/iovprintf.c:122-368 | the characters put are the denotation of the format and the return value is their number; the terminator of the format is never passed |
| Vprintf.Vprintf | cpukit/dev/iovprintf.c:92-368 | the same for every defined call, a null format printing a text of its own |

## Left out

- FTP text formatting (LIST lines, MDTM, SIZE, PWD), hooks, log-in, timeouts, chroot and the text of replies: input, output and library calls. Final replies are counted for PORT, PASV, RETR, STOR and LIST.
- The FTP mutex sections are taken as atomic steps; task_pool_done, the clean-up when task_pool_init fails, is not modelled.
- FtpTransfer.Store: a receive error ends the loop like the end of the stream and is answered with 226, as in the code; the model's stream is what was received.
- FtpSession.Session.CommandPort: takes the six numbers as sscanf converts them.
- FtpSession.Session.CloseSocket: close calls succeed, also those of descriptors that the session does not have open, which another owner may have; the retry after shutdown is not modelled.
- The hash functions of crypt are arbitrary functions with results of the right size; contexts accumulate what they are fed. Clearing of stack buffers after use is not modelled.
- CryptOutput.CryptShaR: the source spells out one call for each group, the model walks the list of groups; unsigned long has 64 bits. The salt is not in the result buffer; CryptInPlace.CryptShaInPlace models one that is.
- CryptOutput.CryptMd5R: lengths are not truncated to unsigned int. The salt is not in the result buffer; CryptInPlace.CryptMd5InPlace models one that is.
- Crypt.Registry.CryptR: the salt is not in the result buffer; Crypt.Registry.CryptRInPlace models one that is.
- Crypt.Registry.CryptRInPlace: the salt is a stored result from the start of the buffer, with its text where the next result puts it; a salt elsewhere in the buffer and the result of a lossy salt are not modelled. Copies between overlapping strings, which the C library leaves undefined, go upwards one character at a time.
- Base64Encode.DoEncode: the output fits int, as the return type demands.
- Vprintf.Vprintf: the call is defined, that is, the format does not end inside a directive, arguments match, and no width, precision, string length or count overflows int; a plain char is identified with its unsigned value, and negating the most negative intmax_t wraps around.
- printf on machines where long, size_t, ptrdiff_t and pointers differ in size.
- The MD5 and SHA compression functions, zlib, xz, libfdt, libdebugger and the build scripts.
