# DesertEmail: a verified model of its hard algorithms

DesertEmail is a mail server that brings its own bignum arithmetic, RSA, DER, DKIM, SPF, DNS names, tar archives,
delivery queue and limiters. This project restates those algorithms in Dafny, in the form the source has them (loops
over limbs, buffers and queue files; objects whose methods update their fields), and proves what they are for.

`dafny verify dfyconfig.toml` checks everything.

| area | modules |
|---|---|
| bignum, number theory | Arith, NumberTheory, Bits, Limbs, BigNum, BigDivision, BigBytes, BigModular |
| RSA, primes, key files | Rsa, Primality, PrimeSearch, PrimeRecovery, Der, KeyCodec, Octets, Base64, Pem |
| queue, session, delivery | QueueFile, Retry, Delivery, MailFlow, Session, DataLoop, Text, Utf8 |
| DKIM | DkimText, DkimForms, Dkim, DkimAgreement, DkimPass |
| SPF | IpNetwork, SpfRecord, Spf, SpfMeaning |
| DNS, tar | Dns, TarHeader, Tar, TarBuild |
| limiters, calendar | Limits, RateLimit, Calendar |

The main results, in one sentence each:

- The verifier of RSA signatures accepts one byte string per digest, the signature the signer makes.
- The primality test never rejects a prime; below 10201 it accepts the primes and 1 only, and whatever it accepts
  above 1 has no proper divisor from 2 to 100. The search for a prime returns odd numbers of exactly the size asked
  for.
- Recovering primes from (n, e, d) ends, and whatever it returns is a factorization with the right CRT values.
- Whatever several clients send, interleaved with any scans of the worker, the ledger holds the transactions answered
  with 250, and every recipient of every one of them is in exactly one of stored, sent, bounced, queued, if and only if
  no submission named a remote address that a queue file cannot hold.
- What a session passes on is fixed by its commands and codes alone: the last MAIL and the RCPTs answered 250 since,
  with nothing between that ends a transaction. The file it queues loads with its text and sender, after any scans.
- No transaction is attempted more than ten times over any such run, whatever the clock does; ten are reached.
- The DATA loop undoes dot stuffing, ends at the first terminator there is and does not depend on how the stream is cut
  into chunks.
- DKIM signer and verifier hash the same body, and the same header text exactly when the first and the last field of
  every listed name have the same canonical form; with the key published, the verifier says pass exactly when the two
  header texts have the same digest, and fail otherwise. Whatever field is verified, pass means a body hash that matches
  and a key that accepts; a signed message with another body fails.
- The answer of an SPF record is that of its first directive that covers the client, by leading address bits and the
  resolver's answers, for records given as lists with their text written out.
- SPF evaluation ends on every record graph within ten resolver calls; the depth guard decides nothing; raising the
  lookup limit changes no answer other than PermError.
- Names with compression pointers read as the names they abbreviate; archives and key files read back as written.
- The connection limiter keeps its limits in every interleaving and loses no slot. Logins are refused exactly while a
  lockout of that address lasts, whatever others do; pruning is never observable.

## Facts about the source worth knowing

- `is_probable_prime(1)` is true, the one wrong answer below 10201 (`PrimeSearch.ExactBelow10201`); the search never
  asks for it, since its numbers have at least 16 bits (`PrimeSearch.CandidateShape`). The trial divisors leave out 2;
  2 passes because every base is at least n, and base 2 rejects every other even number.
- A queue file joins recipients with commas, so an address holding a comma, or white space at an edge, does not come
  back (`QueueFile.CommaSplitsAnAddress`; the exact condition is `QueueFile.RecipientsSurviveIffClean`).
- `deliver_mail` skips, without an error, an inbound recipient that does not resolve. It conserves recipients exactly
  when every recipient resolves, or the transaction is a submission whose remote addresses are clean
  (`MailFlow.DeliveryBooks`); for inbound mail the session invariant provides that (`Session.InboundConserves`). Copies
  stored before a delivery fails stay stored and are booked as orphaned (`MailFlow.MailSystem.StoreAndQueue`).
- The number `deliver_mail` returns also counts the copy in the sender's Sent folder
  (`MailFlow.MailSystem.DeliverMail`).
- The signer takes the first field of a name, the verifier the last: of a message with two `From` fields that differ
  they hash different header texts (`DkimAgreement.SecondInstanceDiffers`, `DkimAgreement.TwoFromFields`), and the
  signature fails unless the digests collide (`DkimPass.SignedMessageVerdict`).
- A PKCS#1 key whose wire prime is 1 makes `crt_from_primes` divide by zero, and the code panics; the model returns
  the error `DivisionByZero` exactly there (`KeyCodec.ReadCrt`).
- A failed login during a lockout neither lengthens it nor counts towards it: with a limit of three failures in 300
  seconds and a lockout of 900, failures at 1, 2, 3 and 4 are allowed again from 903 on
  (`RateLimit.LaterFailureExtendsNothing`), although the last four fill a window
  (`RateLimit.RefusedExactlyWhileLocked` has the exact condition).
- The SubjectPublicKeyInfo writer of src/crypto.rs cuts lengths from 2^24 on to three bytes; the one of src/dkim.rs does
  not (`KeyCodec.SpkiWritersAgree`).
- The end of the stream inside DATA is taken for the end of the message: a stream cut off at a line end is accepted as
  a shorter message (`DataLoop.CutOff`). The loop ended at a terminator if and only if one stands in the stream, by the
  bytes alone (`DataLoop.EndIsFirstTerminator`); otherwise it returns everything collected (`DataLoop.EndOfData`).

## Model

| member | source | states |
|---|---|---|
| BigNum.Normalize | src/crypto.rs:116-124 | stripping zero limbs keeps the value and leaves a normal form |
| BigNum.Cmp | src/crypto.rs:143-155 | the result is the order of the two integers |
| BigNum.Add | src/crypto.rs:307-324 | the sum of the integers, normalized, for operands of any length |
| BigNum.Sub | src/crypto.rs:156-179 | the difference when it is not negative, None exactly otherwise |
| BigNum.Mul | src/crypto.rs:180-210 | the product of the integers, normalized |
| BigNum.MulAccumulator | src/crypto.rs:185-193 | limb product plus limb plus carry is at most 2^64-1, and the next carry fits 32 bits |
| BigNum.BitLength | src/crypto.rs:129-136 | the number lies in [2^(k-1), 2^k) for its bit length k |
| BigDivision.Shl | src/crypto.rs:255-278 | multiplication by 2^bits |
| BigDivision.Shr1 | src/crypto.rs:279-291 | halving, rounded down |
| BigDivision.SetBit | src/crypto.rs:292-302 | adds 2^bit exactly when the bit was clear |
| BigDivision.DivRemU32 | src/crypto.rs:241-254 | quotient and remainder by a limb: a = q*d + r with r < d |
| BigDivision.DivRem | src/crypto.rs:211-240 | a = q*d + r with r < d, over both paths |
| BigDivision.Rem | src/crypto.rs:303-306 | the residue of the integer |
| BigBytes.FromBeBytes | src/crypto.rs:54-74 | reads a big-endian byte string of any length as the integer it denotes |
| BigBytes.ToBeBytes | src/crypto.rs:75-99 | writes the integer without leading zero bytes, one zero byte for 0 |
| BigBytes.ToBeBytesPadded | src/crypto.rs:100-115 | writes exactly width bytes, the low-order ones when the number is larger |
| BigBytes.MinimalBytesUnique | src/crypto.rs:75-99 | two minimal byte strings of one integer are the same bytes |
| BigModular.ModPow | src/crypto.rs:371-388 | square-and-multiply computes base^exp mod n, and 0 for modulus 0 |
| BigModular.SignedSub | src/crypto.rs:393-414 | sign-and-magnitude subtraction is integer subtraction |
| BigModular.ModInverse | src/crypto.rs:327-368 | for modulus above 1: Some(v) exactly when the gcd is 1, with 0 < v < m and a*v = 1 mod m; other moduli as the code answers |
| BigModular.BigGcd | src/crypto.rs:1033-1043 | the loop ends with the greatest common divisor: it divides both, and every common divisor divides it |
| NumberTheory.CoprimeIffInvertible | src/crypto.rs:327-368 | coprime to m is the same as having an inverse modulo m |
| NumberTheory.Fermat | src/crypto.rs:1151-1211 | x^(p-1) is 1 modulo a prime p not dividing x |
| NumberTheory.SquareRootsOfOne | src/crypto.rs:1151-1211 | modulo a prime only 1 and -1 square to 1 |
| Rsa.SignDigest | src/crypto.rs:682-709 | for a 32-byte digest and k of at least 62: the padded block to the d modulo n, in k bytes; errors otherwise |
| Rsa.VerifyDigest | src/crypto.rs:799-846 | accepts exactly when s has k bytes, is below n, and s^e mod n is the padded block |
| Rsa.ScanBlock | src/crypto.rs:820-846 | the scan of the recovered block accepts the padded block and nothing else |
| Rsa.RsaIdentity | src/crypto.rs:371-388 | for distinct primes and ed = 1 mod (p-1)(q-1): m^(ed) = m mod pq, for every m |
| Rsa.RsaInverse | src/crypto.rs:371-388 | signing and opening undo each other on every m below n, in both orders |
| Rsa.AcceptsExactlyTheSignature | src/crypto.rs:682-709 | a byte string is accepted if and only if it is the signature the signer makes |
| Rsa.AcceptsOnlyItsDigest | src/crypto.rs:799-846 | a signature is accepted for the digest it was made for and for no other |
| Rsa.BlockLayout | src/crypto.rs:682-709 | the block signed is 00 01, FF bytes, 00 and the DER of a DigestInfo naming id-sha256 by its arcs |
| Primality.TakeOutTwos | src/crypto.rs:1151-1189 | n-1 split into its odd part and its power of two |
| Primality.MillerRabinRound | src/crypto.rs:1191-1211 | passes exactly when the base is at least n or n is a strong probable prime to it |
| Primality.IsProbablePrime | src/crypto.rs:1151-1189 | true exactly for numbers above 0 that survive trial division and all rounds, or are a trial prime |
| Primality.PrimePassesRound | src/crypto.rs:1191-1211 | a prime is a strong probable prime to every base below it |
| Primality.PrimesPass | src/crypto.rs:1151-1211 | every prime is answered true, so whatever is rejected is not prime |
| Primality.OnePassesToo | src/crypto.rs:1151-1189 | the decision is true at 1, which is not prime |
| PrimeSearch.AcceptedHasNoSmallDivisor | src/crypto.rs:1151-1189 | whatever is accepted above 1 has no proper divisor from 2 to 100 |
| PrimeSearch.ExactBelow10201 | src/crypto.rs:1151-1211 | below 101*101 the primes and 1 are accepted, and nothing else |
| PrimeSearch.AcceptedIsStrong | src/crypto.rs:1168-1211 | whatever is accepted above 97 is a strong probable prime to the bases 2, 3, 5, 7, 11, 13 and 23 |
| PrimeSearch.CandidateShape | src/crypto.rs:1122-1143 | a candidate has exactly the bits asked for and is odd, whatever the random bytes |
| PrimeSearch.CandidateKeeps | src/crypto.rs:1126-1142 | every other bit of a candidate is the random one |
| PrimeSearch.RandomPrime | src/crypto.rs:1122-1149 | the first candidate that passes, NoneFound exactly when none does; sizes below 16 bits are refused |
| PrimeRecovery.CrtFromPrimes | src/crypto.rs:1045-1067 | Ok exactly for coprime factors above 1: the larger becomes p, q*qInv = 1 mod p, dP and dQ reduce d; a factor 0 is an error, a factor 1 a division by zero |
| PrimeRecovery.RootSplits | src/crypto.rs:1084-1117 | a square root of 1 other than 1 and -1 modulo n yields a proper factor gcd(c-1, n) |
| PrimeRecovery.RecoverCrt | src/crypto.rs:1069-1120 | both loops end; every Ok holds p*q = n and right CRT values; each error with the inputs that cause it |
| PrimeRecovery.TwoPrimeRecovery | src/crypto.rs:1069-1120 | for n = p*q with primes: Ok exactly when a searched base has a witness, and then with these primes |
| PrimeRecovery.RecoveredForTwoPrimes | src/crypto.rs:1069-1120 | for two distinct primes the record recovered is theirs, and is absent exactly when no base meets a witness |
| PrimeRecovery.RecoveredExactly | src/crypto.rs:1069-1120 | with ed - 1 = t*2^s: the primes are found exactly when some even a below 200 has, among a^(t*2^j) with j below s, a root of 1 other than 1 and -1 |
| Der.EncodeDerInteger | src/crypto.rs:876-883 | the INTEGER encoding of the value, with the sign byte when the top bit is set |
| Der.LengthForm | src/crypto.rs:893-909 | a length below 128 is one byte, a longer one its shortest big-endian bytes behind their number |
| Der.IntegerForm | src/crypto.rs:876-883 | an INTEGER is tag 2 and the shortest bytes of the value with a clear first bit |
| Der.DerReader.ReadTagLen | src/crypto.rs:1253-1282 | tag and length as the bytes say, each malformed form with its error, position advanced |
| Der.DerReader.ExpectTag | src/crypto.rs:1284-1292 | the value bytes of the wanted tag, or the error the bytes call for |
| Der.DerReader.ReadInteger | src/crypto.rs:1294-1302 | the integer behind the current position |
| Der.ReadTlv | src/crypto.rs:885-909 | what der_tlv writes is read back with its tag, value and end, wherever it stands |
| Der.ReadIntegerTlv | src/crypto.rs:1294-1302 | a written INTEGER is read back as its value |
| KeyCodec.ToDerPkcs1 | src/crypto.rs:527-549 | the PKCS#1 form of n, e, d and the CRT values kept or recovered; zeros only when recovery fails |
| KeyCodec.ToDerPkcs8 | src/crypto.rs:551-568 | the same wrapped in PrivateKeyInfo |
| KeyCodec.KeyForms | src/crypto.rs:527-603 | the four key forms element by element, in the order their standards give |
| KeyCodec.AlgorithmIs | src/crypto.rs:551-568 | the algorithm is rsaEncryption, by its arcs, with NULL parameters |
| KeyCodec.ParsePkcs1Key | src/crypto.rs:1342-1387 | n, e, d and k as the bytes say, each error kept; the CRT record recomputed from coprime wire primes, else as on the wire, else recovered |
| KeyCodec.ParsePrivateKey | src/crypto.rs:1320-1340 | either form, chosen by the tag behind the version, with the same CRT record |
| KeyCodec.ParseRsaPublicKey | src/crypto.rs:849-859 | n, e and k of an RSAPublicKey, or the error |
| KeyCodec.ParseSpkiRsa | src/crypto.rs:861-874 | n, e and k from inside a SubjectPublicKeyInfo, or the error |
| KeyCodec.ReadPublicKey | src/crypto.rs:743-749 | SubjectPublicKeyInfo first, the bare key otherwise |
| KeyCodec.ReadCrt | src/crypto.rs:1358-1379 | present exactly when five integers follow with nonzero primes; recomputed when coprime, as written otherwise |
| KeyCodec.Pkcs1RoundTrip | src/crypto.rs:527-549 | parsing written PKCS#1 returns the same n, e, d, k, and the CRT integers when the primes are not zero; refused exactly for a modulus below 64 bytes or a prime of 1 |
| KeyCodec.WrittenReadsBack | src/crypto.rs:1320-1387 | the DER written for a key reads back as that key, whichever CRT values were kept, recovered or left zero |
| KeyCodec.Pkcs8RoundTrip | src/crypto.rs:551-568 | parsing written PKCS#8 gives what parsing the PKCS#1 inside gives |
| KeyCodec.PublicRoundTrip | src/crypto.rs:849-859 | a written public key parses back to (n, e), refused exactly for a modulus below 64 bytes |
| KeyCodec.SpkiRoundTrip | src/crypto.rs:585-603 | a written SubjectPublicKeyInfo parses back to (n, e) |
| KeyCodec.SpkiWritersAgree | src/dkim.rs:548-575 | both SubjectPublicKeyInfo writers emit the same bytes exactly when the content is below 2^24 bytes |
| Base64.Encode | src/util.rs:182-200 | three bytes to four characters, padded |
| Base64.Decode | src/util.rs:158-180 | six bits at a time, skipping what is not in the table, stopping at '=' |
| Base64.RoundTrip | src/util.rs:158-200 | decoding undoes encoding for every byte string |
| Base64.CharIsTable | src/util.rs:182-200 | the characters are those of the standard table |
| Base64.OnlyTheTableCounts | src/util.rs:158-180 | a character outside the table changes nothing, wherever it stands; what follows an equals sign is dropped |
| Pem.ToPem | src/crypto.rs:513-525 | the armoured text of the PKCS#1 bytes, 64 characters a line |
| Pem.DerFromPem | src/crypto.rs:1217-1242 | the bytes between the marker lines, or the error |
| Pem.ArmourRoundTrip | src/crypto.rs:1217-1242 | armoured bytes come back out of the armour |
| Pem.AnyLabel | src/crypto.rs:1217-1242 | armour with any label is read, and nothing behind its end line |
| Pem.ArmourForm | src/crypto.rs:513-525 | the marker lines around the base64 text |
| Pem.ChunkForm | src/crypto.rs:513-525 | lines of 64 characters, but for a shorter last one |
| Pem.KeyPemRoundTrip | src/crypto.rs:461-480 | parsing the PEM text of a key returns the same n, e, d, k |
| QueueFile.LoadMessage | src/queue.rs:227-291 | the message a file's text denotes, keys in any order, or the missing separator |
| QueueFile.FileLayout | src/queue.rs:72-80 | the file is six named lines, a line of three hyphens and the message |
| QueueFile.FileReads | src/queue.rs:227-318 | what any written message loads as: texts trimmed, recipients cut at every comma, numbers and body unchanged |
| QueueFile.FileRoundTrip | src/queue.rs:293-318 | a queue file written from clean fields loads as the same message |
| QueueFile.LoadedIsClean | src/queue.rs:227-291 | every loaded message can be written and loaded again unchanged |
| QueueFile.RecipientsSurviveIffClean | src/queue.rs:293-318 | the recipients come back if and only if no address is empty, holds a comma or line end, or has white space at an edge |
| QueueFile.CommaSplitsAnAddress | src/queue.rs:260-266 | a quoted address with a comma comes back as two |
| Retry.ScheduleKept | src/queue.rs:163-215 | a retained message stays between the sum of its delays and one day, with no assumption on the clock |
| Retry.Waits | src/queue.rs:218-225 | waits of 1, 5, 15 minutes, 1 hour, then 4 hours; they never get shorter |
| Retry.AtMostNineRetries | src/queue.rs:163-225 | a message on schedule has at most nine retries |
| Retry.AtMostTenAttempts | src/queue.rs:163-225 | over any scans at any clock readings a message is attempted at most ten times |
| Retry.TenAttemptsReached | src/queue.rs:218-225 | ten attempts do happen when every scan is on time |
| MailFlow.VisitAttempt | src/queue.rs:163-225 | a visit that attempts a file uses up one of its ten attempts, through the file text; nothing gives any back |
| MailFlow.SweepAttempts | src/queue.rs:149-216 | the attempts of a scan and those left after it are at most those left before, transaction by transaction |
| Delivery.GroupByDomain | src/queue.rs:352-365 | one group per domain with its recipients in order, those without a domain apart, nobody else |
| Delivery.DeliverGroups | src/queue.rs:367-379 | what is sent, kept and failed are the recipients whose domains accept, defer and refuse |
| Delivery.DeliverDirect | src/queue.rs:330-405 | result, recipients sent and recipients bounced, by the answer of each recipient's domain |
| Delivery.DeliverViaSmarthost | src/queue.rs:407-438 | the same when one relay answers for all |
| Delivery.FatesPartition | src/queue.rs:330-405 | accepted, deferred and refused recipients make up all recipients, with multiplicity |
| Delivery.AttemptConserves | src/queue.rs:330-405 | sent, bounced and kept recipients of an attempt make up its recipients |
| MailFlow.VisitFile | src/queue.rs:163-215 | unreadable files and early messages are left, old ones bounced, the others attempted |
| MailFlow.AttemptFile | src/queue.rs:176-208 | after an attempt the file is removed, or rewritten with the deferred recipients and the next delay, or bounced for age |
| MailFlow.AttemptMeans | src/queue.rs:176-208 | of each recipient: accepted is sent, refused or without a domain is bounced, deferred stays, or is bounced when the next attempt would come a day after the message; a kept message changes only recipients, count and next attempt |
| MailFlow.NoAttemptMeans | src/queue.rs:163-175 | early or unreadable files are left alone, files a day old are bounced whole |
| MailFlow.VisitConserves | src/queue.rs:149-216 | a visit loses no recipient and duplicates none, and leaves a readable file |
| MailFlow.Sweep | src/queue.rs:149-216 | one scan of all files, visit by visit, with the books it produces |
| MailFlow.SweepConserves | src/queue.rs:149-216 | recipients before a scan are those still queued, sent or bounced after it |
| MailFlow.StoreLocal | src/smtp.rs:869-915 | the loop over recipients puts one copy of the text in each local mailbox, or its junk folder, in order, and collects the remote recipients, up to the first failure |
| MailFlow.EnqueuedFile | src/queue.rs:48-89 | a new file loads as the text given, the trimmed sender, no retries, due and created now, and the recipients a comma-joined list gives back: all of them if and only if their addresses are clean |
| MailFlow.QueuedFileLoads | src/smtp.rs:882-884 | a transaction adds one file that loads with its text, sender, time and remote recipients, or none without remote recipients |
| MailFlow.VisitCarries | src/queue.rs:176-208 | what a visit leaves of a file still has the text, sender and time of its transaction |
| MailFlow.SweepTraced | src/queue.rs:149-216 | after any scan every queue file carries a transaction that was accepted |
| MailFlow.LocalAndRemote | src/smtp.rs:869-881 | local and remote recipients make up all recipients |
| MailFlow.MailSystem.StoreAndQueue | src/smtp.rs:843-925 | the copies put in mailboxes, the sender's own among them, the file queued, the count, and what a failure leaves behind |
| MailFlow.DeliveryBooks | src/smtp.rs:843-925 | stored copies and the queued file account for the recipients if and only if every recipient resolves, or it is a submission and its remote addresses are clean |
| MailFlow.MailSystem.DeliverMail | src/smtp.rs:843-925 | mailbox copies with the text of DATA, one queued file that loads with that text, sender, time and remote recipients, ledger and returned count; what stays unchanged on failure; exact books, bounded attempts and traceable files either way |
| MailFlow.MailSystem.ProcessQueue | src/queue.rs:149-216 | a scan follows its specification and moves recipients, by transaction and address, without losing or doubling any |
| MailFlow.ExactTransaction | src/smtp.rs:843-925 | once a remote address no file can hold was accepted, that address stays short for good; otherwise owed and accounted for are equal |
| MailFlow.OneTransaction | src/smtp.rs:843-925 | with balanced books each recipient of a transaction with an id of its own is in exactly one place |
| MailFlow.AttemptsAtMostTen | src/queue.rs:163-225 | over all scans, at most ten attempts for every transaction that carries an id |
| Session.RoundSound | src/smtp.rs:165-545 | every command keeps the session invariant; a transaction carries resolved recipients, a submission a user |
| Session.PlaySound | src/smtp.rs:165-545 | the invariant holds after any sequence of commands |
| Session.RecipientsAreAccepted | src/smtp.rs:303-418 | by commands and codes: sender is the address of the last MAIL answered 250, recipients are exactly the RCPTs answered 250 since |
| Session.LogTells | src/smtp.rs:165-545 | in any session the commands and codes sent tell the state: transaction, greeting, login and TLS |
| Session.TransactionSince | src/smtp.rs:419-541 | a transaction passed on has the last accepted MAIL as sender and the RCPTs accepted since as recipients, and no RSET, STARTTLS or carried-out DATA came between; exactly a complete DATA with such recipients passes one on |
| Session.NothingBeforeANewMail | src/smtp.rs:542-548 | after a RSET, a STARTTLS or a carried-out DATA no RCPT or DATA is accepted before a new MAIL is |
| Session.NextRcptOrData | src/smtp.rs:316-541 | the code of a RCPT or a refused DATA, by the exchanges before it |
| Session.NextAnswer | src/smtp.rs:175-315 | the code of every other command, by the exchanges before it |
| Session.NextAuth | src/smtp.rs:223-302 | the code of an AUTH: never twice, and where asked for only under TLS |
| Session.Client.HandleCommand | src/smtp.rs:165-545 | the command loop's branches: reply code, next state and transaction |
| Session.Client.HandleAuth | src/smtp.rs:223-302 | outcomes of AUTH on user and attempt state |
| Session.Client.HandleRcpt | src/smtp.rs:316-418 | outcomes of RCPT: refused, throttled, greylisted or appended |
| Session.Serve | src/smtp.rs:419-541 | one command with the delivery it may cause: the code sent, the ledger grown by the transaction answered 250, its copies in the mailboxes, exact books |
| Session.Run | src/smtp.rs:165-545 | any clients (implicit TLS or not), commands and scans in any order: every client is sent the codes its commands call for, the ledger is the transactions those commands and codes make, the books balance if and only if all of them conserve their recipients, each is attempted at most ten times, and every queue file carries the text and sender of one of them |
| Session.InboundConserves | src/smtp.rs:316-330 | inbound transactions always conserve, so only the remote addresses of submissions decide |
| DataLoop.ReadLine | src/util.rs:100-139 | the line depends only on the bytes ahead, not on how the stream is cut; errors for length and encoding |
| DataLoop.ReadData | src/smtp.rs:427-455 | what the DATA loop collects and where it stops, by the bytes ahead: every line before the end, and the end of the stream when there is no terminator |
| DataLoop.EndIsFirstTerminator | src/smtp.rs:433-441 | the loop ends at the first line that is ".", by the bytes alone, and at the end of the stream exactly when there is none |
| DataLoop.EndOfData | src/smtp.rs:427-455 | without a line error it returns the unstuffed lines before the end and goes on behind the terminator, or has read everything |
| DataLoop.CutOff | src/smtp.rs:433-438 | a stuffed text without its terminator is accepted as the whole message |
| DataLoop.DotStuff | src/queue.rs:783-802 | doubles a dot at each line start and completes the last line |
| DataLoop.StuffedLine | src/queue.rs:783-802 | stuffing works line by line |
| DataLoop.DotTransparency | src/queue.rs:768-802 | the receiver gets the text with CRLF line ends, or oversized by its size alone, and stops exactly behind the terminator |
| DataLoop.WireForm | src/smtp.rs:427-455 | byte for byte: lines sent with a second dot before a leading one, then dot CR LF, arrive as the lines, or as oversized, and reading stops right behind |
| DataLoop.LineLimit | src/util.rs:100-139 | a line is refused for length exactly when its first 1048576 bytes hold no LF and more follow |
| DataLoop.CrlfUnchanged | src/smtp.rs:441-455 | text whose line ends are CRLF already arrives unchanged |
| DataLoop.Transfer | src/smtp.rs:427-455 | the same over any cutting of the stream into chunks |
| Utf8.Utf8Cut | src/util.rs:100-139 | valid UTF-8 may be cut before an ASCII character |
| Utf8.ValidIsEncoded | src/util.rs:100-139 | what is accepted is the encoding of a sequence of Unicode scalar values |
| Utf8.EncodedIsValid | src/util.rs:100-139 | every such encoding is accepted |
| DkimText.ParseHeaderFields | src/dkim.rs:613-642 | header fields with their continuations, from the lines of the header |
| DkimText.SplitMessage | src/dkim.rs:581-606 | header fields and body at the first empty line |
| DkimText.CanonicalizeHeaderRelaxed | src/dkim.rs:661-711 | lower-case name, unfolded value with white space collapsed and trimmed |
| DkimText.CanonicalizeHeaderSimple | src/dkim.rs:478-507 | the unfolded field with its line end |
| DkimText.CanonicalizeBodyRelaxed | src/dkim.rs:714-766 | lines stripped and collapsed, trailing empty lines dropped, CRLF ends |
| DkimText.CanonicalizeBodySimple | src/dkim.rs:510-544 | trailing empty lines dropped, CRLF ends |
| DkimText.RelaxedBodyIdempotent | src/dkim.rs:714-766 | a canonical body is its own canonical form |
| DkimForms.RelaxedForm | src/dkim.rs:714-766 | a body given by its lines and words: each line's words one space apart with CRLF behind, up to the last line with a word |
| DkimForms.SimpleForm | src/dkim.rs:510-544 | each line with CRLF behind, up to the last that is not empty |
| DkimForms.RelaxedFieldForm | src/dkim.rs:661-711 | lower-case name, colon, the words of the unfolded value one space apart, CRLF |
| DkimForms.SimpleFieldForm | src/dkim.rs:478-507 | the lines of the field run together, CRLF behind |
| DkimForms.MessageForm | src/dkim.rs:581-642 | a message of fields with continuation lines, an empty line and a body is taken apart into just these |
| Dkim.Sign | src/dkim.rs:44-89 | the emitted field: hashed field plus the signature of the hashed text; None exactly without signable headers or with too small a key |
| Dkim.PresentAmong | src/dkim.rs:9-58 | the names listed are those of From, To, Subject, Date and Message-ID that have a field |
| Dkim.SignAndPrepend | src/dkim.rs:92-106 | the field, CRLF and the message unchanged |
| Dkim.ParseDkimTags | src/dkim.rs:375-411 | the tag map of a field, later tags winning |
| Dkim.LastTagWins | src/dkim.rs:396-409 | a key is there exactly when some part bears it, with the value of the last such part |
| Dkim.SpaceComesOut | src/dkim.rs:229 | white space is dropped from bh= and b=, wherever it stands, and nothing else |
| Dkim.EmptyBTag | src/dkim.rs:415-449 | the field with the value of b= removed and its tags rejoined |
| Dkim.SelectFields | src/dkim.rs:259-286 | for each name of h= the last field not yet used, in canonical form |
| Dkim.ListedTwice | src/dkim.rs:259-286 | a name listed twice selects the last field of that name, then the last but one |
| Dkim.VerifyOne | src/dkim.rs:160-361 | pass exactly when the tags are complete, bh= is the base64 of the digest of the body c= and l= call for, h= names fields, and the published key accepts b= on the header text; fail exactly when one of the last two is wrong |
| Dkim.VerdictMeans | src/dkim.rs:160-361 | the same for the status as a value |
| Dkim.CheckKey | src/dkim.rs:299-360 | the status from the key record, the key in it and the signature |
| Dkim.Verify | src/dkim.rs:127-158 | one status for each signature field, in order; a single status of no signature when there is none |
| DkimAgreement.PrependedSplit | src/dkim.rs:581-611 | a one-line field in front moves neither header end nor body |
| DkimAgreement.PrependedFields | src/dkim.rs:613-642 | the prepended field is the first field, the others are the message's |
| DkimAgreement.TagsOfField | src/dkim.rs:375-411 | the verifier reads from an emitted field exactly the values the signer put in |
| DkimAgreement.EmptiedIsUnsigned | src/dkim.rs:415-449 | emptying b= gives back, byte for byte, the field the signer hashed |
| DkimAgreement.NamesRead | src/dkim.rs:241-251 | the names in h= come back as the listed names |
| DkimAgreement.SelectedLast | src/dkim.rs:253-286 | the used marks never matter: each name selects the last field bearing it |
| DkimAgreement.FieldTextsEqual | src/dkim.rs:52-58 | first-instance text and last-instance text are equal if and only if every listed name's two canonical forms are |
| DkimAgreement.HashesAgree | src/dkim.rs:160-361 | equal body always; equal header text if and only if first and last field of every listed name agree |
| DkimAgreement.UniqueHeadersAgree | src/dkim.rs:44-106 | with each signed header at most once both sides hash the same bytes |
| DkimAgreement.SecondInstanceDiffers | src/dkim.rs:253-286 | one more field of a signed name in front, with another canonical form, makes signer and verifier hash different header texts |
| DkimAgreement.TwoFromFields | src/dkim.rs:644-654 | for a message with the fields From:a and From:b they hash different header texts |
| DkimPass.PublishedKey | src/dkim.rs:112-116 | the published record yields n, e and k again |
| DkimPass.NoEarlyStatus | src/dkim.rs:160-251 | every check before the key passes for an emitted field |
| DkimPass.KeyVerdict | src/dkim.rs:299-360 | the key check on a signature made over one text and seen with another passes exactly when the digests agree |
| DkimPass.SignedMessageVerdict | src/dkim.rs:160-361 | any signed message, its key published under its selector, verifies as pass exactly when both header texts have one digest, as fail otherwise |
| DkimPass.SignedMessagePasses | src/dkim.rs:160-361 | a signed message whose first and last instances agree verifies as pass |
| DkimPass.ReplacedBodyFails | src/dkim.rs:216-239 | a signed message whose body is replaced by one of another canonical digest verifies as fail, whatever its header fields and the published key |
| DkimPass.PassFixesTheBody | src/dkim.rs:216-239 | one signature field never passes over two bodies whose canonical forms have different digests |
| DkimPass.TxtRecordForm | src/dkim.rs:112-116 | the record to publish, as text |
| IpNetwork.Ipv4NetworkExact | src/spf.rs:349-359 | the mask comparison holds exactly when the first min(prefix, 32) bits are equal |
| IpNetwork.Ipv6NetworkExact | src/spf.rs:361-382 | the byte comparison holds exactly when the first min(prefix, 128) bits are equal |
| SpfRecord.FindSpfRecord | src/spf.rs:157-167 | the first SPF text, trimmed; Some exactly when there is one |
| SpfRecord.AnyCovers | src/spf.rs:436-452 | true exactly when some address of the same family covers the client |
| Spf.MatchHosts | src/spf.rs:476-498 | the walk over mail exchangers never exceeds the lookup limit |
| Spf.EvaluateDomain | src/spf.rs:127-154 | evaluation ends on every record graph; the counter grows and never passes the limit |
| Spf.EvaluateTerms | src/spf.rs:169-225 | the same for the terms of a record and a redirect |
| Spf.MatchMechanism | src/spf.rs:246-290 | the same for one mechanism, includes among them |
| Spf.DepthGuardIdle | src/spf.rs:134-139 | while depth is at most the lookups made, any depth limit from the lookup limit up gives the same outcome |
| Spf.DepthLimitNeverFires | src/spf.rs:124-136 | with the source's limits no depth limit of ten or more changes any result |
| Spf.RaisedDomain | src/spf.rs:127-225 | an outcome other than PermError is the outcome under every larger limit, counter included |
| Spf.OnlyPermErrorDependsOnTheLimit | src/spf.rs:124-154 | raising the limit of ten lookups changes no answer other than PermError |
| Spf.IncludeCycleEndsAtTheLimit | src/spf.rs:272-283 | domains whose records begin by including each other, a cycle of any length, spend the budget and end in PermError |
| Spf.SelfIncludeEndsAtTheLimit | src/spf.rs:272-283 | so does a record that begins by including its own domain |
| Spf.Checker.MatchA | src/spf.rs:420-453 | an a mechanism: one counted call, errors as the resolver gives them |
| Spf.Checker.MatchMx | src/spf.rs:455-500 | an mx mechanism: each resolver call counted, temporary errors kept, permanent ones skipped |
| Spf.Checker.Match | src/spf.rs:246-290 | the mechanism's match and the calls it made |
| Spf.Checker.EvaluateRecord | src/spf.rs:169-225 | the loop over terms computes the specified outcome, every call counted |
| Spf.Checker.Evaluate | src/spf.rs:127-154 | one domain: the specified outcome, every call counted |
| Spf.CheckSpf | src/spf.rs:99-122 | the answer for a client, after at most ten resolver calls |
| Text.DotsComeOff | src/spf.rs:112-114 | all dots behind a domain come off, and nothing else |
| Text.NumbersRead | src/spf.rs:336-343 | a number is read as written, with or without a plus sign, up to its limit; other texts are no numbers |
| SpfMeaning.FirstDirectiveDecides | src/spf.rs:169-225 | for a record given as terms with their text written out: the first directive that matches the client or ends the check decides, + or none pass, - fail, ~ soft fail, ? neutral |
| SpfMeaning.NoDirectiveDecides | src/spf.rs:217-225 | when none does, the answer is that of the last redirect's domain, else neutral |
| SpfMeaning.SomethingDecides | src/spf.rs:169-225 | one of the two is always the case |
| SpfMeaning.MechanismEffect | src/spf.rs:246-500 | what each mechanism's text does: all matches; ip4 and ip6 by leading bits; a and mx by the resolver's addresses, exchanger by exchanger; include exactly when the included domain passes; errors end the check |
| SpfMeaning.MechanismRead | src/spf.rs:246-418 | names in any case, addresses, hosts and both prefix lengths are read as written |
| SpfMeaning.NetworksAnswer | src/spf.rs:169-347 | a record of networks answers by the first that holds the client, and neutral when none does |
| Dns.NameEnd | src/dns.rs:464-524 | where a readable name stops is behind its start and inside the message |
| Dns.ParseName | src/dns.rs:464-524 | ends on every message and start; name and end by the labels and pointers in place |
| Dns.EncodeName | src/dns.rs:407-422 | succeeds exactly when every label has 1 to 63 bytes, and appends length-prefixed labels and a zero |
| Dns.NameIsLabels | src/dns.rs:407-422 | a name is its labels with dots between, with or without one behind; the root is one dot |
| Dns.LabelsRead | src/dns.rs:464-524 | encoded labels are read one by one, wherever they stand and whatever follows |
| Dns.NameStops | src/dns.rs:464-524 | behind labels in place: 0 ends the name, 64 to 191 is refused, what is cut off runs out of the message |
| Dns.NameRoundTrip | src/dns.rs:407-524 | parse_name inverts encode_name at any offset, up to trailing dots |
| Dns.PointerReplacesSuffix | src/dns.rs:482-503 | a suffix written as a pointer reads the same within the hop limit |
| Dns.CompressedName | src/dns.rs:482-503 | labels in place and a pointer to the rest are the whole name |
| Dns.PointerCycleRefused | src/dns.rs:496-503 | pointers that only lead to pointers are refused |
| Dns.TwentyPointers | src/dns.rs:482-503 | twenty pointers one after another are followed, a twenty-first is refused |
| Dns.AnswerAt | src/dns.rs:348-386 | a record's end lies behind its start by more than ten bytes and inside the message |
| Dns.WalkAnswers | src/dns.rs:340-388 | the questions skipped and the answers returned, with the errors and the early stop |
| Dns.WalkAdvances | src/dns.rs:347-386 | no more records than the message has room for, whatever the header claims |
| Dns.SectionRead | src/dns.rs:347-386 | a whole answer section on the wire comes back record by record, with owners and names in the data written out or compressed |
| Dns.ResponseRead | src/dns.rs:325-388 | a response with counted questions and answers behind its header is read as just these answers |
| Dns.SectionStops | src/dns.rs:348-386 | records before one that is cut off are the answer; with a bad name the whole response is refused |
| TarHeader.SplitUstarPath | src/tarball.rs:216-257 | the loop finds the last legal split |
| TarHeader.SplitExact | src/tarball.rs:216-257 | succeeds exactly when the trimmed path fits whole or a legal split exists, and the parts rejoin to it |
| TarHeader.PutOctal | src/tarball.rs:304-314 | the field's digits and NUL, the rest of the array unchanged |
| TarHeader.PutStr | src/tarball.rs:298-302 | the field's text cut to its length, the rest of the array unchanged |
| TarHeader.OctalReadBack | src/tarball.rs:304-314 | octal digits denote the number written |
| TarHeader.OctalFits | src/tarball.rs:304-314 | a number keeps its width exactly when it is below that power of eight |
| TarHeader.ChecksumFits | src/tarball.rs:289-292 | a header's checksum always fits six octal digits |
| TarHeader.WriteHeader | src/tarball.rs:259-296 | the block filled in place is the ustar header, checksum included; fails exactly when the path cannot be split |
| Tar.HeaderLayout | src/tarball.rs:259-296 | every field at its offset, the checksum with its own bytes as spaces |
| Tar.ItemForm | src/tarball.rs:183-192 | files are type 0 with mode 644 and padded to blocks of 512, directories type 5 with mode 755 |
| Tar.SumHeader | src/tarball.rs:339-346 | the reader's sum counts the checksum field as spaces |
| Tar.ReadEntry | src/tarball.rs:336-396 | one entry, or the first error in the code's order |
| Tar.ParseTar | src/tarball.rs:329-404 | all entries up to the first zero block |
| Tar.HeaderReadBack | src/tarball.rs:336-363 | a written header passes the checksum and gives back path, type and size |
| Tar.TypesRead | src/tarball.rs:364-396 | by type: files, directories, and other members passed over with their bytes |
| Tar.DamagedHeaderRefused | src/tarball.rs:336-352 | a written header with any one byte outside its checksum field changed is refused |
| Tar.CutFileRefused | src/tarball.rs:372-384 | a file cut off inside its bytes is refused |
| Tar.ArchiveEnds | src/tarball.rs:329-338 | a zero block or a short rest ends the archive |
| Tar.ArchiveRoundTrip | src/tarball.rs:329-404 | an archive of storable items reads back as the same paths, kinds and bytes in order |
| TarBuild.DirectoriesOnce | src/tarball.rs:105-181 | whatever tree is archived, no directory appears twice |
| TarBuild.TarBuilder.AddDirRecursive | src/tarball.rs:105-157 | the recursive walk over a tree, exclusions and skips included |
| TarBuild.TarBuilder.EnsureParentDirs | src/tarball.rs:159-181 | missing parents are written in order, each marked even when its header does not fit |
| TarBuild.TarBuilder.AddFile | src/tarball.rs:183-192 | header, bytes and padding are appended, or nothing |
| TarBuild.BuildTar | src/tarball.rs:17-46 | the bytes are the archive of the walk's items and two zero blocks |
| TarBuild.BuildAndParse | src/tarball.rs:17-46 | building and parsing an in-memory tree lists the walk's items in order |
| TarBuild.FilesArchived | src/tarball.rs:17-181 | a file is in the archive, with its bytes, exactly when an entry leads to it through entered directories and names neither excluded nor dots, and its path fits |
| TarBuild.FilesListed | src/tarball.rs:17-46 | the listing holds exactly these files |
| TarBuild.DirectoriesArchived | src/tarball.rs:105-181 | a directory has a header exactly when its path fits and it is a parent of an entry or is walked because of one |
| TarBuild.ExcludedMeans | src/tarball.rs:98-103 | a path is excluded exactly when a component of it is tmp |
| TarBuild.DataRootIs | src/tarball.rs:140-143 | exclusion looks at what follows the data directory of the archive |
| TarBuild.NormalizeMeans | src/tarball.rs:194-213 | slashes of either kind separate components, which stay in order |
| TarBuild.NormalizeDrops | src/tarball.rs:194-213 | empty components and dots drop out, wherever they stand |
| Limits.StepKeeps | src/limits.rs:44-78 | every atomic step keeps: counter = live guards plus acquirer in flight, map = live plus half-released guards |
| Limits.LimitsHold | src/limits.rs:44-78 | in every interleaving both limits hold and the map is exact |
| Limits.OverCountUnseen | src/limits.rs:53-57 | the over-count exists only under the lock, and an acquirer reads the number of live guards |
| Limits.ReleaseFindsItsEntry | src/limits.rs:67-78 | a drop never takes the counter below zero and its release finds the map entry |
| Limits.NothingLeaks | src/limits.rs:67-105 | all guards dropped and released leaves the initial state |
| Limits.CanWindDown | src/limits.rs:44-105 | from every reachable state the threads can run on to the initial state |
| Limits.ConnLimiter.constructor | src/limits.rs:28-35 | limits of at least one, nothing counted |
| Limits.ConnLimiter.TryAcquire | src/limits.rs:44-65 | an undisturbed call grants a guard exactly when both limits leave room, and is a run of the steps |
| Limits.ConnLimiter.Release | src/limits.rs:67-78 | an undisturbed drop takes one guard off, and is a run of the steps |
| RateLimit.LockoutHasCause | src/ratelimit.rs:102-120 | nobody is locked out without as many failures as the limit in one window and no success since |
| RateLimit.BurstLocks | src/ratelimit.rs:102-120 | as many failures as the limit within one window always start a lockout |
| RateLimit.RefusedExactlyWhileLocked | src/ratelimit.rs:81-120 | with a clock that does not go back an address is refused exactly while a lockout of its own lasts: as many failures as the limit in one window since its last success or lockout, and less than the lockout time ago |
| RateLimit.OthersDoNotMatter | src/ratelimit.rs:81-134 | two histories with the same events of an address give it the same answers |
| RateLimit.LaterFailureExtendsNothing | src/ratelimit.rs:112-119 | a failure during a lockout does not lengthen it |
| RateLimit.RecentMeans | src/ratelimit.rs:113-114 | a window keeps exactly the times from its start on, each as often as it was there |
| RateLimit.PruneAgrees | src/ratelimit.rs:136-147 | pruning an entry changes nothing a later call can see |
| RateLimit.FailureAgrees | src/ratelimit.rs:102-120 | a failure locks out the stored entry exactly when it locks out the whole history |
| RateLimit.AuthTracker.PruneAuth | src/ratelimit.rs:136-147 | the entries kept and their trimmed failures |
| RateLimit.AuthTracker.CheckAllowed | src/ratelimit.rs:81-91 | allows exactly an address that is not locked out by its own history |
| RateLimit.AuthTracker.RecordFailure | src/ratelimit.rs:102-120 | adds the failure to the history the answers follow |
| RateLimit.AuthTracker.RecordSuccess | src/ratelimit.rs:126-134 | adds the success to the history the answers follow |
| RateLimit.CapKept | src/ratelimit.rs:193-211 | a sending that fits the window ending at its time leaves every window of an hour within the cap |
| RateLimit.OutboundTracker.CheckOutbound | src/ratelimit.rs:193-211 | true exactly when everything sent in the window, dropped events included, leaves room |
| RateLimit.OutboundTracker.CheckAndRecord | src/ratelimit.rs:193-231 | no user exceeds the cap in any window, over any run with a nondecreasing clock |
| Calendar.MutualInverses | src/util.rs:299-327 | the two conversions undo each other on valid dates and day numbers whose year fits 32 bits |
| Calendar.DaysIncrease | src/util.rs:314-327 | days_from_civil is strictly increasing in date order |
| Calendar.CountsDays | src/util.rs:314-327 | it counts the days of the Gregorian calendar one by one from 1 January 1970 |
| Calendar.DaysToDateAndBack | src/util.rs:299-312 | a day number turns into the one valid date that has it |
| Calendar.CivilToUnixAgrees | src/doctor.rs:1609-1622 | at midnight 86400 times days_from_civil on every date it accepts, for every year whose 32-bit steps fit |

## Left out

- TLS, sockets, threads, timeouts, STARTTLS, the outbound SMTP dialogue, ACME, port mapping, DNS transport: deliveries
  are an arbitrary answer per domain, the resolver is a fixed function.
- SHA-256, PBKDF2, random generation and `ring`: a digest is a parameter, and keys that go to `ring` are modelled by the
  hand-written signer and verifier, which compute the same PKCS#1 v1.5 function.
- Configuration, metrics, logging, the command line, the doctor probes, site and installer scripts.
- IMAP search and EXPUNGE replies, user editing and invite files, extraction of backups to disk.
- DMARC, spam score, greylisting and quota: the session sees their verdicts as booleans. A mailbox is a list of texts
  with their folder and sender; file names, flags and sizes of a Maildir are not modelled.
- The parsing of SMTP command lines and of angle-bracketed addresses: commands arrive as values whose addresses hold no
  line end, since they come from one line.
- Clock readings within a day of 2^64 seconds, where `now + delay` would overflow.
- Configuration changed while connections are open: `Limits` and `RateLimit` have fixed limits.
- Non-ASCII header bytes in DKIM, which the source re-reads as Latin-1, and lower-casing beyond ASCII in SPF domains,
  which is a parameter.
- UTF-8 text of queue files: it is modelled as characters.
- Address literals in SPF are parsed by parameters standing for the standard library's parsers.
- `from_utf8_lossy` in DNS names and tar fields is a parameter; the round trips ask it to leave valid text alone.
- TarBuild.BuildTar: one clock reading for all headers of an archive, files and directories that do not change
  meanwhile, and no symbolic links.
- Spf.CheckSpf: the error of an unparsable client address is kept, the parsing of the address is not modelled.
- DkimPass.SignedMessageVerdict: that different header texts have different digests would be collision resistance of
  SHA-256, which stays uninterpreted.
- MailFlow.OneTransaction: takes the id of a transaction to be its own; the source makes ids from the clock, a counter
  and the process id, and refuses a file name that is taken.
- PrimeSearch.ExactBelow10201: which composite numbers from 10201 on pass (strong pseudoprimes to all seven bases) is
  not characterised; that there are none below 2^64, as a comment at src/crypto.rs:1168 has it, is not claimed.
- PrimeSearch.RandomPrime: the random bytes of each try are a parameter, and the 10000 tries are its length.
