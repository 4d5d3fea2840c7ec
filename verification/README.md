# Verified models of a block chain and of four OpenSSL tools

This project models the stateful parts of a small C block chain and of the OpenSSL 3.4.0
command line tools that come with it, and proves what they keep and what they compute.

* **Password hashes** (`passwd`): `md5crypt` and `shacrypt`, from the salt argument to the
  printed line. Digests are arbitrary functions from byte strings to byte strings of a fixed
  size; a digest context is the sequence of bytes that it has been fed. Modules `Bytes`,
  `Decimals`, `Digest`, `RoundSchedule`, `KeyMixing`, `CryptEncoding`, `CryptOutput`,
  `CryptSetting`, `ShaCrypt`, `Md5Crypt`, `DoPasswd`, `CryptMessages`, `CryptLines`. The
  functional specification follows Ulrich Drepper's "Unix crypt using SHA-256 and SHA-512".
* **The block chain**: the linked list, the hash links, the validator, the tree builder and the
  text form of a block, over an arbitrary hash function. Tamper evidence is stated by
  extracting a concrete collision, so nothing is assumed about the hash. Modules `Merkle`,
  `ChainSpec`, `Blockchain`, `BlockText`.
* **The certificate authority** (`ca`) and its second reader, the OCSP responder (`ocsp`): the
  text file, the load check, the indices, expiry, revocation, the policy, issuing, the
  revocation list and the answers. Modules `Asn1Time`, `TimeTexts`, `RevInfo`, `RevFields`,
  `SerialHex`, `TxtDb`, `Database`, `LoadCheck`, `Revocation`, `CaDatabase`, `Names`,
  `NameCheck`, `Policy`, `PolicyMeaning`, `Issue`, `Issuance`, `CleanRows`, `CrlOcsp`,
  `CrlEntries`, `OcspAnswers`, `Invocation`, `Runs`, `FileAfter`, `Serials`.
* **Signers and their keys** (`cms`): the option loop that pairs signers, keys and key options.
  Modules `SignerSpec`, `SignerStray`, `SignerGroups`, `SignerOptions`.

Code that works step by step is modelled by methods and classes on arrays, fields and linked
objects; each is tied to a function that says what it computes, and the properties are proved
about that function. What these functions compute is then stated a second time without them,
in terms of bytes, rows, entries and options: in `CryptMessages`, `CryptLines`, `TimeTexts`,
`RevFields`, `LoadCheck`, `Revocation`, `PolicyMeaning`, `Issuance`, `CrlEntries`,
`OcspAnswers`, `FileAfter` and `SignerGroups`. `dafny verify dfyconfig.toml` checks everything.

## How the outside world enters

* Hash functions, the table of object identifiers (`OBJ_txt2obj`, `OBJ_txt2nid`), the one-line
  text of a name, the comparison of a date with the present, and the present itself are
  parameters. Where a theorem needs a fact about them, it is a precondition: digests have a
  fixed size, identifiers and names stay on one line, and validity times that were set are
  well-formed.
* Allocation and digest calls succeed, except where the code handles a failure that matters:
  the allocations of `create_blockchain` and `create_block` can each fail, and
  `OPENSSL_zalloc(0)` may return NULL or not, so empty passwords and salts are covered.
* The answers of the operator, the result of verifying a request, and whether a certificate
  can be built and signed are fields of a request; which savings of files succeed is part of a
  command.
* Integers are unbounded where the code cannot overflow; `strtoul` saturates at 64 bits, and
  the block counter and password length stay below 2^31.
* Bit operations on unsigned values are written with division and remainder.

## What the proofs found

* `create_tree` (`merkletree.c:53-71`) never stores its new level back, so its root is the first
  leaf, although `README.md:8` says that the tree covers the transaction data. Block hashes
  therefore depend on the first transaction only.
* The root of the tail block is not protected by anything that `validate_blockchain` reads.
* `block_to_string` reserves too little room: the root hash is always cut.
* A revocation in 2050 or later is written with a four-digit year, which the reader of the
  field refuses: from then on `ca` does not accept its own database
  (`openssl-3.4.0/apps/ca.c:2399` and `openssl-3.4.0/apps/ca.c:2566`).
* The responder gives no answer at all for expired rows.
* A serial in small letters passes the load check and is put on the revocation list, but the
  responder does not find it. The program never revokes such a row itself.
* If the program stops between putting the serial file and the database in place, serials are
  lost. If it stops after writing a certificate and before the serial file is in place, the next
  certificate that is written has the same serial.
* `-valid`, and the revocation of an unknown certificate, enter any number into the database
  without a look at the serial file. If it is the next serial, the program never issues a
  certificate again.
* Of a comment line that is longer than the line buffer, the rest is read as a row.
* With a response digest set, the names in the responder's answers have lost the serial: the
  name is made from the CA certificate alone (`openssl-3.4.0/apps/ocsp.c:1085`).
* `-keyopt` under `-encrypt` is counted by recipients. If the operation is changed afterwards,
  the first such option that is counted differently from the signers breaks the pairing for
  good.
* A row with an empty status can be loaded; revoking it overwrites its expiry date, because the
  status is written over the bytes behind it, and the database is not accepted any more.
* Nor is it after `-valid` or the revocation of an unknown certificate whose expiry date is not
  a time: loading a certificate checks only the length of its dates
  (`openssl-3.4.0/crypto/asn1/tasn_dec.c:924-931`).
* The whole output of `shacrypt` can be used as a salt again only if the salt has 16
  characters.

## Model

| member | source | states |
|---|---|---|
| `RoundSchedule.LayoutPeriod` | openssl-3.4.0/apps/passwd.c:676-697 | the make-up of the message of round n depends on n only through n mod 42 |
| `RoundSchedule.PeriodIsLeast` | openssl-3.4.0/apps/passwd.c:676-697 | every period of the round schedule is a multiple of 42 |
| `RoundSchedule.TableDrivenRounds` | openssl-3.4.0/apps/passwd.c:676-697 | rounds driven by a 42-entry table give the same digest as the rounds with their tests of n, for every number of rounds |
| `RoundSchedule.RunRounds` | openssl-3.4.0/apps/passwd.c:676-697 | the round loop, on its digest context, computes the n-fold stretching of the first digest |
| `KeyMixing.BlocksAt` | openssl-3.4.0/apps/passwd.c:655-657 | byte i of a filled buffer is byte i mod (digest size) of the digest, also when the length is a multiple of the block |
| `KeyMixing.LengthBitsExact` | openssl-3.4.0/apps/passwd.c:631-638 | the bits that the length loop sees are exactly the binary digits of the length, lowest first, without leading zeros |
| `KeyMixing.FeedBlocks` | openssl-3.4.0/apps/passwd.c:624-629 | the block loop and the rest behind it feed the first `len` bytes of the endlessly repeated digest |
| `KeyMixing.FeedLengthBits` | openssl-3.4.0/apps/passwd.c:631-638 | the bit loop feeds one piece per binary digit of the length |
| `KeyMixing.FillBlocks` | openssl-3.4.0/apps/passwd.c:653-657 | the in-place fill of the P and S buffers writes the digest over and over, up to the buffer's length |
| `CryptEncoding.TableHoldsDigits` | openssl-3.4.0/apps/passwd.c:25-35 | the 64 table entries are the alphabet ./0-9A-Za-z |
| `CryptEncoding.OrderOf256IsPermutation` | openssl-3.4.0/apps/passwd.c:720-733 | the byte order of the 256-bit output takes every digest byte at exactly one place |
| `CryptEncoding.OrderOf512IsPermutation` | openssl-3.4.0/apps/passwd.c:734-757 | the same for the 512-bit output |
| `CryptEncoding.Lossless256` | openssl-3.4.0/apps/passwd.c:710-733 | a decoder gets every 32-byte digest back from its 43 characters |
| `CryptEncoding.Lossless512` | openssl-3.4.0/apps/passwd.c:710-757 | a decoder gets every 64-byte digest back from its 86 characters |
| `CryptEncoding.OrderOfMd5IsPermutation` | openssl-3.4.0/apps/passwd.c:448-453 | the walk by 6 modulo 17, with bytes 5 and 11 at the end, takes every digest byte at exactly one place |
| `CryptEncoding.LosslessMd5` | openssl-3.4.0/apps/passwd.c:442-475 | a decoder gets every 16-byte digest back from its 22 characters |
| `CryptOutput.B64From24Bit` | openssl-3.4.0/apps/passwd.c:710-718 | the macro appends the n lowest six-bit digits of the three bytes, lowest first |
| `CryptOutput.EmitSha256` | openssl-3.4.0/apps/passwd.c:720-733 | the eleven groups append exactly the encoding of the digest |
| `CryptOutput.EmitSha512` | openssl-3.4.0/apps/passwd.c:734-757 | the twenty-two groups append exactly the encoding of the digest |
| `CryptSetting.LongestPrintedSetting` | openssl-3.4.0/apps/passwd.c:571-606 | the printed setting has 33 characters exactly for nine-digit custom rounds and a 16-character salt, and never more |
| `CryptSetting.PrintedSettingReparses` | openssl-3.4.0/apps/passwd.c:547-606 | for every salt argument, the setting that is printed is parsed again to the same clamped rounds and the same cut salt |
| `CryptSetting.WholeOutputReparses` | openssl-3.4.0/apps/passwd.c:547-606 | the whole output, used as a salt argument, is parsed to the same setting if and only if the salt has 16 characters |
| `ShaCrypt.SequencesAreCyclic` | openssl-3.4.0/apps/passwd.c:642-674 | the P and S sequences have the lengths of the password and the salt, and byte i is byte i mod (digest size) of the repeated-input digest |
| `ShaCrypt.OutputFits` | openssl-3.4.0/apps/passwd.c:496-520 | the output and its NUL fit the 124-byte buffer for all inputs, and fill it exactly for the longest SHA-512 output |
| `ShaCrypt.PrintedSettingRegenerates` | openssl-3.4.0/apps/passwd.c:496-775 | hashing again with the printed setting as the salt gives the same line |
| `ShaCrypt.EqualTextsEqualDigests` | openssl-3.4.0/apps/passwd.c:707-761 | equal encodings have equal digests |
| `ShaCrypt.ComputeDigest` | openssl-3.4.0/apps/passwd.c:608-697 | the streamed computation with its two contexts, loops and in-place fills equals the functional specification of steps 1 to 21 of SHA-crypt, for all passwords, salts and round counts |
| `ShaCrypt.Crypt` | openssl-3.4.0/apps/passwd.c:496-775 | `shacrypt`: None exactly for an unusable setting, an unknown magic or a failed zero-size allocation; otherwise magic, setting, `$` and the encoded digest, and the length guard never fires |
| `Md5Crypt.PackedIsEncodedWord` | openssl-3.4.0/apps/passwd.c:464-471 | the hand-unrolled packing of three bytes equals `b64_from_24bit` |
| `Md5Crypt.Permute` | openssl-3.4.0/apps/passwd.c:444-453 | the in-place permutation loop puts every byte where the order says |
| `Md5Crypt.EmitMd5` | openssl-3.4.0/apps/passwd.c:459-476 | the unrolled output loop appends the 22-character encoding |
| `Md5Crypt.Crypt` | openssl-3.4.0/apps/passwd.c:314-489 | `md5crypt`: None exactly for a magic of more than four characters; otherwise the specified line |
| `CryptMessages.ShaDigestExactly` | openssl-3.4.0/apps/passwd.c:608-697 | what is hashed, byte by byte, for every password, salt and number of rounds: digests B and A with their blocks and one piece per binary digit of the length, the copies of the password, the 16 + A[0] copies of the salt, the two sequences, and the message of every round |
| `CryptMessages.SequenceSExactly` | openssl-3.4.0/apps/passwd.c:662-674 | sequence S is read off the digest of exactly 16 + A[0] copies of the salt |
| `CryptMessages.RoundsExactly` | openssl-3.4.0/apps/passwd.c:676-697 | each round hashes the digest before it with key and salt placed by the number of the round |
| `CryptMessages.Md5DigestExactly` | openssl-3.4.0/apps/passwd.c:361-436 | the same for MD5: the first message with magic, blocks and one byte per binary digit of the length, and a thousand rounds |
| `CryptLines.ShaLineExactly` | openssl-3.4.0/apps/passwd.c:496-775 | the line: the magic, the rounds if they were given, the salt and the digest of the right algorithm; there is none exactly for another magic, a bad setting or a failed allocation |
| `CryptLines.Md5LineExactly` | openssl-3.4.0/apps/passwd.c:314-489 | the line: the magic between dollar signs if there is one, eight characters of salt, and the digest |
| `CryptLines.SettingExactly` | openssl-3.4.0/apps/passwd.c:547-606 | which rounds and which salt a salt argument stands for: 5000 and its first 16 characters, or the clamped number behind `rounds=` and what follows the dollar sign |
| `CryptLines.NumberExactly` | openssl-3.4.0/apps/passwd.c:547-562 | the number that is read behind `rounds=`, with spaces, sign and wrap-around at 64 bits |
| `CryptLines.Text256Exactly` | openssl-3.4.0/apps/passwd.c:720-733 | every character of the encoded SHA-256 digest, by the three bytes of its group |
| `CryptLines.Text512Exactly` | openssl-3.4.0/apps/passwd.c:734-757 | the same for SHA-512 |
| `CryptLines.TextMd5Exactly` | openssl-3.4.0/apps/passwd.c:442-475 | the same for MD5 |
| `DoPasswd.HashIsComputedExactly` | openssl-3.4.0/apps/passwd.c:496-606 | a hash comes out exactly for the modes, salts and passwords that the algorithms accept |
| `DoPasswd.RandomSaltIsSafe` | openssl-3.4.0/apps/passwd.c:777-847 | a generated salt never makes the hashing of a non-empty password fail |
| `DoPasswd.RandomSaltIsItsSetting` | openssl-3.4.0/apps/passwd.c:790-811 | a generated salt holds no `$` and no rounds: it is parsed as itself with the default rounds |
| `DoPasswd.Run` | openssl-3.4.0/apps/passwd.c:777-847 | salt choice, truncation of the password, choice of the algorithm, and the line that is printed |
| `CryptLines.ModeExactly` | openssl-3.4.0/apps/passwd.c:784-833 | which algorithm and magic a mode stands for, and the length of its salts |
| `CryptLines.LineExactly` | openssl-3.4.0/apps/passwd.c:836-841 | what is printed with and without a table, in both orders |
| `CryptLines.RandomSaltExactly` | openssl-3.4.0/apps/passwd.c:799-801 | each character of a generated salt, by its random byte |
| `Merkle.CreateTree` | merkletree.c:40-75 | for every n >= 1 the loops stay in bounds and stop after ceil(log2 n) passes, and the root is a node without children that holds the first leaf |
| `Merkle.HalvingStep` | merkletree.c:53-69 | the invariant behind the number of passes: halving and rounding up keeps the size between its bounds |
| `Merkle.RootCoversOneOnly` | merkletree.c:40-75 | the root as the code builds it tells equally long lists of transactions apart if and only if they have one transaction |
| `Merkle.IntendedRootBinds` | README.md:8 | intended specification, not the code: equal roots over equally many leaves mean equal leaves, or yield two different messages, one from each tree, with the same hash |
| `Merkle.CompareTrees` | merkletree.c:40-75 | two trees that the code builds over equally many transactions have the same root hash exactly if the first transactions are the same |
| `Merkle.BuildSameRoots` | merkletree.c:40-75 | whatever the hash function, for two transactions or more the code builds trees with the same root hash over different lists |
| `ChainSpec.ChainsAgreeOrCollide` | blockchain.c:135-189 | two valid chains of equal length with the same tail block hash agree in every block, or a block is named whose hashed messages collide |
| `ChainSpec.ChangeNoticed` | blockchain.c:159-189 | exactly which replacements of one block keep a chain valid: those that keep its block hash, if a block follows, and its back link, if one precedes |
| `ChainSpec.TamperingIsEvident` | blockchain.c:135-189 | replacing a block before the tail makes the chain invalid or yields a collision |
| `ChainSpec.TailRootIsFree` | blockchain.c:174-189 | the root of the tail block can be changed freely: validation does not look at it |
| `ChainSpec.BlockIgnoresLaterTransactions` | blockchain.c:42-59 | the new block is the same whatever transactions follow the first one |
| `ChainSpec.GrownChainIsValid` | blockchain.c:18-76 | any number of new blocks keeps a valid chain valid and its old blocks as they were |
| `ChainSpec.ValidExactly` | blockchain.c:135-189 | validity read off the blocks: each holds the hash of the previous hash of the block before it followed by the hash of its root |
| `ChainSpec.GrownBlockExactly` | blockchain.c:18-76 | every block of a built chain: the link to the block before it and the hash of its first transaction |
| `Blockchain.CalculateBlockHash` | blockchain.c:135-157 | the hash of the previous hash followed by the hash of the root |
| `Blockchain.HashTransactions` | blockchain.c:34-57 | every transaction is hashed in its place, unless one of the allocations fails |
| `Blockchain.Chain.CreateBlockchain` | blockchain.c:191-214 | a list of the genesis block alone; a failed allocation leaves the chain empty |
| `Blockchain.Chain.CreateBlock` | blockchain.c:18-76 | the list grows by one block linked from the old tail, with count, tail and acyclicity kept; it fails exactly if one of its own allocations fails, and then nothing has changed |
| `Blockchain.Chain.Destroy` | blockchain.c:78-92 | every block and the tree and node of every block are released, in the order of the list, nothing twice, and the chain is empty |
| `Blockchain.ValidateBlockchain` | blockchain.c:174-189 | the pointer loop answers true exactly for a non-empty list in which every back link is the hash of the block before |
| `Blockchain.BuildAndValidate` | blockchain.c:18-214 | after `create_blockchain` and any number of `create_block` calls the list has one more block than calls, holds the blocks of the specification, and validates |
| `ChainSpec.BuiltChainIsEvident` | blockchain.c:18-189 | tamper evidence for every chain that was built from a genesis block |
| `BlockText.AppendHex` | blockchain.c:107-110 | the hex loop of bounded appends yields the prefix that fits of the whole text |
| `BlockText.BlockToString` | blockchain.c:96-133 | the string is NUL-terminated inside its buffer and is exactly the prefix that fits of the full rendering |
| `BlockText.TextExactly` | blockchain.c:96-133 | the labels and parts of the whole text |
| `BlockText.HexExactly` | blockchain.c:104-107 | each byte is shown by two small hexadecimal figures, the higher one first |
| `BlockText.RootHashIsCut` | blockchain.c:97-126 | the buffer always cuts the root hash: at most 50 of its 128 digits are shown, fewer by the length of the timestamp |
| `BlockText.NoTreeIsShownWhole` | blockchain.c:127-130 | a block without a tree is shown whole |
| `SignerSpec.SignersMeanTheirGroups` | openssl-3.4.0/apps/cms.c:585-623 | if every `-keyopt` was filed under the group that was open, the signers, their keys and their key options are those of the option groups, a missing key replaced by the certificate; and the sequence is refused exactly if a group has no signer |
| `SignerStray.AlignedIffFiled` | openssl-3.4.0/apps/cms.c:585-675 | for every accepted command: what it does is what its options mean if and only if every `-keyopt` was filed under the group that was open |
| `SignerStray.FirstStray` | openssl-3.4.0/apps/cms.c:644-675 | the first `-keyopt` that is filed elsewhere breaks the alignment for good: a group stays short, or another keeps too much, or a text is lost |
| `SignerStray.FiledWithoutEncrypt` | openssl-3.4.0/apps/cms.c:644-655 | without `-encrypt` every `-keyopt` is filed under the group that is open |
| `SignerGroups.MeaningExactly` | openssl-3.4.0/apps/cms.c:585-773 | what a command line means, read off its options: it falls into segments that begin where a second signer or key would come; each is one signer, with its own key or else itself and its own key options, if the last operation is to sign and every segment has a signer |
| `SignerGroups.FailsExactly` | openssl-3.4.0/apps/cms.c:605-660 | a command line has no segments exactly where a key option comes before any signer or key, or a second key into a segment without a signer |
| `SignerGroups.SignersExactly` | openssl-3.4.0/apps/cms.c:585-1128 | on every run, whatever was filed where: signers are added exactly if the last operation is to sign and every segment has a signer, each with its own key or else itself, and with the first run of key options under its index |
| `SignerGroups.ParamsExactly` | openssl-3.4.0/apps/cms.c:644-675 | the parameter list holds all key options in the order given, each under the index it had then, in the longest runs of one index |
| `SignerGroups.FirstRunIsTaken` | openssl-3.4.0/apps/cms.c:1114-1119 | the search by index takes the first such run |
| `SignerGroups.RecipientsAreCounted` | openssl-3.4.0/apps/cms.c:628-660 | the machine knows the operation given last and counts the recipients given under `-encrypt`; a key option there goes to the newest |
| `SignerSpec.StepKeepsGroups` | openssl-3.4.0/apps/cms.c:585-675 | every option, a `-keyopt` if it is filed under the open group, keeps the two stacks and the parameter list in step with the groups |
| `SignerSpec.KeyoptFiledUnderOpenGroup` | openssl-3.4.0/apps/cms.c:644-655 | an option is filed under the group that is open if and only if the operation is not `-encrypt`, or there happen to be as many recipients as groups |
| `SignerSpec.FinishFollowsGroups` | openssl-3.4.0/apps/cms.c:751-773 | the final step accepts exactly if every group has a signer, and then both stacks have one entry per group |
| `SignerSpec.KeyIndicesIncrease` | openssl-3.4.0/apps/cms.c:659-673 | as long as every `-keyopt` is filed under the open group, the indices in the parameter list increase strictly |
| `SignerSpec.FindParamOfGroup` | openssl-3.4.0/apps/cms.c:1114-1119 | the search by index finds the options of exactly that group |
| `SignerSpec.KeyoptWhileEncryptingStrays` | openssl-3.4.0/apps/cms.c:644-655 | counterexample: an option given under `-encrypt` is applied to a signer that comes later |
| `SignerOptions.CmsOptions.Signer` | openssl-3.4.0/apps/cms.c:585-601 | the case of `-signer` on the variables does one step of the specification |
| `SignerOptions.CmsOptions.Inkey` | openssl-3.4.0/apps/cms.c:605-623 | the case of `-inkey` does one step, or refuses where the specification does |
| `SignerOptions.CmsOptions.Keyopt` | openssl-3.4.0/apps/cms.c:644-675 | the case of `-keyopt`, with its tail pointer, does one step, or refuses where the specification does |
| `SignerOptions.CmsOptions.AppendLast` | openssl-3.4.0/apps/cms.c:751-773 | the final step on the variables follows the specification |
| `SignerOptions.CmsOptions.AddSigners` | openssl-3.4.0/apps/cms.c:1096-1128 | the consuming loop pairs the stacks by position and finds each signer's options by index |
| `SignerOptions.SignWith` | openssl-3.4.0/apps/cms.c:585-1128 | the whole path from options to signers gives every signer the key and the options of its own group exactly if every `-keyopt` was filed under the open group |
| `Asn1Time.TimeTextIsUtc` | openssl-3.4.0/crypto/asn1/a_time.c:265-344 | the text of a time is a UTCTime exactly for the years 1950 to 2049 |
| `Asn1Time.TimeTextIsTime` | openssl-3.4.0/crypto/asn1/a_time.c:265-344 | the text of every time up to the year 9999 is accepted as a time |
| `TimeTexts.PrintedTime` | openssl-3.4.0/crypto/asn1/a_time.c:265-310 | the text of a time, digit by digit |
| `TimeTexts.OnlyUtc` | openssl-3.4.0/crypto/asn1/a_time.c:76-263 | only texts of real times in the years 1950 to 2049 are taken as UTCTime, with or without seconds, in universal time or with an offset of up to 12:59 |
| `TimeTexts.TakesUtc` | openssl-3.4.0/crypto/asn1/a_time.c:76-263 | and all of them are |
| `TimeTexts.OnlyGeneralized` | openssl-3.4.0/crypto/asn1/a_time.c:76-263 | only texts of real times with four digits of the year are taken as GeneralizedTime, with or without seconds and a fraction |
| `TimeTexts.TakesGeneralized` | openssl-3.4.0/crypto/asn1/a_time.c:76-263 | and all of them are |
| `Asn1Time.TimeIsTimeChars` | openssl-3.4.0/crypto/asn1/a_time.c:76-263 | a text that is accepted as a time has digits, signs, periods and Z only |
| `RevInfo.MakeRevocationStr` | openssl-3.4.0/apps/ca.c:2341-2423 | None exactly for an unknown reason or a bad argument; otherwise time, reason and argument between commas, and the computed buffer length cuts nothing |
| `RevFields.PrintedExactly` | openssl-3.4.0/apps/ca.c:2341-2423 | which arguments each kind of revocation takes, and the exact text that is printed for them |
| `RevInfo.UnpackRevinfo` | openssl-3.4.0/apps/ca.c:2528-2637 | the in-place splitting and the table lookup give the meaning of the field, or refuse it |
| `RevFields.ReadExactly` | openssl-3.4.0/apps/ca.c:2528-2637 | what every field means, by its time, its reason in any letters and its argument; every field is of one of these forms |
| `RevFields.EveryFieldHasParts` | openssl-3.4.0/apps/ca.c:2544-2559 | every text is a time, or a time and a reason, or a time, a reason and an argument |
| `RevInfo.FindOwnReason` | openssl-3.4.0/apps/ca.c:2316-2332 | every reason is found under its own name and under no other |
| `RevInfo.NotBothExtensions` | openssl-3.4.0/apps/ca.c:2571-2629 | a field has at most one of the two extensions, and only with its own reason code |
| `RevInfo.PrintedRevocationReadsBack` | openssl-3.4.0/apps/ca.c:2341-2423 | what is printed for any accepted revocation is read back with the same time, reason code (8 for removeFromCRL, 6 for a hold, 1 and 2 for the compromises) and argument, if and only if the year is 1950 to 2049 |
| `SerialHex.SerialTextDenotes` | openssl-3.4.0/apps/ca.c:1781-1784 | what is written for a serial passes the load check and denotes that serial |
| `SerialHex.SameKeySameValue` | openssl-3.4.0/apps/lib/apps.c:1465-1473 | checked serials that the index takes for equal are equal numbers |
| `SerialHex.SerialTextKeys` | openssl-3.4.0/apps/lib/apps.c:1455-1473 | different serials have different keys |
| `SerialHex.FoundIfCanonical` | openssl-3.4.0/apps/lib/apps.c:1455-1473 | a checked serial is found under the text of its own value if and only if it has capital letters only and, if negative, no zero first byte |
| `TxtDb.LineRoundTrip` | openssl-3.4.0/crypto/txt_db/txt_db.c:187-232 | six written fields are read back as they were if and only if none but the last ends in a backslash; otherwise the line is refused |
| `TxtDb.FileRoundTrip` | openssl-3.4.0/crypto/txt_db/txt_db.c:20-125 | a file of clean rows is read back as it was written |
| `LoadCheck.WrittenLine` | openssl-3.4.0/crypto/txt_db/txt_db.c:187-232 | a row is written as its six fields with tabs between them and a newline, a tab inside a field with a backslash before it |
| `TxtDb.ReadRowsAreClean` | openssl-3.4.0/crypto/txt_db/txt_db.c:20-125 | whatever rows are read can be written and read again |
| `TxtDb.CommentIsCut` | openssl-3.4.0/crypto/txt_db/txt_db.c:55-66 | a comment line that fits into the line buffer is skipped; what is left of a longer one is read as the next line |
| `LoadCheck.LineExactly` | openssl-3.4.0/crypto/txt_db/txt_db.c:77-116 | a line is a row exactly if it has six fields, or a seventh that is empty |
| `LoadCheck.FirstCommentExactly` | openssl-3.4.0/crypto/txt_db/txt_db.c:54-75 | a comment is skipped up to 511 bytes |
| `LoadCheck.BufferExactly` | openssl-3.4.0/crypto/txt_db/txt_db.c:54-66 | the line buffer grows by 512 bytes to the first multiple that is more than the line |
| `Database.FindSerialUnique` | openssl-3.4.0/crypto/txt_db/txt_db.c:127-145 | with distinct serials, the lookup by serial finds the one row that has it |
| `Database.InsertKeepsUnique` | openssl-3.4.0/crypto/txt_db/txt_db.c:234-277 | an insertion that succeeds keeps serials distinct, names of valid rows distinct if they must be, and the indices right |
| `Database.ExpireIsIdempotent` | openssl-3.4.0/apps/ca.c:2266-2314 | updating twice at the same time changes nothing the second time, and reports zero |
| `Database.ExpireKeepsAccepted` | openssl-3.4.0/apps/ca.c:2266-2314 | the update keeps the database acceptable; it changes exactly the valid rows whose expiry is due, each to the status E and nothing else |
| `Database.RevokeResult` | openssl-3.4.0/apps/ca.c:2093-2197 | a successful revocation: the row was there or is inserted, it has the certificate's name, it was not revoked before, and exactly that row is changed |
| `Revocation.RevokesFound` | openssl-3.4.0/apps/ca.c:2126-2193 | a certificate whose serial is in the database: it is revoked exactly if the row has its name, is not revoked already, more than an insertion was asked for and the argument is acceptable for the kind of revocation; valid, expired or otherwise; and the row afterwards, field by field |
| `Revocation.RevokesUnknown` | openssl-3.4.0/apps/ca.c:2126-2169 | a certificate whose serial is not there: it is inserted exactly if its name does not clash, and then revoked exactly if that was asked for with an acceptable argument; and the row in every case |
| `Revocation.OthersStay` | openssl-3.4.0/apps/ca.c:2093-2197 | no other row is touched |
| `Database.FailedRevoke` | openssl-3.4.0/apps/ca.c:2093-2197 | a revocation that fails has changed nothing in memory, or has left the row that it inserted before its arguments turned out to be bad |
| `Database.RevokeKeepsUnique` | openssl-3.4.0/apps/ca.c:2093-2197 | whatever the arguments, indices stay right and rows only evolve |
| `Database.RevokeKeepsAccepted` | openssl-3.4.0/apps/ca.c:2093-2197 | after a successful revocation the database is accepted again if and only if the year was 1950 to 2049, an inserted certificate has a well-formed expiry date, and the revoked row had a status |
| `Database.FoundRow` | openssl-3.4.0/apps/lib/apps.c:1455-1473 | in a checked database a row is found for a number exactly if its serial has that value and is canonical |
| `Database.RevokeMarksFound` | openssl-3.4.0/apps/ca.c:2121-2190 | a row that a revocation marks has a canonical serial: it was found by its number |
| `CaDatabase.CheckSerial` | openssl-3.4.0/apps/ca.c:707-725 | the sign, length and character tests accept exactly a sign and an even positive number of hexadecimal digits |
| `CaDatabase.CaDb.CheckRows` | openssl-3.4.0/apps/ca.c:690-726 | the load check accepts exactly if every row is revoked with a readable revocation field or not revoked with an empty one, and has a well-formed date and serial |
| `CaDatabase.CaDb.IndexIndex` | openssl-3.4.0/apps/lib/apps.c:1736-1759 | indexing succeeds exactly if serials are distinct and, if asked for, names of valid rows are |
| `LoadCheck.AcceptedExactly` | openssl-3.4.0/apps/ca.c:690-735 | the exact condition for a database to be loaded, field by field |
| `CaDatabase.CaDb.Insert` | openssl-3.4.0/crypto/txt_db/txt_db.c:234-277 | the insertion on row objects does what the specification says, and nothing if it fails |
| `CaDatabase.CaDb.DoUpdatedb` | openssl-3.4.0/apps/ca.c:2266-2314 | the loop marks exactly the due rows in place and returns their number; at a bad date it stops with -1, leaving the rows before it updated |
| `CaDatabase.CaDb.DoRevoke` | openssl-3.4.0/apps/ca.c:2093-2197 | the self-recursive method, which calls itself at most once because the inserted row is found, does what the specification of a revocation says to rows and indices, and reports its success |
| `Names.RemoveEmail` | openssl-3.4.0/apps/ca.c:1748-1772 | the deletion loop ends and leaves exactly the other entries in their order, with neighbouring addresses and one at the front |
| `Names.WithoutKeepsOthers` | openssl-3.4.0/apps/ca.c:1748-1772 | nothing of the removed type is left, and everything of every other type |
| `Names.X509Name.GetIndexByObj` | openssl-3.4.0/crypto/x509/x509name.c:71-90 | the search returns the first entry of the type behind the given place, and -1 only if there is none |
| `Names.DeleteTakesOne` | openssl-3.4.0/crypto/x509/x509name.c:101-139 | a deletion takes one entry of its own type, and leaves every other type as it was |
| `Policy.FindMatch` | openssl-3.4.0/apps/ca.c:1597-1623 | the `again2` loop finds an equal entry exactly if the CA's name has one |
| `Policy.ApplyRule` | openssl-3.4.0/apps/ca.c:1558-1639 | the loop over one type succeeds exactly if the rule is met, and appends the request's entries of that type in order |
| `Policy.ApplyPolicy` | openssl-3.4.0/apps/ca.c:1549-1640 | the policy loop succeeds if and only if every line names a known type and a known rule, supplied and match types occur, and every entry of a match type equals one of the CA's; the subject is then, in policy order, the request's entries of each type |
| `PolicyMeaning.PolicyExactly` | openssl-3.4.0/apps/ca.c:1549-1640 | the demands of a policy on the entries of a name: known types, one of three rules, supplied and matched types occur, and every entry of a matched type is one of the CA |
| `PolicyMeaning.SubjectExactly` | openssl-3.4.0/apps/ca.c:1549-1640 | the subject is, for one line of the policy after the other, the selection of the request of that type |
| `Policy.SubjectKeepsNamedTypes` | openssl-3.4.0/apps/ca.c:1549-1640 | if no type is named twice, the subject has exactly the request's entries of the named types, and none of any other |
| `Policy.MatchedEntriesAreTheCas` | openssl-3.4.0/apps/ca.c:1587-1623 | of a match type the subject has at least one entry, and only entries that the CA's name has |
| `Policy.SelfSignedMatches` | openssl-3.4.0/apps/ca.c:1540-1546 | for a self-signed certificate match demands no more than supplied |
| `NameCheck.CheckName` | openssl-3.4.0/apps/ca.c:1489-1532 | the loop over the name corrects the entries in place as `-msie_hack` demands, and accepts exactly if every address that is kept is an IA5String, every PrintableString is printable, and every other narrow string is ASCII |
| `PolicyMeaning.PassesExactly` | openssl-3.4.0/apps/ca.c:1509-1532 | which entries pass, string type by string type |
| `PolicyMeaning.CorrectedExactly` | openssl-3.4.0/apps/ca.c:1495-1507 | what `-msie_hack` makes of an entry, byte by byte |
| `NameCheck.FindPrintableType` | openssl-3.4.0/crypto/asn1/a_print.c:15-40 | the narrowest of the three types whose characters suffice |
| `NameCheck.CorrectionsDoNoHarm` | openssl-3.4.0/apps/ca.c:1495-1507 | an entry that passes still passes after the corrections |
| `Issue.DoBody` | openssl-3.4.0/apps/ca.c:1447-1947 | one request: issued, declined or fatal as specified, and the table gains its row exactly if it was issued |
| `Issue.InsertSucceeds` | openssl-3.4.0/apps/ca.c:1804-1926 | behind the two clash checks the insertion cannot fail, although the name index may hold rows that have expired since |
| `Issue.CertifyAll` | openssl-3.4.0/apps/ca.c:928-1012 | the loop over the requests, with the serial counting up, follows the specification and stops at the first fatal request |
| `Issuance.OneMoreExactly` | openssl-3.4.0/apps/ca.c:1447-1947 | a request more: it gets a certificate exactly if it is verified, passes the string checks, meets the policy against the name of the CA (its own if self-signed), can be built, clashes with no row, is confirmed and can be signed; it is passed over exactly if its signature is wrong or it is not confirmed; otherwise the run is over; and the certificate, the row and the serial in every case |
| `Issuance.CertificatesAreDeserved` | openssl-3.4.0/apps/ca.c:928-1012 | every certificate of a run was made for a request that met all this, in the order of the requests, and its name is the one-line text of the entries in policy order |
| `Issuance.MatchedAgainstTheCa` | openssl-3.4.0/apps/ca.c:1587-1623 | unless self-signed, every entry of a matched type of the request is one of the CA's name |
| `Issue.SerialsAreConserved` | openssl-3.4.0/apps/ca.c:928-1045 | certificates of one run carry consecutive serials from the loaded one, each adds exactly one row, and the serial to be saved is the first unused one |
| `Issue.DeclinedLeavesNoTrace` | openssl-3.4.0/apps/ca.c:989-1012 | a run with a declined request is the same as the run without it |
| `Issue.IssueKeepsAccepted` | openssl-3.4.0/apps/ca.c:1775-1927 | issuing keeps the database acceptable, serials distinct, and all old rows |
| `Issue.IssuedCanBeRevoked` | openssl-3.4.0/apps/ca.c:2093-2197 | every certificate that was issued is found by `do_revoke` under its own name and can be revoked |
| `CleanRows.NewRowIsClean` | openssl-3.4.0/apps/ca.c:1903-1928 | a new row survives the trip through the file exactly if the name has no newline, and the expiry text no newline and no backslash at its end |
| `CleanRows.RevokeKeepsClean` | openssl-3.4.0/apps/ca.c:2121-2193 | so do all rows after a revocation, exactly if it found its row or the inserted certificate has such texts |
| `Invocation.CaMain` | openssl-3.4.0/apps/ca.c:679-1298 | loading, checking, updating, issuing and revoking on row objects leave the files as specified: expired rows are saved if there are any; if committed, the new certificates are written, then the serial file is put in place, then the rows; a revocation only if it succeeded; and nothing behind a saving that fails |
| `FileAfter.FilesExactly` | openssl-3.4.0/apps/ca.c:679-1298 | the files behind an invocation on an accepted file, for all options and all savings that may fail: rows, serial and certificates |
| `FileAfter.RowAfter` | openssl-3.4.0/apps/ca.c:739-757 | a row that is not asked to be revoked becomes expired exactly if `-updatedb` was given, it was valid and due, and the rows could be saved; otherwise it is as it was, whatever else was issued or revoked |
| `FileAfter.AskedRowAfter` | openssl-3.4.0/apps/ca.c:1268-1291 | a row that is asked to be revoked is, exactly if the invocation comes to it, its state and the argument allow it and the result is saved |
| `FileAfter.ExpiresOnlyWhenAsked` | openssl-3.4.0/apps/ca.c:739-757 | without `-updatedb`, or if its rows cannot be saved, no row becomes expired |
| `FileAfter.UpdateAlone` | openssl-3.4.0/apps/ca.c:739-757 | an invocation that is only to update does exactly that |
| `Invocation.WriteCertificates` | openssl-3.4.0/apps/ca.c:1053-1104 | the loop writes the certificates in their order, up to the first that cannot be written |
| `Invocation.SaveIndex` | openssl-3.4.0/crypto/txt_db/txt_db.c:187-232 | the loop over the row objects writes exactly the text of their values |
| `Runs.InvocationKeeps` | openssl-3.4.0/apps/ca.c:679-1298 | one invocation, wherever it stops and whatever the year, leaves a file that can be read, with every old row in place, no revocation undone, a serial that has not gone back, and all certificates |
| `Runs.IssueKeeps` | openssl-3.4.0/apps/ca.c:1018-1117 | the saved serial advances by the number of rows that were saved, except exactly when the serial file gets into place and the database does not: then it advances and no row is added |
| `Runs.RevokedIsReadBack` | openssl-3.4.0/apps/ca.c:2121-2193 | the rows of a successful revocation are found again in the saved file exactly if it found its row or inserted a certificate whose texts the file can hold |
| `Runs.AcceptedUnlessUnsound` | openssl-3.4.0/apps/ca.c:679-1298 | a file that can be read is accepted after an invocation if and only if it was before, and the invocation has not saved a revocation outside 1950 to 2049, of a row without a status, or an insertion of a certificate with a malformed expiry date |
| `Runs.RunsStayAccepted` | openssl-3.4.0/apps/ca.c:679-1298 | the same over any number of invocations: accepted at the end if and only if accepted at the beginning and no invocation has saved such a revocation |
| `Runs.UnsoundRevocationLocksOut` | openssl-3.4.0/apps/ca.c:2093-2197 | whatever else the invocation did: such a revocation makes the program refuse its own file, and no later invocation changes any file |
| `Runs.HealthyUnlessLate` | openssl-3.4.0/apps/ca.c:679-1298 | one invocation on an accepted file in which every row has a status, with a certificate whose expiry date is a time: accepted again if and only if it saved no revocation outside the years 1950 to 2049 |
| `Runs.RunsKeep` | openssl-3.4.0/apps/ca.c:679-1298 | the file, the old rows, the revocations, the serial and the certificates over any number of invocations, at any times and with any failures |
| `Runs.RunsStayHealthy` | openssl-3.4.0/apps/ca.c:679-1298 | the same over any number of invocations, of which every one loads a certificate with a well-formed expiry date or none |
| `Runs.RevokedForEver` | openssl-3.4.0/apps/ca.c:2177-2192 | a revoked row is still there, at its place and unchanged, after any number of invocations |
| `Runs.LateRevocationLocksOut` | openssl-3.4.0/apps/ca.c:2399-2412 | in any file: a revocation outside 1950 to 2049 that is saved makes the program refuse its own file, and no later invocation changes any file |
| `Runs.LockOutHappens` | openssl-3.4.0/apps/ca.c:2399-2412 | it happens to an empty database on the first day of 2050 |
| `Runs.EmptyStatusLocksOut` | openssl-3.4.0/apps/ca.c:2182-2192 | it happens in any year to a database whose one row has an empty status: it is accepted, its row can be revoked, and then it is refused |
| `Runs.MalformedExpiryLocksOut` | openssl-3.4.0/apps/ca.c:2121-2169 | it happens in any year to an empty database, by a `-valid` of a certificate whose expiry date is not a time |
| `Runs.RefusedForEver` | openssl-3.4.0/apps/ca.c:684-735 | a file that is not accepted is never written |
| `Runs.ReadersAgreeAfterRuns` | openssl-3.4.0/apps/ca.c:1183-1204 | after any number of invocations the revocation list and the responder agree about everything exactly if every revoked row is spoken for; no run breaks that |
| `Serials.TakenForEver` | openssl-3.4.0/apps/ca.c:1813-1860 | once the number in the serial file is in the database, no number of invocations ever issues a certificate or moves the serial again |
| `Serials.TakenByRevocation` | openssl-3.4.0/apps/ca.c:2121-2169 | exactly when that is so behind a run: the number was in the database at the beginning, or the run has saved a revocation or a `-valid` of a certificate with that number |
| `Serials.HoldsAfter` | openssl-3.4.0/apps/ca.c:679-1298 | of the numbers from the new serial on, one invocation adds to the database exactly the one that it revokes or inserts |
| `Serials.TakenHappens` | openssl-3.4.0/apps/ca.c:2121-2169 | it happens in a file that stays accepted: a `-valid` of certificate number 1 in an empty database |
| `Serials.WritesConsecutive` | openssl-3.4.0/apps/ca.c:1018-1117 | an invocation writes certificates with consecutive serials from the loaded one, and the serial moves by their number unless it stops between writing one and putting the serial file in place |
| `Serials.SerialsCountCertificates` | openssl-3.4.0/apps/ca.c:1018-1117 | over any number of invocations the serial advances by the number of certificates on disk if and only if none has stopped there; otherwise by less |
| `Serials.SerialsDifferUnlessLoose` | openssl-3.4.0/apps/ca.c:1053-1111 | over any number of invocations all certificates on disk have different serials if and only if none was written after an invocation that had stopped there |
| `Serials.ReuseHappens` | openssl-3.4.0/apps/ca.c:1053-1111 | it happens: the first certificate is written, the serial file is not put in place, and the next run issues serial 1 again |
| `Serials.LossHappens` | openssl-3.4.0/apps/ca.c:1108-1115 | serials do get lost: the first certificate ever is issued, the serial file says 2, and the database is empty |
| `CrlOcsp.MakeRevoked` | openssl-3.4.0/apps/ca.c:2433-2485 | 0 exactly for an unreadable field; otherwise the date, the reason unless none was given, and the one extension; 2 exactly if there are extensions |
| `CrlOcsp.MakeCrl` | openssl-3.4.0/apps/ca.c:1183-1204 | on a checked database the loop never fails, lists exactly the revoked rows in order, and asks for version 2 exactly if an entry has extensions |
| `CrlEntries.ListExactly` | openssl-3.4.0/apps/ca.c:1183-1204 | the list has exactly one entry for each revoked row, in order, with its serial, date, reason and extension |
| `CrlOcsp.ListedRows` | openssl-3.4.0/apps/ca.c:1183-1204 | an entry is on the list exactly if a revoked row stands behind it |
| `CrlOcsp.LookupSerial` | openssl-3.4.0/apps/ocsp.c:1176-1197 | the row found is the one that the index files under the text of the number |
| `CrlOcsp.MakeOcspResponse` | openssl-3.4.0/apps/ocsp.c:1045-1137 | on any database, checked or not: malformed without requests, otherwise the specified answers in order, or an internal error |
| `OcspAnswers.AnswerExactly` | openssl-3.4.0/apps/ocsp.c:1057-1135 | which status is answered when, on a checked database: unknown exactly if no CA matches or no canonical row has the number, good exactly if that row is valid, revoked exactly if it is revoked, with its date, reason and extension; nothing for other rows; and the name of the answer |
| `OcspAnswers.AnswersInOrder` | openssl-3.4.0/apps/ocsp.c:1057-1135 | several requests get the answers of each in order; one that fails makes all fail; none is malformed |
| `OcspAnswers.FailsOnlyOver` | openssl-3.4.0/apps/ocsp.c:1057-1126 | on any database one request fails exactly for an unknown digest, or for a revoked row whose time cannot be read |
| `CrlOcsp.RespondsUnlessDefeated` | openssl-3.4.0/apps/ocsp.c:1057-1126 | the response fails exactly if a request has an unknown digest or asks for a row whose revocation time cannot be read; otherwise it has no more answers than requests |
| `CrlOcsp.CheckedIsNotBroken` | openssl-3.4.0/apps/ocsp.c:1110-1126 | on a checked database no row makes the response fail |
| `CrlOcsp.ConfirmedIffCanonical` | openssl-3.4.0/apps/ocsp.c:1107-1135 | the responder calls a serial revoked, in the words of a list entry, exactly if a row with that entry has a canonical serial |
| `CrlOcsp.ConfirmedIsListed` | openssl-3.4.0/apps/ocsp.c:1107-1135 | what the responder calls revoked is on the list with the same date, reason and extension |
| `CrlOcsp.ReadersAgree` | openssl-3.4.0/apps/ocsp.c:1078-1135 | on a checked database the list and the responder agree about every entry if and only if every revoked row is canonical or a canonical row has the same entry |
| `CrlOcsp.SpokenForStays` | openssl-3.4.0/apps/ca.c:2093-2197 | the changes that the program makes keep that condition |
| `CrlOcsp.LowerCaseDisagrees` | openssl-3.4.0/apps/ca.c:707-725 | counterexample: a revoked row with a serial in small letters passes the load check and breaks the agreement |
| `CrlOcsp.OneAnswerUnlessExpired` | openssl-3.4.0/apps/ocsp.c:1095-1135 | every request gets one answer, except that a row of a known issuer gets none if it is neither valid nor revoked, or its revocation time cannot be read |
| `CrlOcsp.ExpiredGetsNoAnswer` | openssl-3.4.0/apps/ocsp.c:1095-1135 | it happens in a database that passes the load check: the row of an expired certificate gets no answer |
| `CrlOcsp.AnswersNameTheirRequest` | openssl-3.4.0/apps/ocsp.c:1078-1093 | an answer names the certificate that was asked for exactly if its issuer is unknown, or no response digest was set, or it is the digest of the request and the serial is zero; the other names have lost the serial |

## Left out

- EBCDIC branches, prompts, messages, verbose output, password entry and the other options of the four tools.
- The insides of the digests, of signatures, of key handling and of certificate extensions.
- Opening, writing and renaming files, step by step: writing a certificate and putting a file in place happen as a whole or not at all, and each can fail; a certificate with the serial of an earlier one replaces its file, and the model lists both; the `.attr` file is the parameter `unique`.
- Random serials (`-rand_serial`): runs start from the loaded serial.
- `get_certificate_status`, `-status` and the single-letter status S: S is covered only as a status that is neither valid nor revoked.
- Issue.DoBody: the validity times, the key and the extensions of the new certificate are one flag of the request, because foreign code sets them.
- NUL bytes in the database file: its text is a C string.
- The set numbers of name entries (multi-valued names): entries are type, string type and bytes.
- Sorting and signing the revocation list, its number and its own extensions.
- The single-response times, nonce and signature of OCSP responses, and the responder's HTTP loop.
- The hash tables behind the indices: a lookup is the search that it answers, with the same comparison.
- `compute_hash`, `add_transaction` and `get_last_block`; a block with no transactions (the code then reads an uninitialised node).
- Block timestamps as evidence: they are not part of the block hash.
- Memory leaks: `create_tree` drops the nodes it does not return.
- Md5Crypt.Crypt: passwords of 2^31 bytes and more are excluded, because the code's counter is an int; `do_passwd` cuts passwords to 256 bytes.
- ChainSpec.TamperingIsEvident: it speaks of the previous hash and the root of a block, which are all that is hashed.
- Merkle.IntendedRootBinds: it is about the tree that the documentation describes, with an odd node carried up; the code does not build it.
- Blockchain.Chain.CreateBlock: allocations inside `create_tree` and `calculate_block_hash` are assumed to succeed; the code links a block without a tree, or with an unset hash, if they fail.
- Runs.InvocationKeeps: what foreign code promises is assumed of every command: well-formed validity times of new certificates, and names and object identifiers on one line. Of a certificate to revoke, whose dates may be malformed, it is assumed that the bytes of its expiry date hold no newline and do not end in a backslash; `Runs.RevokedIsReadBack` tells what depends on it.
