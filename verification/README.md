# Verification of pow-proxy-wasm

pow-proxy-wasm is a stateless proof-of-work gate for Envoy. A request without
credentials is answered with a signed challenge and a page that solves it; the
solution earns a signed clearance that is bound to the client's address, lets the
client in for half an hour and can be renewed. Everything the filter needs to
remember is in the tokens. An embedded database of address ranges decides who is
challenged, and how hard.

This project is a Dafny 4.11 model of that program, with proofs. It has a model
of each layer, from bytes to whole runs:

- `GoBytes`, `Bits`, `Sorting`: Go strings as byte sequences, fixed-width
  integers, bitwise operators, and what `sort` promises.
- `Base64Url`, `Utf8`, `Json`, `ChallengeJson`: the encodings (section 5 of RFC
  4648, section 4 of RFC 3629, RFC 8259) and the challenge's JSON text, printed
  and read as encoding/json does.
- `Sha256`, `PageSha256`, `PowCheck`: SHA-256 as FIPS 180-4 defines it and as the
  page computes it on signed 32-bit numbers, and the two tests of leading zero
  bits.
- `Tokens`, `TokenOps`, `PowSolver`: the challenge and clearance tokens and the
  `challenge-token` header as functions, the same operations on one shared
  digester and sum buffer, and the two solvers.
- `Cookies`, `CookieItems`, `CookieJar`, `PageCookies`: the two cookie readers, against the
  grammar of section 4.2.1 of RFC 6265 and on headers with valueless items; the
  Set-Cookie printer; and what a client keeps of its lines, attribute by attribute
  (sections 5.2 to 5.4 of RFC 6265), and shows to scripts; and how the page reads
  and writes cookies.
- `Protected`: the compiler and matcher of the `protected` rules.
- `IpRecords`, `IpRange`, `IpScore`, `IpEvidence`, `IpLookup`: the record format,
  prefixes as ranges, the noisy-OR score, which reports are kept, and the lookup.
- `Difficulty`, `Gate`, `Filter`: the difficulty heuristic, what is decided for
  one request and response as functions of the filter's state, and the plugin
  and exchange objects whose handlers update that state in place.
- `Run`, `Simulation`, `Journey`: runs of any number of plugin instances with one
  key and one configuration, requests and responses interleaved; a fleet of the
  objects of `Filter` as the instances of a run; and one client's way through the
  filter.

HMAC-SHA256 under the configured secret is an arbitrary function with 32-byte
results. Time, random bytes, the resolved client address, the connection id and
the scheme are inputs of each step; the random source may fail. A run assumes
that a client presents a valid MAC only of a text the filter has signed, that
client addresses are what `net.IP.String` prints, that the clock does not go
back, and that it stays below 2^56 seconds.

## What the proofs found

- A signed challenge offered as a clearance cookie passes every check of
  `parseClearanceMAC` except the address check, and that check is skipped when
  the client's address is unknown. `Tokens.ChallengeAsClearance` proves it is
  accepted exactly then. The run theorems speak of clients with a known address.
- `hasZ` in the page and `hasLeadingZeroBits` in Go differ past 256 bits, on the
  all-zero hash and on no other (`PowCheck.TestsAgree`).
- The configured difficulty bounds are ordered exactly when the minimum is at
  most 26 or the maximum is at least the minimum (`Difficulty.ConfiguredBounds`).
  A target lowers the difficulty only from above the maximum, which unordered
  bounds allow (`Difficulty.TargetNeverLowers`).
  With a base within six of 2^64 the pressure bump wraps around; the exact
  conditions are `Difficulty.TickRange` and `Difficulty.TickMonotone`.
- README.md of the repository says that `target_difficulty` is clamped to
  `[base, max_difficulty]`. The code clamps it to the resolved difficulty and the
  maximum (main.go:426-427). The two agree exactly when the resolved difficulty is
  the base or the target reaches both (`Difficulty.DocumentedTarget`); with an
  override of 12, a base of 18 and a target of 15 they do not
  (`Difficulty.DocumentedTargetFails`).
- README.md of the repository gives renewed clearances the lifetime
  `renewal_ttl`. That is the cookie's Max-Age only; the signed expiry is always
  1800 seconds after minting (crypt.go:158). A clearance admits for `renewal_ttl`
  seconds exactly when that is 1800 (`Journey.RenewedLifetime`).
- What is known of a client goes through JSON. The client matches its own
  challenge exactly when its address and connection id are valid UTF-8
  (`PowSolver.OwnContextMatches`).
- `normalizeAuthority` is idempotent on well-formed authorities exactly when the
  bare host does not itself end in a single colon and digits, as an IPvFuture
  literal may (`Protected.NormalTwice`, `Protected.IPvFutureIsNotStable`). A port
  is ignored by the rules except after an empty name (`Protected.MatchingIgnoresPort`).
- `prefixRange` is right for every valid prefix except those of IPv4-mapped IPv6
  addresses with 96 to 127 bits, for which it returns one address
  (`IpRange.RangeIsNetwork`).
- `evidenceKey` joins its fields with bars, so reports under different names can
  share a key. For two (source, category) names equal keys mean equal reports
  exactly when the names do not clash, a condition on the names alone
  (`IpEvidence.KeysAreFaithful`); names without bars never do. Dropping reports
  keeps every scored confidence exactly when no name can hide another
  (`IpEvidence.DroppingKeepsConfidences`), and keeps a report of every source
  exactly when clashing names have one source (`IpEvidence.DroppingKeepsSources`).
  A list that scores 0 instead of 100 is `IpEvidence.BarsHideTor`.
- `parseChallengeCookies` keeps the last duplicate, `getCookie` the first: on a
  well-formed cookie string they agree on a name exactly when its first and last
  values are the same (`CookieItems.ReadersAgree`), and two cookies of one name
  tell them apart (`CookieItems.DuplicatesDisagree`).
- `parseChallengeCookies` lets a name run across a semicolon, so it loses a pair
  that follows a valueless item; it recovers exactly the others
  (`CookieItems.ScannerRecovers`). `getCookie` finds them all, and the two agree on
  a name exactly when the first value of all is the last of those recovered
  (`CookieItems.ReadersAgreeOnItems`). On `foo; challenge=x` one finds nothing and
  the other `x` (`CookieItems.BareItemHidesPair`).
- The page's `gc` splits at `; name=` and wants exactly two parts, so with two
  cookies of one name it finds nothing, where the filter reads the last
  (`PageCookies.GcFindsUnique`, `PageCookies.PageAndFilterAgree`).

## Model

| member | source | states |
|---|---|---|
| Base64Url.RoundTrip | crypt.go:137-140 | unpadded URL-safe base64 decodes back to the bytes, for every byte string |
| Base64Url.UrlAlphabetIsPlain | crypt.go:166-174 | no encoded byte is a dot, a cookie separator, a space or a control character |
| Base64Url.PageDecode | challenge.html:51-54 | the page's decoder recovers the bytes of everything the filter encodes |
| Base64Url.GroupIsNumber | crypt.go:137-140 | the four symbols of a group are the digits in base 64 of its three bytes as one number |
| Base64Url.SymbolTable | crypt.go:137-140 | the symbols are the letters, digits, `-` and `_` in the order of section 5 of RFC 4648 |
| Base64Url.Vectors | crypt.go:137-140 | the test vectors of section 10 of RFC 4648 without their padding |
| ChallengeJson.PayloadRoundTrip | crypt.go:76-85 | the challenge's JSON text reads back as the payload with invalid UTF-8 replaced, whatever bytes its strings hold |
| ChallengeJson.MarshalText | crypt.go:76-85 | the text in full: the literal keys in the order of the struct, and `ctx` and `cid` left out when empty |
| ChallengeJson.TakeEscaped | crypt.go:125-128 | an escaped string reads back as its clean form, for all bytes |
| ChallengeJson.LongEscapes | crypt.go:125-128 | control characters, `<`, `>`, `&` and the two JavaScript line ends are printed as six-character escapes, given literally |
| ChallengeJson.KeysIgnoreCase | crypt.go:237-240 | the case of a key's letters does not matter, and a null leaves every field as it is |
| ChallengeJson.TypesMustMatch | crypt.go:76-85 | numbers do not fill text fields nor text numeric ones |
| Json.NumbersRead | crypt.go:237-240 | which texts are numbers: fractions, exponents and signs, and the refused forms |
| Utf8.CleanTwice | crypt.go:237-240 | replacing invalid UTF-8 is idempotent |
| Utf8.RuneIsEncoded | crypt.go:237-240 | every run of bytes taken for a character is the encoding of a scalar value |
| Utf8.EncodedRune | crypt.go:237-240 | and every scalar value's encoding is taken for one character |
| ChallengeJson.MarshalIsObject | crypt.go:125-130 | the text is an object: it starts with a brace, ends with one and is longer than a clearance's fixed prefix |
| ChallengeJson.ParsedStart | crypt.go:237-240 | text that parses into the struct starts with white space, a brace, or the `n` of `null` |
| Sha256.RoundConstantsAreCubeRoots | challenge.html:55 | the page's 64 constants are the first 32 fractional bits of the cube roots of the first 64 primes |
| Sha256.InitialWordsAreSquareRoots | challenge.html:57 | the eight initial words are those of the square roots of the first eight primes |
| Sha256.FunctionBits | challenge.html:57-76 | the six functions of section 4.1.2 of FIPS 180-4 bit by bit: choice, majority, and which bits of a word each sum adds up |
| PageSha256.PadMessage | challenge.html:58-60 | the padded array is the padding of section 5.1.1 of FIPS 180-4, for every message length |
| PageSha256.LoadWords | challenge.html:63 | a block's bytes become its sixteen message words |
| PageSha256.ExtendWords | challenge.html:64-68 | signed shifts and 32-bit wrap-around give the message schedule of section 6.2.2 modulo 2^32 |
| PageSha256.CompressBlock | challenge.html:69-76 | the 64 in-place rounds on signed numbers are those of the standard |
| PageSha256.OutputBytes | challenge.html:80 | the 32 bytes are the eight words, most significant byte first |
| PageSha256.PageHash | challenge.html:56-81 | for every message the page's digest equals SHA-256 as FIPS 180-4 defines it |
| PowCheck.HasLeadingZeroBits | crypt.go:205-220 | true exactly when the first bits of the hash all exist and are 0 |
| PowCheck.HasZ | challenge.html:82 | the page's test is the same, with bits past the end of the hash counting as 0 |
| PowCheck.TestsAgree | crypt.go:203-220 | on 32-byte hashes the two tests agree exactly when at most 256 bits are asked for or the hash is not zero |
| PowCheck.LeadingZerosIsBound | crypt.go:205-220 | b leading zero bits: b is at most 8 times the length and the big-endian value is below 2^(8 len - b), and conversely |
| PowCheck.MoreBitsFewerHashes | crypt.go:205-220 | a hash that meets a difficulty meets every lower one |
| Tokens.IssuedChallengeVerdict | crypt.go:227-275 | the verdict on a solution to an issued challenge: expiry first, then work, then the binding to what JSON kept of the client |
| Tokens.SolutionErrors | crypt.go:227-275 | the verdict on any solution whatever, forged or not: each error exactly when it is the first of form, expiry, signature, work and binding to fail |
| Tokens.PowInputBytes | crypt.go:258-263 | what is hashed ends in the nonce as a 64-bit big-endian number, and starts with the challenge's bytes |
| Tokens.NewPayloadFields | crypt.go:106-123 | a challenge lasts 60 seconds, has difficulty 18 for 0, and names address, connection and salt |
| Tokens.ContextBinding | crypt.go:278-288 | a challenge binds exactly the parts of the identity that are known on the verifier's side (address) or on both sides (connection) |
| Tokens.ClearanceFields | crypt.go:166-186 | a clearance body yields the int64 expiry and the address it was packed from, for every salt |
| Tokens.MintedBytes | crypt.go:153-174 | a minted token's body, byte for byte: the time plus 1800 in bytes 0 to 8, the salt in 8 to 24, the address after that |
| Tokens.SaltsTellTokensApart | crypt.go:153-174 | tokens minted at one time for one address are equal only if their salts are |
| Tokens.TokenText | crypt.go:153-164 | a token is its body, a dot and the encoded MAC of the body |
| Tokens.MintedClearanceParses | crypt.go:311-341 | a minted clearance gives its expiry to the client it is bound to and to a verifier without an address; every other client is refused |
| Tokens.AcceptedClearance | crypt.go:311-341 | an accepted clearance carries a valid MAC over a body that decodes to the presenting client's address |
| Tokens.ClearanceErrors | crypt.go:311-341 | the verdict on any token whatever: which error exactly when, the MAC before the body and the body before the address |
| Tokens.VerifyOrRenew | crypt.go:296-348 | a minted clearance verifies for its client until its expiry and may be renewed in the window after, never both, and for no one else |
| Tokens.SolutionRoundTrip | main.go:387-391 | a solution printed as powcli prints it is the one the filter reads from the header |
| Tokens.SolutionText | test/tools/powcli/main.go:178-204 | the printed text in full, with its literal keys in order |
| Tokens.ChallengeAsClearance | crypt.go:329-338 | a signed challenge passes as a clearance exactly when the verifier has no client address |
| Tokens.ClearanceAsChallenge | crypt.go:232-240 | a signed clearance never parses as a challenge, for every expiry in [0, 2^56) |
| Tokens.KindsDiffer | crypt.go:130-140 | no challenge text equals a clearance body, so the texts signed under the one key never overlap |
| TokenOps.GenerateChallengeMAC | crypt.go:105-141 | on a digester and buffer in any state, the signed challenge is that of its own inputs |
| TokenOps.EncodeClearanceBody | crypt.go:167-174 | the buffer filled in place is expiry, salt and address, in that order; with `Tokens.MintedBytes` that fixes every byte |
| TokenOps.GenerateClearanceMAC | crypt.go:153-164 | on a digester in any state: the token's body decodes to the time plus 1800 seconds in eight bytes, the sixteen bytes of the salt, and the address; the signature is that of the body |
| TokenOps.VerifySolutionMAC | crypt.go:227-275 | the same for verifying a solution, with every error in the source's order |
| TokenOps.ParseClearanceMAC | crypt.go:311-341 | the same for reading a clearance |
| TokenOps.VerifyClearanceMAC | crypt.go:296-305 | the same for verifying one against the clock |
| TokenOps.SharedEqualsFresh | crypt.go:99-101 | over any sequence of calls one shared digester and buffer reply as fresh ones would |
| PowSolver.SolvePoW | test/tools/powcli/main.go:178-204 | the nonce returned is the least that meets the difficulty; failure means that none up to the limit does, malformed input is told apart |
| PowSolver.PageSolve | challenge.html:89-113 | on every challenge the filter can issue, whatever its difficulty: the least nonce for it (18 when it is 0, 256 when it is more), or none below 80 million |
| PowSolver.SolutionIsAccepted | crypt.go:227-275 | the filter accepts such a nonce from the challenged client until the challenge expires |
| PowSolver.OwnContextMatches | crypt.go:278-288 | a client matches its own challenge exactly when its address and connection id are valid UTF-8 |
| PowSolver.CliVerifyIsUnboundVerify | test/tools/powcli/main.go:206-238 | powcli's verifier accepts exactly what the filter accepts from a client it knows nothing about |
| Cookies.ParseChallengeCookies | main.go:654-698 | terminates on every header; its fields are those of the recursive reading of the header |
| Cookies.ScannerTakesLast | main.go:654-698 | on every well-formed cookie string each field is the last value of its name |
| CookieItems.ScannerRecovers | main.go:664-696 | on headers with valueless items each field is the last value of its name among the pairs that do not follow such an item |
| CookieItems.GetCookieFindsFirst | main.go:702-733 | on such headers the value is the first of the name among all pairs, or empty |
| CookieItems.GetCookieTakesFirst | main.go:702-733 | on every well-formed cookie string the value is the first of the name, or empty |
| CookieItems.TightStringsAreRead | main.go:702-733 | cookies separated by `;` without a space are read alike by both readers |
| CookieItems.FourNames | main.go:654-698 | the four names, literally |
| CookieItems.ReadersAgree | main.go:654-733 | on a well-formed cookie string the readers agree on a name exactly when its first and last values are the same |
| CookieItems.ReadersAgreeOnItems | main.go:654-733 | with valueless items they agree exactly when the first value of all pairs is the last of the recovered ones |
| CookieItems.DistinctNamesAgree | main.go:654-733 | with distinct names the readers agree on all four names |
| CookieItems.DuplicatesDisagree | main.go:686-695 | two cookies of one name: the scanner has the second, `getCookie` the first |
| CookieItems.BareItemHidesPair | main.go:670-675 | on `foo; challenge=x` the scanner finds nothing and `getCookie` finds `x` |
| Cookies.StoredAsSet | main.go:620-630 | a client stores exactly the name and value of a printed cookie, whatever its attributes |
| CookieJar.ReceiveSet | main.go:620-630 | a client that gets a printed cookie holds its name and value with path `/`, SameSite Lax, the Max-Age and exactly the flags asked for, or drops the name when Max-Age is not positive |
| CookieJar.SetCookieAttributes | main.go:620-630 | a client that parses the line by section 5.2 of RFC 6265 finds the four fixed attributes and each flag exactly when it was asked for |
| CookieJar.ReceiveClear | main.go:632-643 | a client that gets a cleared cookie drops the name and nothing else |
| CookieJar.ClearCookieAttributes | main.go:632-643 | the same for a cleared cookie; HttpOnly is there for the clearance alone |
| PageCookies.GcFindsUnique | challenge.html:83 | on every well-formed cookie string the page finds a name exactly when one pair has it, and then its value; with two or more it finds nothing |
| PageCookies.PageAndFilterAgree | challenge.html:83 | page and filter read the same of a name exactly when at most one pair has it, or what the filter reads is empty |
| PageCookies.ScIsKept | challenge.html:85 | what the page writes is kept for the seconds given, neither Secure nor HttpOnly |
| Cookies.EchoedClearance | main.go:464-470 | a clearance printed as a cookie and echoed among any other cookies of other names is read back and yields its expiry to its client |
| Protected.NormalizeAuthority | protected.go:116-139 | the loop's result is the lower-case authority without brackets and without the digits after its only colon |
| Protected.CaseDoesNotMatter | protected.go:116-139 | authorities that differ in ASCII case only have the same normal form |
| Protected.NormalOfWellFormed | protected.go:113-139 | the normal form of a well-formed authority is its lower-case host without brackets and without its port, except that a port after an empty name stays |
| Protected.NormalTwice | protected.go:113-139 | normalising again changes nothing exactly when the bare host is itself free of a single trailing port, for every well-formed authority |
| Protected.IPv6LiteralIsStable | protected.go:113-139 | two colons are enough for that, so every IPv6 literal is stable |
| Protected.IPvFutureIsNotStable | protected.go:113-139 | an IPvFuture literal for which a second normalisation drops its tail |
| Protected.WildcardInLabels | protected.go:46-57 | `*.suffix` matches a host exactly when its labels are one non-empty label and then the suffix's labels |
| Protected.CompiledHostMeaning | protected.go:268-284 | a compiled entry matches what its pattern means: one label for a leading wildcard, else the same name |
| Protected.RefusedHosts | protected.go:268-284 | an entry is refused exactly when it is empty, a bare wildcard, or has an asterisk elsewhere than in one leading `*.` |
| Protected.MatchRule | protected.go:68-94 | some host entry and some path prefix match, where an absent list matches anything |
| Protected.MatchProtectedRules | protected.go:100-111 | some rule matches the normalised authority and the path without its query |
| Protected.MatchingIgnoresCaseAndQuery | protected.go:96-139 | letter case and a query string never change the match |
| Protected.MatchingIgnoresPort | protected.go:113-139 | a decimal port never changes the match, for every list of rules, exactly when the name is not empty |
| Protected.CompileProtectedRule | protected.go:179-263 | a rule compiles exactly when it is valid, to a rule with its entries in order; otherwise the reason given is the first thing wrong with it, hosts before paths |
| Protected.ParseProtectedConfig | protected.go:147-175 | the compiled rules are those of the valid entries in order; everything is guarded exactly when none remains |
| Protected.CompileAll | protected.go:156-165 | invalid entries are dropped, each named with what is wrong, without affecting their siblings |
| Protected.ConfigMeaning | protected.go:100-175 | matching the compiled list is the raw rules' meaning: some valid entry whose hosts and paths both admit the request |
| Protected.OneReason | protected.go:179-263 | an entry has exactly one thing wrong with it to report, and none when it is valid |
| Protected.RuleShape | protected.go:179-263 | `{"hosts": [h], "paths": [p]}` is valid exactly when the host compiles and the path is not empty, and then admits exactly what both admit |
| Protected.AbsentOrEmpty | protected.go:188-231 | a missing list and an empty one stand for any; a rule with neither key is not one |
| Protected.DocumentedWildcard | protected.go:46-57 | the wildcard admits one more label, neither none nor two |
| Protected.DocumentedAuthorities | protected.go:113-139 | the authorities of the documentation have the documented normal forms |
| IpRecords.DecodeRecordList | ipintelbin/records.go:10-67 | the reader with its advancing position returns what the layout says, or the first error |
| IpRecords.DecodeEncoded | ipintelbin/records.go:10-82 | decoding undoes the layout for every record list within the limits, whatever bytes follow |
| IpRecords.RecordLayout | ipintelbin/records.go:22-62 | where each field of a record is, and how long each string is |
| IpRecords.LittleEndian | ipintelbin/records.go:45-57 | two- and four-byte numbers are little-endian |
| IpRecords.CountIsChecked | ipintelbin/records.go:16-18 | a block is refused for its count exactly when that is past a million |
| IpRecords.LengthIsChecked | ipintelbin/records.go:74-76 | a string is refused for its length exactly when that is past four megabytes |
| IpRecords.PrefixRejected | ipintelbin/records.go:10-82 | every strict prefix of an encoding is rejected |
| IpRecords.DecodedNeedsBytes | ipintelbin/records.go:10-82 | a decoded list of n records had at least 4 + 56 n bytes of input |
| IpRange.SetHostBits | ipintelbin/types.go:137-148 | or-ing one bit at a time into the array adds 2^hostBits - 1 to a masked address |
| IpRange.PrefixRange | ipintelbin/types.go:128-150 | the two addresses are the masked one and that sum, in the storage form of their family |
| IpRange.RangeEnd | ipintelbin/types.go:128-150 | end = start + 2^hostBits - 1 as big-endian numbers, for every valid prefix but mapped networks |
| IpRange.RangeIsNetwork | ipintelbin/types.go:117-156 | byte-order membership is sharing the prefix bits, for all addresses of the family, exactly when the prefix is not an IPv4-mapped one of 96 to 127 bits |
| IpRange.MappedNetworkMisses | ipintelbin/types.go:128-142 | for those prefixes an address in the network that its range misses |
| IpRange.CompareIsNumeric | ipintelbin/db.go:165-170 | byte-order comparison of equal lengths is numeric comparison |
| IpRange.CompareIsLexicographic | ipintelbin/db.go:238-245 | of different lengths it is the order of words in a dictionary |
| IpScore.ScoreEvidence | ipintelbin/score.go:57-110 | with map keys in any order and ties sorted anyhow: score and verdict are those of the greatest confidences, the categories are each positive-weight category once, strictly ordered; what that gives in numbers is in the five rows below |
| IpScore.WeightTable | ipintelbin/score.go:11-29 | each category reported alone at full confidence scores its weight, a literal, and is the verdict; the weightless ones score nothing |
| IpScore.FullConfidenceVerdict | ipintelbin/score.go:91-101 | among categories of full confidence the verdict is the one that stands first in the order |
| IpScore.WeightsFall | ipintelbin/score.go:31-35 | along the order the positive weights never rise |
| IpScore.TiesByOrder | ipintelbin/score.go:31-35 | mobile, education and government are told apart by their order |
| IpScore.TwoCategories | ipintelbin/score.go:78-104 | two categories combine by the noisy-or: the score is 100 (1 - pq) to the nearest whole number |
| IpScore.MaxConfidences | ipintelbin/score.go:58-76 | the map holds, for each name in the weight table, the greatest clamped confidence reported, if positive |
| IpScore.Combine | ipintelbin/score.go:78-90 | the product over any order of the keys is the one in the fixed order |
| IpScore.BeforeIsTotal | ipintelbin/score.go:91-96 | the comparator never ties two different categories of positive weight |
| IpScore.OrderOfEvidence | ipintelbin/score.go:57-110 | score, categories and verdict depend only on the multiset of the evidence |
| IpScore.AbsorbedEvidence | ipintelbin/score.go:58-76 | one more report changes no confidence exactly when its category is unweighted or already at least as confident |
| IpScore.NoMatchIsAbsorbed | ipintelbin/db.go:228-236 | no-match entries change nothing |
| IpScore.ScoreIsPercent | ipintelbin/score.go:102-108 | the score is in 0..100 and the cut-offs never act |
| IpScore.ScoreCoversCategories | ipintelbin/score.go:84-102 | the score is at least that of every single category |
| IpScore.MoreEvidence | ipintelbin/score.go:57-110 | more, or more confident, evidence never lowers the score |
| Sorting.SortIsStable | ipintelbin/db.go:238-246 | elements the comparator ties keep their order |
| IpLookup.AllRecords | ipintelbin/db.go:132-142 | for a database laid out as a header and compressed blocks end to end, the records its blocks were built from, in order; in general all blocks' records, or the error of the first that cannot be read |
| IpLookup.ImageReadsBack | ipintelbin/db.go:262-288 | each block is read from its own offset: reading an image of record groups gives the groups joined |
| IpLookup.ReadableBlock | ipintelbin/db.go:262-288 | a block that is read has sizes within 64 and 256 megabytes, lies inside the data, and holds exactly the bytes it claims |
| IpLookup.TakeRecord | ipintelbin/db.go:182-207 | after each record the loop's variables are: reports without repeated keys, matched sources, first country, first AS number of the greatest rank |
| IpLookup.Collect | ipintelbin/db.go:161-209 | the nested loops read the visited blocks only, up to the first that cannot be read |
| IpLookup.Lookup | ipintelbin/db.go:146-253 | the answer is drawn from the hits of the visited blocks; errors are a bad address or the first unreadable visited block |
| IpLookup.SkippingFindsAll | ipintelbin/db.go:161-179 | when block entries bound their records, the visited blocks hold the same hits in the same order as all blocks |
| IpLookup.LookupIsScan | ipintelbin/db.go:132-253 | on such a database the answer is that of a scan of all records |
| IpLookup.LookupInImage | ipintelbin/db.go:146-253 | a lookup in an image with honest bounds answers from the records the image was built from |
| IpLookup.OtherBlocksUnread | ipintelbin/db.go:161-170 | a block is read exactly when it is of the address's family and its bounds enclose the address, whatever else is in the index |
| IpLookup.FirstCountry | ipintelbin/db.go:193-195 | the country is that of the first hit that names one |
| IpLookup.FirstOfBestRank | ipintelbin/db.go:196-207 | the AS number and its holder are those of the first hit of the best rank |
| IpLookup.RankOrder | ipintelbin/db.go:196-207 | openasn on a weighted category ranks above openasn on another, and that above any other source |
| IpLookup.AnswerIsUnique | ipintelbin/db.go:146-253 | a lookup has one answer |
| IpLookup.EvidenceIsSorted | ipintelbin/db.go:238-246 | the evidence is a permutation of what was gathered, ordered by source, category and falling confidence, and stable |
| IpLookup.EntriesInOrder | ipintelbin/db.go:238-246 | earlier evidence has the smaller source, then the smaller category, then the greater confidence |
| IpLookup.HitsAreTheNetwork | ipintelbin/types.go:128-150 | a record made from a prefix is hit by exactly the addresses of its family in the network, exactly when the prefix is no mapped network |
| IpEvidence.KeptAreDistinct | ipintelbin/db.go:187-191 | kept reports are among the reports and have distinct keys |
| IpEvidence.EveryKeyIsKept | ipintelbin/db.go:187-191 | every report's key is among the kept ones |
| IpEvidence.MeetExactly | ipintelbin/db.go:290-292 | for two names and confidences: some details give one key exactly when the heads are equal, or one head goes on as the other's key does |
| IpEvidence.KeysAreFaithful | ipintelbin/db.go:290-292 | equal keys mean equal reports, for all confidences and details, exactly when the names do not clash |
| IpEvidence.BarlessNamesNeverClash | ipintelbin/db.go:290-292 | names without bars do not clash |
| IpEvidence.DroppingKeepsConfidences | ipintelbin/db.go:187-191 | deduplication keeps every scored confidence, for every list of reports of these names, exactly when none can hide another |
| IpEvidence.DroppingKeepsSources | ipintelbin/db.go:187-192 | it keeps a report of every reporting source, for every such list, exactly when clashing names have one source |
| IpEvidence.BarsHideTor | ipintelbin/db.go:187-191 | two reports with one key: the list scores 100, what is kept of it 0 |
| IpLookup.ScoreIsOfKept | ipintelbin/db.go:228-247 | no-match entries and sorting do not show in the score |
| IpLookup.ScoreIsOfReports | ipintelbin/db.go:187-247 | the score is that of all reports of the hits and the AS list, when none of their names can hide another |
| IpLookup.SourceIsAccountedFor | ipintelbin/db.go:211-236 | a declared source has a no-match entry exactly when nothing of it matched (the AS list may be silent), and a matched one only if something did; whenever something did, provided clashing names have one source |
| IpLookup.SilentSource | ipintelbin/db.go:228-236 | a declared source that matched nothing has no entry exactly when it is the AS list and there is no AS number |
| IpLookup.ListedAsnIsReported | ipintelbin/db.go:211-224 | a listed AS number is reported as hosting at confidence 60, unless that key is there already |
| Difficulty.ConfiguredBounds | main.go:169-188 | the bounds after start-up, and exactly when they are ordered |
| Difficulty.TickRange | main.go:812-829 | ticks stay between the base and six above it, and below the maximum, exactly when the bump does not visibly wrap |
| Difficulty.TickMonotone | main.go:812-829 | a higher load never gives a lower difficulty, exactly when it cannot wrap or the bounds leave no room |
| Difficulty.PressureSteps | main.go:812-826 | the value for every load, step by step, when there is room above the base |
| Difficulty.EffectiveBounds | main.go:757-787 | the resolved difficulty is in bounds whatever the header says, within six of the base without one, and caching keeps the state so |
| Difficulty.ResolvedSticks | main.go:772-787 | a value from the cache or the shared data is cached, and the next resolution gives it again, whatever is shared by then |
| Difficulty.PublishedReadsBack | main.go:776-833 | what a tick publishes reads back as that number when it fits 32 bits |
| Difficulty.TargetNeverLowers | main.go:425-428 | an ipintel target lowers the difficulty exactly from above the maximum and then to it; otherwise it raises it to itself or to the maximum |
| Difficulty.DocumentedTarget | main.go:426-427 | the documented clamp is the code's exactly when the resolved difficulty is the base or the target reaches both |
| Difficulty.DocumentedTargetFails | main.go:426-427 | an override, base and target for which they differ |
| Gate.StoppedExactlyWhen | main.go:318-456 | a request gets a 403 exactly when it is guarded and brings no clearance in its lifetime or window, no valid solution in cookies or header, is not let pass by ipintel, and a challenge can be made |
| Gate.OneMintAtMost | main.go:461-488 | a response mints one clearance at most, for the request's address, and none unless the request was solved or renewing |
| Gate.ResponseDropsSolution | main.go:461-475 | after a solved exchange the client holds the minted clearance, HttpOnly, for 1800 seconds, Secure as the request was https, and none of its solve cookies; it keeps all else |
| Gate.RenewalIsStored | main.go:477-488 | after a renewal the client holds the renewed clearance, HttpOnly and Secure as the request was https, beside what it had, or none when the configured Max-Age is not positive |
| Gate.ChallengeIsKept | main.go:439-454 | after a 403 the client holds the signed challenge for 60 seconds, not HttpOnly and Secure as the request was https, and no earlier nonce or clearance |
| Gate.ScriptSeesChallenge | main.go:442-448 | the part of that jar that scripts can read holds the challenge and its signature |
| Gate.ReplyHeaders | main.go:442-451 | the 403 is HTML and carries the signature in a `challenge-sig` header too |
| Gate.ClearanceStaysHidden | main.go:442-488 | no jar that a handler leaves behind lets a script see a clearance |
| Gate.SecureIffHttps | main.go:442-488 | a cookie that a handler sets is Secure exactly when its request was https, and has path `/`; other cookies stay as they were |
| Gate.ConfiguredHeaderIsLast | main.go:490-495 | the configured header comes last exactly when it has a name; nothing else is added |
| Gate.IssuedChallenge | main.go:420-440 | a challenge names its client and expires in 60 seconds; its difficulty is the header's within bounds, else the dynamic one as it stands, raised to the target for a client that ipintel singles out |
| Gate.DifficultySticks | main.go:422-440 | two requests without an override: once the first found a dynamic difficulty, the second's challenge has the same, even when the first failed open and the shared data has changed |
| Filter.Plugin.GetEffectiveDifficulty | main.go:757-787 | header, then own value, then shared data, then base; a shared value is cached, and `Simulation.ResolveTwice` shows what that means for the next call |
| Filter.Plugin.RecordChallengeIssued | main.go:802-804 | the 64-bit counter goes up by one, modulo 2^64 |
| Filter.Plugin.OnTick | main.go:808-839 | the counter is drained, the value for its load becomes current and is published in decimal |
| Filter.Plugin.IpintelMatch | ipintel.go:102-112 | the verdict of the lookup, or empty without database, address or readable block |
| Filter.HttpHeaders.OnHttpRequestHeaders | main.go:318-456 | the handler's reply, both objects' new fields and the outcome are those decided for the request |
| Filter.HttpHeaders.OnUncleared | main.go:363-403 | the slow path: a cookie solution before a header solution, and the flags it sets |
| Filter.HttpHeaders.OnUnsolved | main.go:405-456 | the ipintel verdict comes from the database, and decides between passing, a challenge and a harder one |
| Filter.HttpHeaders.IssueChallenge | main.go:420-456 | the difficulty, the counter and the cached value; a random failure admits and counts nothing |
| Filter.HttpHeaders.OnHttpResponseHeaders | main.go:458-497 | the headers added are those due to the exchange's flags, on any digester state, and then the configured one |
| Run.AcceptedWasMinted | main.go:335-356 | a clearance accepted for a known address was minted earlier for it, with the expiry it shows |
| Run.AcceptedWasIssued | main.go:367-403 | an accepted solution answers an issued, unexpired challenge; for a known address, one issued to it |
| Run.RunKeepsInv | main.go:318-497 | in every run every log entry is justified by earlier ones, and every open exchange's flags are those of its request |
| Run.AdmissionHasChain | main.go:334-356 | in every run an admission by clearance of a known address has a mint chain for it, from a solved challenge through renewals in their windows |
| Run.SolutionAnswersChallenge | main.go:366-403 | in every run an accepted solution names an earlier challenge, unexpired, solved, for this client |
| Run.OneMintPerExchange | main.go:458-497 | in every run an exchange is answered once, with one clearance at most, and a stopped one with none |
| Run.RunKeepsDifficulties | main.go:422-440 | in every run every issued difficulty is in bounds, not below the base without an override, and shared and cached values are within six of the base |
| Run.ChallengesAreConserved | main.go:802-810 | in every run, per instance, drained counts plus the live counter equal the challenges issued, modulo 2^64 and exactly until then |
| Simulation.StartInstance | main.go:56-58 | a new plugin object joins a fleet that is in a state of a run |
| Simulation.ServeRequest | main.go:125-132 | a request handler takes the whole fleet to the run's next state, and replies as the log says |
| Simulation.ServeResponse | main.go:458-497 | the same for a response: clearance headers are added exactly when the log records a mint, and the client then holds that clearance |
| Simulation.ServeTick | main.go:808-839 | the same for a tick: the other instances stand as before, with the new shared value |
| Simulation.ResolveTwice | main.go:757-787 | two calls on one plugin with the shared data changed between them: the second gives the first's value |
| Journey.ReplyIsKept | main.go:439-454 | the 403 to a request leaves its challenge and signature where the page's script can read them |
| Journey.SolverIsAdmitted | main.go:366-383 | a challenged client that brings back a solver's nonce in time is admitted by any instance in any state, among any other cookies |
| Journey.PageFindsChallenge | challenge.html:89-91 | after a 403 the page finds the challenge and its signature, whatever other cookies it sees and in whatever order |
| Journey.RunPage | challenge.html:89-147 | from those cookies the page leaves behind a cookie with a least nonce below 80 million for the challenge's difficulty, or there is none |
| Journey.PageIsAdmitted | main.go:366-383 | a client with any cookies is challenged, its page writes a nonce, and the request carrying its cookies in any order before the expiry is taken as solved by any instance |
| Journey.ClearanceIsHonoured | main.go:334-361 | a minted clearance admits its client until it expires, renews within the window, and is then as good as none |
| Journey.RenewedLifetime | main.go:484-485 | a clearance admits for the documented lifetime, at every time of presentation, exactly when that is 1800 seconds |
| Journey.TripIsPossible | main.go:318-497 | the run from challenge through solution and clearance to admission is possible, so the run theorems are not about nothing |

## Left out

- HMAC-SHA256 and the server's SHA-256 are not modelled inside: the first is an arbitrary function, the second the FIPS 180-4 definition; `crypto/rand` is a value that may be missing, constant-time comparison is equality.
- PowSolver.SolvePoW: needs a limit below 2^64 - 1, because at that limit the counter wraps and the source's loop has no exit of its own.
- PowSolver.PageSolve: the progress display, pauses and the conversion of the nonce to a JavaScript number (exact below 80 million) are not modelled. On texts the filter does not issue, `JSON.parse` is taken for the Go parser.
- ChallengeJson.PayloadRoundTrip: encoding/json's limit of 10000 nested values is not modelled.
- CookieJar.ReceiveSet: all lines are for one host and every path below `/`; a client may refuse Secure cookies over plain http, or limit cookies otherwise, and that is not modelled; nor is a jar's clock, so Max-Age is kept but not counted down.
- Protected.CaseDoesNotMatter: ASCII letters only; `strings.ToLower` and `strings.TrimSpace` on other characters are not modelled.
- Protected.ParseProtectedConfig: starts from parsed JSON; problem texts are reasons with rule numbers.
- IpScore.ScoreEvidence: the product is exact; rounding of float64 is not modelled.
- IpScore.Combine: independence of the order of the keys is shown for exact products; a float64 product may depend on it in its last bits.
- IpScore.OrderOfEvidence: the same for the score; categories and verdict do not depend on the product.
- IpScore.MaxConfidences: `Confidence` is an unbounded integer before clamping.
- IpLookup.Lookup: decompression, the JSON form of details and the address parser are parameters; block offsets are unbounded integers, so int64 overflow of an offset sum is not modelled. The index and manifest of the file (`openReader`) are taken as parsed.
- IpRange.PrefixRange: addresses have no zones.
- Filter.HttpHeaders.OnHttpRequestHeaders: is split into four methods along its comments; logging and host-call failures are left out. Client address resolution (`resolveClientIP`, `normalizeIP`) and scheme detection are inputs.
- Run.AdmissionHasChain: for a client without a known address nothing is claimed, since the source binds nothing then.
- Run.RunKeepsInv: tokens signed before the run with the same secret are not presented in it; an exchange gets one response.
- Configuration reading (`OnPluginStart` other than the difficulty bounds, `parseSlidingRenewalConfig`, `parseIPIntelConfig`): the model starts from the configured values.
- `keysOf`, `String` and `detailJSON` only serve the log and the display of details; `db_host.go` opens files.
