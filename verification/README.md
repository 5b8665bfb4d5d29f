# Verified model of the Lucairn customer tools

This project models six parts of the repository in Dafny and proves properties of them. `dafny verify dfyconfig.toml` checks
everything.

| files | what they model |
|---|---|
| `PunycodeDigits`, `PunycodeDeltas`, `Punycode`, `PunycodeWords` | the RFC 3492 decoder and encoder of the configuration pack, and the `xn--` label check on top of them |
| `GatewayUrl`, `GatewayForms`, `RegFile`, `RegReader`, `DecodedVariants`, `EscapeDecoders`, `EscapeForms` | gateway URLs, the `.reg` writer and its reader, the bounded decoder closure and its three decoders |
| `JsonTree`, `SchemaTypes`, `NumberExpansion`, `Iban`, `SchemaGuard`, `GuardPlaces`, `TextMatchers` | the offline tool-schema guard, from the parsed tree on |
| `Utf8`, `Sha256Spec`, `Sha256` | UTF-8 and SHA-256 in the ServiceNow scripts |
| `SkillPolicy`, `NowAssistStore`, `NowAssist`, `NowAssistHistory` | the protect/seal protocol of the Now Assist adapter |
| `Egress`, `EgressFraming` | HTTP framing in the egress proxy |
| `Expiring`, `DashboardStores` | the session and OIDC state stores of the dashboard |
| `Wrappers`, `AsciiText`, `Arithmetic`, `Decimals` | what several of the above share |

How a file is modelled follows the code. Loops and updated fields are methods and classes, proved equal to a function of the
inputs or of the old state; what that function is good for is then proved about the function. Python strings in the Punycode
files are sequences of code points, because they may hold surrogates, and JavaScript strings are sequences of 16-bit units.

The results in short:

* **Punycode.** The decoder accepts only what the encoder writes, so decoding is injective and the re-encoding test of
  `valid_ace_label` never rejects anything. The other way round, decoding an encoding gives the input back or nothing, with the
  exact condition for nothing, and a size bound under which it never is nothing.
* **Gateway URLs, escapes, `.reg` files.** Which inputs are accepted and what they become is written out, host label by host
  label: an `xn--` label is accepted exactly when it spells a word of allowed letters. A decoder gives back what the escapes in a
  text stand for, so a secret is reported in whichever forms it is written. A `.reg` file without complaint is, up to comments,
  what the writer makes of some pairs.
* **The guard's two walks.** They are related by a simulation on every tree, so a payload refused in the narrower mode is refused
  in the wider one. Filtering one list does not give the other, and a concrete literal shows it. What each mode lets through is
  stated exactly, and so is what a completed walk reports: place by place, where the path alone tells a keyword from a name and
  prose from data.
* **Numbers, IBANs, types.** A number is expanded exactly or refused, and exactly which are refused is stated. A valid IBAN is
  found whatever stands before it. The depth limit on composition can only take exemptions away.
* **Digest.** The in-place code computes the recursive definition of FIPS 180-4 over the UTF-8 of the text.
* **Adapter.** An invariant over all histories with any failures: who may proceed, what evidence there is, which certificate
  belongs to which row, and that each row says what the last seal call that reached it was told.
* **Proxy.** What is sent is a prefix of what was taken, at every point where a connection can break, and exactly one body on
  a normal return. Which head and which body are taken, and with which framing fields, is stated exactly; bodies end where
  RFC 9112 says.
* **Stores.** The collector cannot be observed; what was deleted stays gone, and what is touched in time stays.

Where the code differs from what its comments say, the model follows the code:

* `LucairnNowAssistAdapter.js:311-314` says that the outer handler of `seal` runs only before a certificate is minted. The client
  reads its clock outside any handler after the answer has arrived (`LucairnClient.js:231`), so an exception there is reported as
  "no certificate exists" about one that does. `NowAssistHistory.DeniedCertificate` says exactly when that happens,
  `NowAssistHistory.PlatformErrorAfterTheCertificate` gives a history in which it does, and
  `NowAssistHistory.LostCertificate` says exactly which calls leave a certificate behind that the caller is not told of.
* `LucairnEvidence.js` checks only some columns before it reports a row as stored. A table without `cert_id_partial` keeps rows
  that can be sealed and name no identifier. `NowAssistHistory.SealedRowNamesItsCertificate` states when a sealed row does name it,
  and `NowAssistHistory.SealedRowWithoutItsColumn` shows one that does not.
* `lucairn-tool-schema-guard.py:119-123` says that a name that itself matched is fingerprinted in every pointer through it. The
  pass for repeated names scans only the repeated name, not those above it. `SchemaGuard.PointersDiscreetExactly` says exactly when
  the promise is kept, and `TextMatchers.AncestorIsSpelledOut` gives a payload for which it is not.

## Model

| member | source | states |
|---|---|---|
| Punycode.EncodeDecode | config-pack/render.py:211-303 | Every text the decoder accepts is the encoding of what it decodes to (sections 3.3 and 6 of RFC 3492). |
| Punycode.DecodeInjective | config-pack/render.py:229-270 | No two texts decode to the same code points. |
| Punycode.DecodeEncode | config-pack/render.py:229-303 | Decoding an encoding gives the same code points back, or nothing: nothing exactly when one of them is a surrogate or above 0x10FFFF, or an overflow cut-off fires on one of the deltas. |
| Punycode.DecodableExactly | config-pack/render.py:262-268 | The decoder's checks on its running `n` refuse exactly the lists with a code point that is a surrogate or out of range. |
| Punycode.DecodeEncodeBounded | config-pack/render.py:229-303 | For non-surrogate code points with 35 * (max + 1) * (length + 1) at most 0x7FFFFFFF neither cut-off fires and the round trip succeeds. |
| Punycode.EncodeInjective | config-pack/render.py:273-303 | Different lists of code points have different encodings, also those that the decoder would refuse. |
| Punycode.PunycodeDecode | config-pack/render.py:229-270 | The nested loops, with their cut-offs, compute the decoder the round trips are about, and end. |
| Punycode.PunycodeEncode | config-pack/render.py:273-303 | The nested loops compute the encoder the round trips are about, in code point and position order, and end. |
| PunycodeDigits.ReadIntSound | config-pack/render.py:240-261 | A variable-length integer has one spelling: the digits that were read are the ones the encoder writes for the value. |
| PunycodeDigits.ReadIntOfEncInt | config-pack/render.py:240-261 | Reading back the digits of a value gives the value, unless a cut-off fires. |
| PunycodeDigits.EncIntPrefixFree | config-pack/render.py:288-297 | Under a known bias no spelling of a delta is the start of another one. |
| PunycodeDigits.PunyAdapt | config-pack/render.py:211-218 | The loop of the bias adaptation computes section 6.1 of RFC 3492. |
| PunycodeDigits.AdaptExactly | config-pack/render.py:211-218 | The bias in plain arithmetic: how often the damped delta is divided by 35 until it is at most 455, 36 for each division, and the last quotient. |
| PunycodeDeltas.ApplyDeltas | config-pack/render.py:262-270 | Inserting by deltas what was peeled off by deltas gives the list back. |
| PunycodeDeltas.DeltasApply | config-pack/render.py:262-303 | Any list of deltas is the list of deltas of what it decodes to. |
| Punycode.AceReencodeRedundant | config-pack/render.py:328-337 | The last test of `valid_ace_label` never rejects a label the other tests accept. |
| Punycode.EveryIdnWordHasALabel | config-pack/render.py:306-337 | Any word of at most 63 allowed letters, one of them not ASCII, has a label that `valid_ace_label` accepts and that decodes to it. |
| Punycode.AceLabelsDistinct | config-pack/render.py:328-337 | Two accepted labels that show the same word differ at most in letter case. |
| PunycodeWords.LettersExactly | config-pack/render.py:306-325 | The letters a label may show, one by one. |
| PunycodeWords.WordEncoded | config-pack/render.py:229-303 | A word with three letters that are not ASCII, and its text: `äöü` and `4ca0bs`. |
| GatewayUrl.AcceptedExactly | config-pack/render.py:340-384 | Which inputs are accepted: between boundary spaces, the spelling of a valid host, a valid port and a path of plain segments. |
| GatewayForms.HostExactly | config-pack/render.py:340-355 | Exactly which hosts are accepted: at most 253 characters, labels of 1 to 63 letters, digits and inner hyphens, each `xn--` label the form of a word of allowed letters, and a last label that reads as a number only in a dotted quad. |
| GatewayForms.AceExactly | config-pack/render.py:328-337 | The test of an `xn--` label of a host accepts exactly the forms of such words, in any letter case. |
| GatewayForms.NormalizedExactly | config-pack/render.py:363-384 | Which inputs are accepted and what they become: a host, a port from 1 to 65535 and plain segments, between boundary spaces and with any number of slashes behind, become the URL of those without `:443`. |
| GatewayForms.StripExactly | config-pack/render.py:196-197 | Boundary spaces are blanks, tabs and line ends, and all of them go. |
| GatewayUrl.NumericHostExactly | config-pack/render.py:340-355 | A host whose last label URL parsers read as a number is accepted exactly when it is a dotted quad in its one plain spelling. |
| GatewayUrl.WordHostExactly | config-pack/render.py:328-355 | Of the `xn--` labels of words of allowed letters, one of them not ASCII, the host test accepts exactly those of at most 63 characters. |
| GatewayUrl.NormalizeIdempotent | config-pack/render.py:363-384 | Normalising an accepted input again changes nothing and refuses nothing. |
| GatewayUrl.NormalizedReads | config-pack/render.py:363-395 | `gateway_host` and `gateway_port` recover the parsed host and the effective port from the result. |
| GatewayUrl.SameUrlSameEndpoint | config-pack/render.py:363-384 | Two accepted inputs get the same URL exactly when they name the same host, effective port and path up to trailing slashes. |
| RegFile.RegRoundTrip | config-pack/check.py:411-443 | For a registry key that is one ASCII line, reading what was written complains exactly when two names differ at most in case, and of nothing else; without that, it returns exactly the names and values that were written. |
| RegFile.AcceptedExactly | config-pack/check.py:411-443 | For every registry key, the reader complains of nothing in what was written exactly when the key is one ASCII line and no two names differ at most in case. |
| RegFile.UnescapeEscape | config-pack/render.py:443-454 | Unescaping undoes the two replacements of the writer. |
| RegFile.MatchPairLine | config-pack/check.py:73 | The line pattern finds the escaped name and value of every written line. |
| RegFile.RenderReg | config-pack/render.py:549-565 | The writer's loop writes the lines that the round trip is about, or refuses. |
| RegFile.RefusedExactly | config-pack/render.py:443-565 | The writer refuses no pairs at all and any control or non-ASCII character, and nothing else. |
| RegFile.CheckReg | config-pack/check.py:411-443 | The reader's loop computes the values and complaints that the round trip is about. |
| RegFile.DictionaryIsThePairs | config-pack/check.py:423-437 | With distinct names, the values read are the pairs themselves. |
| RegReader.CleanExactly | config-pack/check.py:411-443 | Exactly which files draw no complaint, whoever wrote them: a header and, up to comments and blank lines, the section and the lines of some pairs with distinct names; and exactly those pairs are read. |
| DecodedVariants.Variants | config-pack/render.py:153-169 | The list has no repeats and holds exactly the images of the value under chains of at most four decoders. |
| DecodedVariants.SecretShapeIn | config-pack/render.py:172-179 | A shape is reported exactly when some such chain exhibits one, and it is one that a chain exhibits. |
| EscapeForms.DecodersExactly | config-pack/render.py:105-150 | Exactly what each decoder makes of a text: what its units stand for, where a unit is one of the six backslash forms, a decimal, hexadecimal or named reference, a percent escape, or a character of its own. |
| EscapeForms.EveryCharacterHasForms | config-pack/render.py:115-150 | Any character can be written in braces or as a decimal reference, and any byte behind a percent sign, with digits in either case and anything behind it. |
| EscapeForms.SecretShapeIn | config-pack/render.py:153-179 | With the decoders it has, a shape is reported exactly when the value is a text of that kind, written at most four times over in whichever of these forms. |
| EscapeDecoders.DecodersShrink | config-pack/render.py:119-150 | Each of the three decoders leaves a text alone or makes it shorter. |
| EscapeDecoders.DecodedVariantsOf | config-pack/render.py:153-169 | With these decoders, every variant but the value itself is shorter than the value. |
| DecodedVariants.ClosedHoldsEveryChain | config-pack/render.py:160-168 | Once a round finds nothing new, the list holds chains of every length, so stopping early loses nothing. |
| SchemaGuard.TwoWalks | bin/lucairn-tool-schema-guard.py:956-1107 | On every tree each strict finding lies at the path of a permissive one, none is a digit run, and without a digit run in the permissive list the two lists are equal. |
| SchemaGuard.HighConfidenceImpliesRefuse | bin/lucairn-tool-schema-guard.py:1080-1107 | What `refuse_high_confidence` refuses, `refuse` refuses. |
| SchemaGuard.FilteringIsNotEnough | bin/lucairn-tool-schema-guard.py:501-521 | For any matchers: a literal that the digit-run matcher hits and that expands beyond bounds is refused in the narrower mode although filtering the wider list would leave nothing. |
| SchemaGuard.SuchALiteral | bin/lucairn-tool-schema-guard.py:435-498 | The literal `12345678901e20000` expands beyond bounds. |
| TextMatchers.FilteringLosesALiteral | bin/lucairn-tool-schema-guard.py:380-521 | With the patterns of the guard, `12345678901e20000` is such a literal. |
| TextMatchers.DigitRunPattern | bin/lucairn-tool-schema-guard.py:150 | The digit-run pattern with its boundaries matches somewhere exactly when ten digits stand in a row. |
| TextMatchers.EmailPattern | bin/lucairn-tool-schema-guard.py:149 | The e-mail pattern with its counts matches somewhere exactly when one character of a local part, an at sign, a domain, a dot and two letters stand in a row. |
| SchemaGuard.DuplicateExact | bin/lucairn-tool-schema-guard.py:1038-1067 | The pre-pass reports a repeated name exactly when some object anywhere repeats one. |
| SchemaGuard.WalkCounts | bin/lucairn-tool-schema-guard.py:956-1035 | Without a repeated name, a walk that is not cut short visits every value of the tree once. |
| SchemaGuard.SilentWalk | bin/lucairn-tool-schema-guard.py:956-1035 | A walk that adds no finding was not cut short, and hits nothing anywhere: no name as an identifier, no string in the context where it stands, no number that is not exempt there, as written or expanded. |
| SchemaGuard.WalkFindsExactly | bin/lucairn-tool-schema-guard.py:956-1035 | A walk that is not cut short, on a tree without repeated names, reports exactly the hits: each has its finding at its path, and each new finding is one. |
| SchemaGuard.QuietWalk | bin/lucairn-tool-schema-guard.py:956-1035 | The other way round: on a tree within the budgets in which no scan hits anything, a walk adds no finding and is not cut short. |
| SchemaGuard.ForwardedExactly | bin/lucairn-tool-schema-guard.py:1350-1357 | A refusing mode lets a payload through exactly when it is an array without repeated names, within the node and depth budgets, in which the scans of that mode hit no name, string or non-exempt number. |
| SchemaGuard.ForwardedIsClean | bin/lucairn-tool-schema-guard.py:1350-1357 | In particular no string or name in it has the shape of an IBAN or an e-mail address, as written or folded, wherever it stands and in whichever mode. |
| GuardPlaces.ForwardedPlaces | bin/lucairn-tool-schema-guard.py:956-1035 | The same told place by place, without the context that the walk hands down: no text of IBAN or e-mail shape anywhere, no digit run under `refuse` except in prose, no number that matches, as written or expanded, except the bounds that keywords set. |
| GuardPlaces.NoRunInData | bin/lucairn-tool-schema-guard.py:351-360 | What `refuse` forwards has no digit run below a keyword that holds instance data, also not below a member named `description` in there. |
| GuardPlaces.OnlyProseEscapes | bin/lucairn-tool-schema-guard.py:351-394 | A digit run that `refuse` forwards has one of the four prose keywords as the innermost keyword around it, and no instance data around that. |
| GuardPlaces.NamesHoldNoProse | bin/lucairn-tool-schema-guard.py:979-997 | A name below `properties` and its like is no keyword: neither prose nor data nor a bound. |
| GuardPlaces.ReportedPlaces | bin/lucairn-tool-schema-guard.py:956-1035 | The findings of a completed walk are the matches at its places, with the path and the kind of each. |
| GuardPlaces.CutShortSaysWhy | bin/lucairn-tool-schema-guard.py:942-962 | The last finding of a walk that was cut short says why, and of which place: too many nodes, too deep, or a number there that is no bound and expands beyond bounds. |
| GuardPlaces.ClassExactly | bin/lucairn-tool-schema-guard.py:380-417 | The class of a finding is one that the text shows, as written or folded, and an IBAN goes before an address and both before a digit run. |
| SchemaGuard.WalkDiscreet | bin/lucairn-tool-schema-guard.py:940-1035 | In every walk, stopped or not, each name on the path of a finding that matches by itself is among the names shown as fingerprints. |
| SchemaGuard.PointersDiscreetExactly | bin/lucairn-tool-schema-guard.py:1262-1291 | The pointers of a report spell out no name that matches by itself, except for a repeated name below another name that matches, and there they do. |
| TextMatchers.AncestorIsSpelledOut | bin/lucairn-tool-schema-guard.py:1038-1067 | A payload of the exceptional kind: the pointer to the repeated name shows `patient_1234567890`. |
| SchemaGuard.Walker.WalkNode | bin/lucairn-tool-schema-guard.py:923-1035 | The walker that updates its fields and its path computes the walk of the theorems and restores the path. |
| JsonTree.EntriesAreLookups | bin/lucairn-tool-schema-guard.py:706-709 | The decoded view of an object holds for each name what a lookup gives: the last one written. |
| JsonTree.LessExactly | bin/lucairn-tool-schema-guard.py:965-969 | Names are visited in the order of their code points. |
| NumberExpansion.ExpandExact | bin/lucairn-tool-schema-guard.py:435-498 | An expanded literal of section 6 of RFC 8259 denotes exactly its magnitude, has no superfluous zeros, and has at most 1026 characters. |
| NumberExpansion.CanonicalUnique | bin/lucairn-tool-schema-guard.py:482-498 | Two canonical decimals of the same value are the same text. |
| NumberExpansion.EqualMagnitudeEqualText | bin/lucairn-tool-schema-guard.py:435-498 | Literals of equal magnitude that both expand are matched on the same text. |
| NumberExpansion.TooLongExactly | bin/lucairn-tool-schema-guard.py:463-481 | Exactly which literals are refused as over-long; no literal is taken for something else than a number. |
| NumberExpansion.ExpandJsonNumber | bin/lucairn-tool-schema-guard.py:435-498 | The code, step by step, computes the expansion of the theorems. |
| SchemaTypes.CollectExact | bin/lucairn-tool-schema-guard.py:766-804 | The collector that stops at the first malformed part agrees with a reference that looks at every part. |
| SchemaTypes.LimitFailsClosed | bin/lucairn-tool-schema-guard.py:766-812 | The depth limit turns the unlimited answer into "malformed" exactly when it hides something, and changes nothing otherwise. |
| SchemaTypes.LimitGrantsNothing | bin/lucairn-tool-schema-guard.py:363-377 | For every keyword, an exemption granted with the limit is granted without it. |
| SchemaTypes.ExemptExactly | bin/lucairn-tool-schema-guard.py:363-377 | Exactly when a node without a type of its own is exempt for a keyword. |
| SchemaTypes.ExemptByType | bin/lucairn-tool-schema-guard.py:728-745 | Exactly when a node with a type of its own is exempt for a keyword: the type is a name or a list of names, and one of them fits. |
| SchemaTypes.BoundsByName | bin/lucairn-tool-schema-guard.py:363-377 | Which types a keyword can bound: what its name ends with, or numbers. |
| SchemaTypes.CollectCompositionTypes | bin/lucairn-tool-schema-guard.py:766-804 | The recursive code that updates a shared cell computes the collector of the theorems. |
| Iban.IbanCandidateChecksum | bin/lucairn-tool-schema-guard.py:175-201 | The rotated loop computes the residue of the whole digit-expanded number modulo 97 (ISO 7064 MOD 97-10). |
| Iban.GeneratedPasses | bin/lucairn-tool-schema-guard.py:175-201 | Check digits made as ISO 7064 says, 98 less the residue of the number with zeros in their place, always pass. |
| Iban.OneWrongCharacterFails | bin/lucairn-tool-schema-guard.py:175-201 | One digit typed as another, or one letter as another, always makes a passing candidate fail. |
| Iban.ContainsChecksumValidIban | bin/lucairn-tool-schema-guard.py:204-225 | True exactly when some candidate anywhere has a verdict other than failed, however many decoys share a separator with it. |
| Iban.SearchLeftmost | bin/lucairn-tool-schema-guard.py:145-148 | The pattern search finds the leftmost match from a position, or there is none. |
| Utf8.BytesDenote | servicenow/src/script_includes/LucairnSha256.js:48-84 | Decoding the bytes by section 3 of RFC 3629 gives the string with each lone surrogate replaced by U+FFFD. |
| Utf8.DecodeEncode | servicenow/src/script_includes/LucairnSha256.js:48-84 | The decoder of section 3 of RFC 3629 undoes the encoder. |
| Utf8.BytesInjective | servicenow/src/script_includes/LucairnSha256.js:39-84 | Different well-formed strings have different bytes, so a digest is a digest of the text. |
| Utf8.Utf8Bytes | servicenow/src/script_includes/LucairnSha256.js:48-84 | The loop over units pushes those bytes. |
| Utf8.Utf8ByteLength | servicenow/src/script_includes/LucairnClient.js:511-533 | The second width function counts exactly the bytes the other file's encoder writes. |
| Utf8.CapUtf8Bytes | servicenow/src/script_includes/LucairnClient.js:463-502 | For a positive limit the result is the longest prefix of whole characters that fits, and its bytes are a prefix of the string's. |
| Utf8.CapLongest | servicenow/src/script_includes/LucairnClient.js:463-502 | The cap is a boundary that fits, and no later boundary does. |
| Sha256.HexOfBytes | servicenow/src/script_includes/LucairnSha256.js:99-175 | Padding, schedule and compression in place give the digest of FIPS 180-4 (sections 5.1.1, 5.2.1 and 6.2.2), in hexadecimal. |
| Sha256.LengthWords | servicenow/src/script_includes/LucairnSha256.js:106-119 | The two length words are the 64-bit length in bits, most significant byte first. |
| Sha256.PadMessage | servicenow/src/script_includes/LucairnSha256.js:105-119 | The pushes compute the padding of section 5.1.1. |
| Sha256Spec.PadInjective | servicenow/src/script_includes/LucairnSha256.js:105-119 | Different messages are padded differently. |
| Sha256Spec.ZeroCountLeast | servicenow/src/script_includes/LucairnSha256.js:109-112 | No fewer zeros would fill the block. |
| Sha256.CompressBlock | servicenow/src/script_includes/LucairnSha256.js:138-169 | The loop over the working variables and the additions to the hash value compute one block of section 6.2.2. |
| Sha256.FillSchedule | servicenow/src/script_includes/LucairnSha256.js:121-136 | The array `w` holds the message schedule. |
| Sha256.WireOfUtf8 | servicenow/src/script_includes/LucairnSha256.js:183-186 | What a certificate is bound to: the digest of the UTF-8 of the text. |
| SkillPolicy.LookUp | servicenow/src/script_includes/LucairnConfig.js:268-362 | The policy opens exactly when the lookup saw one row and no second, and its own values name the skill, are active and fail open. |
| SkillPolicy.OpensExactly | servicenow/src/script_includes/LucairnConfig.js:268-362 | The same spelled out: the row's name is the one asked for up to white space around either, and both flags have one of the four values that count as true. |
| NowAssistStore.Evidence.Write | servicenow/src/script_includes/LucairnEvidence.js:143-195 | A write is reported as stored exactly when the schema held and the insert gave an id, and then the row is there. |
| NowAssistStore.Evidence.RecordSeal | servicenow/src/script_includes/LucairnEvidence.js:221-271 | Recording changes the two seal fields of one existing row, and says whether it did. |
| NowAssist.Adapter.Protect | servicenow/src/script_includes/LucairnNowAssistAdapter.js:112-275 | With any call failing or raising, `protect` returns what the flat account of the decision says, and leaves that evidence. |
| NowAssist.Adapter.Decide | servicenow/src/script_includes/LucairnNowAssistAdapter.js:483-570 | The fail-open fork, with its block when the audit row is not stored. |
| NowAssist.Adapter.HardBlock | servicenow/src/script_includes/LucairnNowAssistAdapter.js:620-683 | The last-resort block uses the run's own correlation id, and is only reached before an outcome was recorded. |
| NowAssist.Adapter.Seal | servicenow/src/script_includes/LucairnNowAssistAdapter.js:307-456 | With any call failing or raising, `seal` returns and records what the flat account says. |
| NowAssistHistory.EveryHistory | servicenow/src/script_includes/LucairnNowAssistAdapter.js:112-734 | After every history: allowed uncovered runs have their stored audit row and an open policy, each request belongs to a seal call for a covered run with a stored row and carries the hashes of the texts that were really used, each row in the table, reported or not, was left by exactly one run and has its skill and correlation id, one certificate per identifier, sealed rows and "sealed" answers name a certificate of their own run. |
| NowAssistHistory.RowsTellTheLastSeal | servicenow/src/script_includes/LucairnNowAssistAdapter.js:691-734 | After every history a row says "not attempted" exactly when no seal call reached it, and otherwise the outcome and certificate that the last one was told; who is told `sealRecorded` can rely on it. |
| NowAssistHistory.SealLeavesExactly | servicenow/src/script_includes/LucairnNowAssistAdapter.js:403-456 | What one seal call leaves in the table: its outcome in the row of its run, or nothing. |
| NowAssistHistory.SealedRowNamesItsCertificate | servicenow/src/script_includes/LucairnEvidence.js:78-97 | A sealed row is a covered one, and names a certificate minted for its `cert_id_partial` exactly when it has one. |
| NowAssistHistory.SealedRowWithoutItsColumn | servicenow/src/script_includes/LucairnEvidence.js:60-97 | A history that ends in a sealed row without an identifier. |
| NowAssistHistory.SealedExactly | servicenow/src/script_includes/LucairnNowAssistAdapter.js:324-456 | When the caller is told "sealed", in terms of the arguments, the configuration, the claimed identifiers and the answer. |
| NowAssistHistory.SealErrorsExactly | servicenow/src/script_includes/LucairnNowAssistAdapter.js:324-456 | Which error a seal call reports, each exactly when, and that a sealed one hands out the identifier and address it was sent. |
| NowAssistHistory.RecordingNeverChangesSealed | servicenow/src/script_includes/LucairnNowAssistAdapter.js:403-456 | A recording that fails or raises changes nothing but the report about the recording. |
| NowAssistHistory.RequestSaysWhatWasForwarded | servicenow/src/script_includes/LucairnNowAssistAdapter.js:357-376 | A seal call sends at most one request, and its hashes are of the text that was forwarded and of the response. |
| NowAssistHistory.LostCertificate | servicenow/src/script_includes/LucairnNowAssistAdapter.js:378-401 | Exactly which calls leave a certificate behind although the caller is told it is not sealed. |
| NowAssistHistory.DeniedCertificate | servicenow/src/script_includes/LucairnNowAssistAdapter.js:307-322 | Exactly which calls the outer handler answers with "no certificate exists" although one was minted: those whose client raises after the service has minted it. |
| NowAssistHistory.PlatformErrorAfterTheCertificate | servicenow/src/script_includes/LucairnNowAssistAdapter.js:307-322 | A history of a protect call and a seal call whose result says "no certificate exists" about one that does. |
| NowAssistHistory.AllowedExactly | servicenow/src/script_includes/LucairnNowAssistAdapter.js:135-275 | When a run is allowed, covered or not, in terms of the call, the service's answer and the policy table. |
| NowAssistHistory.ErrorsExactly | servicenow/src/script_includes/LucairnNowAssistAdapter.js:135-275 | Which error a run without coverage reports, each exactly when. |
| NowAssistHistory.CorrelationExactly | servicenow/src/script_includes/LucairnNowAssistAdapter.js:112-150 | Whatever fails, a run has the caller's correlation id, or the generated one. |
| NowAssistHistory.ForwardsTheLeast | servicenow/src/script_includes/LucairnNowAssistAdapter.js:483-500 | What reaches the skill: sanitized text when covered, the least there is under an override, nothing when blocked. |
| NowAssistHistory.RowsAreKept | servicenow/src/script_includes/LucairnEvidence.js:221-271 | Once written, a row keeps everything but its two seal fields through every history that follows. |
| Egress.Body | bin/lucairn-audit-egress.py:112-147 | On a normal return exactly one body was taken and exactly that was sent; otherwise a prefix of what was taken; a healthy destination gets every body that can be delimited, under any short reads. |
| Egress.CopyBytes | bin/lucairn-audit-egress.py:103-109 | Copies exactly the length under any pattern of short reads, or fails having sent a prefix. |
| Egress.ReadHead | bin/lucairn-audit-egress.py:74-100 | Takes exactly the bounded section up to the empty line, with its framing fields. |
| EgressFraming.HeadExactly | bin/lucairn-audit-egress.py:74-100 | Exactly which bytes are taken as a head, and with which fields: a section of field lines within the limit that repeats no framing field; the fields are its framing fields, each with its own value, trimmed and in lower case. |
| EgressFraming.ChunkedExact | bin/lucairn-audit-egress.py:118-135 | A well-formed chunked body of section 7.1 of RFC 9112 is taken, and ends where it was printed to end, with anything behind it. |
| EgressFraming.ChunkedExactly | bin/lucairn-audit-egress.py:112-135 | Exactly which bytes are taken as a chunked body: the prints of messages whose sizes the proxy can read, with data of those sizes and trailers that repeat no framing field. |
| EgressFraming.SizesExactly | bin/lucairn-audit-egress.py:123 | Exactly which sizes can be read: beyond plain hexadecimal they may have a sign, `0x` and single underscores between digits. |
| EgressFraming.IsChunkedExactly | bin/lucairn-audit-egress.py:115-118 | A coding counts as chunked when `chunked` stands behind the last comma, between white space. |
| EgressFraming.MessageExactly | bin/lucairn-audit-egress.py:74-147 | A printed head and the stream behind it: which body is taken, in terms of what the head says, and exactly when nothing is. |
| EgressFraming.BodiesEndWhereTheySay | bin/lucairn-audit-egress.py:112-147 | The same for chunked messages, for a length given as a number, and for messages with neither. |
| EgressFraming.SelfDelimiting | bin/lucairn-audit-egress.py:112-147 | Whatever is accepted as a delimited body is accepted as the same body in front of any other continuation. |
| Expiring.CollectorIsInvisible | apps/dashboard/internal/auth/session.go:81-188 | With a clock that does not go back and the collector's two halves anywhere in between, every answer is the one given without a collector. |
| Expiring.ExpiredStaysExpired | apps/dashboard/internal/auth/session.go:102-157 | Once an entry has expired no request about it succeeds until its identifier is issued again. |
| Expiring.GoneStaysGone | apps/dashboard/internal/auth/session.go:160-164 | Once an entry was deleted or consumed, no request about it succeeds until its identifier is issued again. |
| Expiring.InTouchIsFound | apps/dashboard/internal/auth/session.go:118-157 | A session touched at intervals within its life is found at every touch, with its own contents, however often it is collected. |
| Expiring.SweepExactly | apps/dashboard/internal/auth/session.go:179-188 | A sweep with the cutoff of a moment drops exactly what has expired at that moment. |
| Expiring.ConsumedAtMostOnce | apps/dashboard/internal/auth/oidc_state.go:128-140 | A state is consumed at most as often as it was issued. |
| Expiring.ConsumedInTime | apps/dashboard/internal/auth/oidc_state.go:128-140 | A consumed state was issued before, with the same contents, no longer ago than its life. |
| Expiring.InTimeIsFound | apps/dashboard/internal/auth/oidc_state.go:96-164 | A flow that comes back within its life finds what it was issued with, whatever was collected meanwhile, also with a cutoff computed before it was issued or a clock reading that went stale before the lock. |
| DashboardStores.MemorySessionStore.GetAndTouch | apps/dashboard/internal/auth/session.go:129-141 | The method on the map of mutable records is the event of that name. |
| DashboardStores.MemorySessionStore.Collect | apps/dashboard/internal/auth/session.go:179-188 | The deleting loop under the lock drops exactly the entries last seen before the cutoff. |
| DashboardStores.MemoryOIDCStateStore.Consume | apps/dashboard/internal/auth/oidc_state.go:128-140 | Look-up and deletion in one step are the event of that name. |

## Left out

- Everything that is not a pure decision: sockets, threads, subprocesses, files and their custody, argument parsing, `main` functions, HTML and PDF output, the `.mobileconfig` path, dashboard configuration and SQL.
- Matchers of the guard: the IBAN, e-mail and digit-run patterns and the Unicode folding before a second match are parameters, and the theorems hold for any; only `TextMatchers` fixes the patterns, and the folding nowhere. The fingerprint of a matched name in a path is an injective constructor, without the hash that computes it.
- Iban.ContainsChecksumValidIban: ASCII text; the pattern's case folding outside ASCII is not modelled.
- The JSON text parser, whose hexadecimal escapes are laxer than RFC 8259. The guard's model starts from the parsed tree; trailing content and the rendering and sorting of findings are left out with it.
- NumberExpansion.ExpandJsonNumber: the exponent is read as Python's `int` reads ASCII text, without CPython's limit on the digits of a decimal literal and without the digits and spaces of other scripts.
- Egress.Body: decimal lengths are unbounded, without CPython's limit on digits; the tunnel, the inventory and the request rewriting around the framing are left out.
- Sha256.HexOfBytes: fewer than 2^32 bytes, the length a JavaScript array can have.
- DecodedVariants.SecretShapeIn: the secret patterns are parameters, and the theorem holds for any.
- Adapter diagnostics: message texts, failure classes, durations, redaction counts, placeholder ids and expiry times; each is copied, and none of them decides anything.
- NowAssistHistory.EveryHistory: protect and seal calls are one after the other, a seal call is given an unchanged result of an earlier protect call, platform ids are fresh, and the endpoint claims an identifier once and answers with the certificate it minted. That a sealed row stays sealed is not claimed: a second seal call on the same result overwrites it.
- Expiring.CollectorIsInvisible: times are integers, without the saturation of Go durations at 292 years; identifiers and tokens come from the random source as parameters.
- SkillPolicy.LookUp: names and flags of other types than those `getValue` returns do not match.
- The preprocessor hook, the skill guard, the probe kit, the doctor and compose scripts.
