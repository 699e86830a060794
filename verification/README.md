# Verified model of the vault: import, release, pairing, envelopes and sync

A Dafny 4.11 model of the parts of the repository that carry state, parsing or arithmetic. `dafny verify dfyconfig.toml`
checks everything. Code that the repository writes as loops and objects is written here as methods and classes and proved
against functions on values; the results are then lemmas about those functions, over every input or every run. The second
module of each pair below says what these functions answer without naming them: in terms of the cells of a file, of the
steps taken so far, or of the events of the run before.

| module | what it models |
|---|---|
| `Basics` | options, results, decimal text |
| `Csv`, `CsvPrinting`, `CsvLanguage` | the character loop that reads a CSV file, a grammar it is proved to refine, printing, and the language accepted |
| `ImportOutcomes` | one outcome per row, and the report that follows: the meeting point of analyzer and server |
| `BrowserImport`, `ImportRules` | the analyzer: judging rows and the one-pass duplicate map; and its result said of the cells alone |
| `ImportReport`, `ReportDelivery`, `ReportText` | wire form, the server's validator, the split of the issues, the size of the body, and that it tells the report |
| `ImportPlan`, `PlanOutcomes` | accepted entries turned into sealed items, and how a plan ends |
| `Utf16`, `Base64`, `LegacyStream`, `EncodingVectors` | text as JavaScript holds it, the codecs, the FNV-1a XOR stream, and both against their standards |
| `Envelope`, `EnvelopeForms` | the sealed and legacy envelopes, and what any text opens to |
| `VaultSession`, `SessionHistory` | the Mac's vault session, and its answers said of its history |
| `Bridge`, `BridgeHistory` | the release state machine, and its answers said of the run before |
| `ClaimLoop`, `FillHistory` | the extension's claim loop, and which answer a page gets |
| `PairingHandoff`, `ImportStore` | one handoff from Mac to iPhone, the phone's store and its file |
| `Pairing`, `PairingHistory` | both ends of pairing over whole runs, and their answers said of the run before |
| `LoopbackHttp`, `HttpReading` | receiving a request in chunks and parsing the same bytes again; and how any bytes are read |
| `VaultSync`, `VaultSyncOutcomes` | the server's row store with sync on top, and how one call ends |
| `DevSecrets`, `DevSecretsHistory` | the one-time handoff store with its service, and their answers said of the requests before |

## What is assumed

The host's primitives are function-valued parameters constrained by named predicates, and nothing else is known of them.

- `BrowserImport.Lawful`: an origin produced by URL parsing holds no U+0000. Trimming, NFC and UTF-8 length are otherwise free.
- `Envelope.LawfulHost`: authenticated encryption adds 16 bytes and is undone with the same key, nonce and associated
  data; decoding what was encoded gives the text with unpaired surrogates replaced and without a leading byte-order mark;
  encoding uses at most four bytes a character; JSON parsing reads back the printed envelopes; the base64 decoder reads
  back what the encoder writes, as `Base64.ReferenceDecoderReadsBack` shows a lenient one to do.
- `PairingHandoff.Lawful`: both sides of a key agreement get one secret; what is sealed opens; base64 and the two codecs
  of credential lists read back.
- `VaultSync.Conditions`: which operations of the store fail, and whether a batch in which one record names the deletion
  mark writes null for the records that do not, are free in every call.
- Random ids, tokens, keys, nonces and every reading of a clock are parameters. Nothing says that the clock moves forward
  or, except where a lemma asks for it, that ids differ.

## Findings

- A password or plaintext that begins with U+FEFF, or holds an unpaired surrogate, does not come back from a sealed or
  legacy envelope: decoding drops a leading byte-order mark and encoding replaces such surrogates.
  `Envelope.SealedEnvelopesReopen` and `Envelope.LegacyEnvelopesReopen` give the exact condition.
- A pending release is looked up again by the origin stored in it. `Bridge.ApprovalSucceedsExactlyWhenOriginIsStable`
  shows that an undisturbed approval succeeds exactly when normalizing that origin once more leaves it alone, and
  `Bridge.SomeOriginsAreNeverApproved` gives a normalizer and an origin for which it never does. Whether the platform's URL
  type is such a normalizer is not part of this model.
- A reply to a claim that is lost after the bridge has released the credential spends the approval: the loop then answers
  that approval is still required, or throws when only the body is lost, since that promise is not awaited where errors are
  caught. `ClaimLoop.UnreadyLoopReleasedOnlyIntoALostReply` says exactly when.
- The sync route does not check the body, and an upserted record may name `deleted_at`. One that names it as null makes a
  deleted row live again (`VaultSync.AChangeMayRevive`); `VaultSync.DeletedStaysDeletedExactlyUntilCleared` is exact.
- When two calls overlap, the ownership checks of both may come before either upsert, and a new id then ends with the
  profile that writes last (`VaultSync.OverlappingCreationsMoveARow`). One after another, rows never move.
- A deletion of an id that has no row leaves no mark, so a later change can create it.
  `VaultSync.DeletingIsForGoodExactlyForStoredRows` gives the exact condition.
- A handoff that opens and then fails to import is used up all the same: the id stays consumed
  (`Pairing.DefaultPairingHandoffImporter.ImportHandoff`).
- The associated data of a handoff joins its ids with bars and does not escape them. It names the handoff and its parties
  as long as no id holds a bar (`PairingHistory.AssociatedDataNamesTheParties`), and not otherwise
  (`PairingHistory.BarsMakeAssociatedDataAmbiguous`).
- The phone refuses some handoffs that the Mac's own verifier opens: those with an empty party name or a deadline before
  their creation (`Pairing.PhoneAndMacAgree`).

## Model

| member | source | states |
|---|---|---|
| Csv.ParseCsv | packages/domain/src/browser-import.ts:94-216 | the loop returns what an unbounded grammar reads, cut to the header width, or the same error, on every input |
| Csv.LoopRefinesGrammar | packages/domain/src/browser-import.ts:94-216 | the state machine refines the grammar: extra-fields flag exactly when a record was wider, content flag exactly when a cut field was non-empty |
| Csv.RunRecord | packages/domain/src/browser-import.ts:121-213 | from any position and any fields already read, the loop finishes exactly the fields of the record that the grammar finds there |
| Csv.FieldFinished | packages/domain/src/browser-import.ts:113-134 | finishing a field keeps the cut record in step with the full record, or reports too many header columns |
| Csv.CsvReader.AppendFieldCharacter | packages/domain/src/browser-import.ts:113-119 | a character is kept within the header width and only noted beyond it |
| Csv.CsvReader.FinishField | packages/domain/src/browser-import.ts:121-134 | the new state or error of one finished field |
| Csv.CsvReader.FinishRow | packages/domain/src/browser-import.ts:136-146 | the new state or error of one finished record |
| CsvPrinting.PrintedTableReadsBack | packages/domain/src/browser-import.ts:121-213 | any table, its cells quoted or bare and empty ones included, with any mix of CR, LF and CRLF and an optional last break, reads back cell for cell |
| CsvPrinting.RuledOutPrintingsReadOtherwise | packages/domain/src/browser-import.ts:159-213 | the two printings left out do read otherwise: a lone empty cell without a break is no record, and one between CR and LF vanishes |
| CsvPrinting.RecordBack | packages/domain/src/browser-import.ts:121-134 | one printed record reads back, whatever the cells contain and whatever follows its break |
| CsvLanguage.AcceptsExactlyThePrintings | packages/domain/src/browser-import.ts:94-216 | a text is accepted if and only if it is the printing of some table within the limits, and no printing is ever malformed |
| CsvLanguage.PrintedFileIsRead | packages/domain/src/browser-import.ts:121-213 | the printing of any table is refused for its header width, then for its rows, and otherwise read back; each row keeps its cells up to the header width, whether there were more, and whether those held anything |
| CsvLanguage.ScannedFile | packages/domain/src/browser-import.ts:148-216 | from any accepted text the cells, their quoting and the line breaks are recovered |
| ImportOutcomes.OutcomesAddUp | packages/domain/src/browser-import.ts:360-375 | accepted, malformed and duplicate rows add up to the total |
| ImportOutcomes.IssuesAddUp | packages/domain/src/browser-import.ts:360-375 | there are as many issues as malformed and duplicate rows, and as many duplicate issues as duplicates |
| ImportOutcomes.IssuesFollowRows | packages/domain/src/browser-import.ts:255-375 | issues are in strictly increasing row order and each is that of its own row |
| ImportOutcomes.EveryIssueIsListed | packages/domain/src/browser-import.ts:255-375 | no row that is not accepted goes without its issue |
| BrowserImport.AnalyzeBrowserImport | packages/domain/src/browser-import.ts:218-376 | the loops compute the reference analysis, or the same error; `ImportRules` says what that is |
| BrowserImport.AnalyzeRows | packages/domain/src/browser-import.ts:255-375 | one pass with a keyed map gives the outcome of the rule "duplicate of the first row with the same account" |
| ImportRules.AnalysisFollowsTheRules | packages/domain/src/browser-import.ts:218-376 | a file is refused for the first check on it that fails; otherwise its entries are exactly the rows that pass every check and are first with their account, made of their own cells, and its issues exactly those of all other rows, in order and counted |
| ImportRules.JudgedByTheRules | packages/domain/src/browser-import.ts:259-336 | an accepted row carries the origin of its trimmed URL cell, its trimmed and normalized username, its raw password and its trimmed name; every refusal names the first check that fails on the cells |
| ImportRules.EntriesFollow | packages/domain/src/browser-import.ts:338-357 | an entry is listed if and only if its row passes all checks and no earlier row with the same origin and username does |
| ImportRules.IssuesFollow | packages/domain/src/browser-import.ts:338-357 | an issue is listed if and only if its row fails a check, first that one, or repeats the account of the row it names |
| BrowserImport.KeyInjective | packages/domain/src/browser-import.ts:338-338 | the joined key separates accounts, because origins hold no U+0000 |
| BrowserImport.LookupDecides | packages/domain/src/browser-import.ts:338-357 | the map lookup decides the outcome exactly as the quadratic rule does |
| BrowserImport.FirstRowsStep | packages/domain/src/browser-import.ts:338-357 | the map keeps the first accepted row of every account seen |
| BrowserImport.OutcomesAreRealizable | packages/domain/src/browser-import.ts:338-357 | every duplicate points back at an earlier, accepted row |
| BrowserImport.AcceptedAccountsAreDistinct | packages/domain/src/browser-import.ts:338-357 | no two accepted entries share origin and username |
| BrowserImport.EveryRowIsAccountedFor | packages/domain/src/browser-import.ts:255-375 | each data row is in exactly one place: an entry, a malformed issue, or a duplicate issue naming an accepted earlier row |
| BrowserImport.AcceptedEntriesAreWithinLimits | packages/domain/src/browser-import.ts:268-336 | at most 3,000 entries, each within the byte limits of its fields |
| BrowserImport.ParsedNonEmpty | packages/domain/src/browser-import.ts:148-216 | text that is not empty parses to at least a header and to no more rows than allowed |
| ImportReport.ReasonCodesAgree | apps/api/src/services/import-service.ts:10-23 | the server knows every reason the analyzer can give, and none is taken for a duplicate |
| ImportReport.HonestPasses | apps/api/src/services/import-service.ts:250-386 | completeness: a report that some outcome list produces passes every check |
| ImportReport.PassingIsHonest | apps/api/src/services/import-service.ts:250-386 | soundness: a report that passes is produced by an outcome list of that length |
| ImportReport.ChecksDecideHonesty | apps/api/src/services/import-service.ts:250-386 | the checks accept exactly the reports that some outcome list produces |
| ImportReport.ValidateAndRebuild | apps/api/src/services/import-service.ts:250-386 | the validator returns the report unchanged exactly when it is honest, and refuses it otherwise |
| ImportReport.RebuildIssues | apps/api/src/services/import-service.ts:296-349 | the issue loop accepts ordered, well-formed issues only, rebuilds them unchanged and counts both kinds |
| ImportReport.TargetsAreFree | apps/api/src/services/import-service.ts:364-372 | the set pass decides whether some duplicate points at a row with an issue of its own |
| ImportReport.AnalyzerAndServerAgree | packages/api-client/src/imports.ts:233-260 | every report of the analyzer, in wire form, passes the server's checks |
| ReportDelivery.SplitIssues | apps/api/src/services/import-service.ts:471-486 | the loop puts exactly the duplicate issues into one list and exactly the others into the other, keeping order |
| ReportDelivery.SplitThenMerge | apps/api/src/services/import-service.ts:471-486 | merging the two lists by row number restores the original issues |
| ReportDelivery.HonestReportsFitTheBodyLimit | apps/api/src/routes/imports.ts:15-15 | the JSON body of any honest report of up to 3,000 rows is within half the body limit |
| ReportDelivery.AnalyzerReportsFitTheBodyLimit | packages/api-client/src/imports.ts:233-260 | so is that of every report of the analyzer |
| ReportText.BodyTellsTheReport | packages/api-client/src/imports.ts:233-260 | two reports are sent as the same body only if source, counts and every issue are the same |
| ReportText.SameIssues | packages/api-client/src/imports.ts:233-260 | so are two lists of issues, whatever follows them |
| VaultSession.CompanionVaultSession.CurrentLockState | apps/macos/App/Sources/MacCompanionCore/CompanionVaultSession.swift:130-147 | the state told to the user, and the clearing that a read past the deadline performs |
| VaultSession.CompanionVaultSession.Unlock | apps/macos/App/Sources/MacCompanionCore/CompanionVaultSession.swift:21-41 | the new credentials, deadline and reason in full; `SessionHistory.UnlockKeepsTheNormalizable` says which credentials are kept |
| VaultSession.CompanionVaultSession.FindCredential | apps/macos/App/Sources/MacCompanionCore/CompanionVaultSession.swift:96-117 | what is found and the settled state; `SessionHistory.SearchFindsTheFirst` says that it is the first match and is missed by none |
| VaultSession.CompanionVaultSession.Metadata | apps/macos/App/Sources/MacCompanionCore/CompanionVaultSession.swift:70-94 | exactly the credentials of the origin and profile, while unlocked |
| VaultSession.CompanionVaultSession.CredentialsForPairing | apps/macos/App/Sources/MacCompanionCore/CompanionVaultSession.swift:119-128 | all credentials, while unlocked |
| VaultSession.ExpiryLatches | apps/macos/App/Sources/MacCompanionCore/CompanionVaultSession.swift:130-147 | once expiry has been seen no reading of the clock, however early, unlocks again without a new unlock |
| SessionHistory.UnlockKeepsTheNormalizable | apps/macos/App/Sources/MacCompanionCore/CompanionVaultSession.swift:21-41 | unlocking keeps every credential whose origin normalizes, in order and with its multiplicity, changed in nothing but the origin |
| SessionHistory.NormalizingSelects | apps/macos/App/Sources/MacCompanionCore/CompanionVaultSession.swift:21-41 | the positions kept are strictly increasing and are all those whose origin normalizes |
| SessionHistory.ListingGivesAllMatches | apps/macos/App/Sources/MacCompanionCore/CompanionVaultSession.swift:70-94 | a listing gives every match of origin and profile, in order and as often as it is held |
| SessionHistory.SearchFindsTheFirst | apps/macos/App/Sources/MacCompanionCore/CompanionVaultSession.swift:96-117 | the search finds nothing if and only if nothing matches, and otherwise the match at the least position |
| SessionHistory.SessionTellsItsHistory | apps/macos/App/Sources/MacCompanionCore/CompanionVaultSession.swift:21-68 | after any steps the session is what the last unlock, lock, loss or revocation made it, expired if some later reading was past the deadline |
| SessionHistory.FoundExactlyWhileInForce | apps/macos/App/Sources/MacCompanionCore/CompanionVaultSession.swift:96-147 | over every history a credential is found if and only if the last decision was an unlock still in force, and it is the first given one that matches |
| SessionHistory.HeldExactlyWhileInForce | apps/macos/App/Sources/MacCompanionCore/CompanionVaultSession.swift:119-147 | over every history pairing gets credentials if and only if the last decision was an unlock still in force, and then all that it gave |
| SessionHistory.NothingWithoutUnlocking | apps/macos/App/Sources/MacCompanionCore/CompanionVaultSession.swift:43-68 | after a lock, a loss or a revocation nothing is found, listed or paired, at any reading of the clock, until the next unlock |
| Bridge.CompanionBridgeService.RequestRelease | apps/macos/App/Sources/MacCompanionCore/CompanionBridgeService.swift:37-75 | which refusal or approval request is answered, and what becomes of each of the three fields, with session steps allowed between its two session calls |
| Bridge.CompanionBridgeService.ApprovePendingRelease | apps/macos/App/Sources/MacCompanionCore/CompanionBridgeService.swift:77-112 | a release exactly moves the pending credential to the approved one and answers with it; every other answer with its state |
| Bridge.CompanionBridgeService.ConsumeApprovedRelease | apps/macos/App/Sources/MacCompanionCore/CompanionBridgeService.swift:114-141 | a release hands out the approved credential and leaves none; every other answer with its state |
| Bridge.CompanionBridgeService.DenyPendingRelease | apps/macos/App/Sources/MacCompanionCore/CompanionBridgeService.swift:143-153 | denied if and only if the pending approval has this id, and then no material is left; otherwise nothing changes |
| Bridge.CompanionBridgeService.IsSessionUnlocked | apps/macos/App/Sources/MacCompanionCore/CompanionBridgeService.swift:169-176 | a session found locked drops pending and approved material |
| Bridge.MaterialStep | apps/macos/App/Sources/MacCompanionCore/CompanionBridgeService.swift:37-176 | the only ways material changes: asked, approved, claimed, dropped |
| Bridge.MaterialIsExclusive | apps/macos/App/Sources/MacCompanionCore/CompanionBridgeService.swift:37-176 | at every point of every run pending and approved material never coexist, and the approval shown is that of the pending credential |
| Bridge.ClaimsAreAuthorized | apps/macos/App/Sources/MacCompanionCore/CompanionBridgeService.swift:77-141 | a claim releases only the credential of the latest request, approved after it, neither claimed nor dropped since, and still equal in the session |
| Bridge.OneClaimPerApproval | apps/macos/App/Sources/MacCompanionCore/CompanionBridgeService.swift:114-141 | two releasing claims rest on two different approvals |
| Bridge.ClaimsNeverExceedApprovals | apps/macos/App/Sources/MacCompanionCore/CompanionBridgeService.swift:77-141 | claims, plus one if material is still approved, never exceed approvals |
| Bridge.ApprovalSucceedsExactlyWhenOriginIsStable | apps/macos/App/Sources/MacCompanionCore/CompanionBridgeService.swift:77-112 | an undisturbed approval releases if and only if the stored origin normalizes to itself |
| Bridge.SomeOriginsAreNeverApproved | apps/macos/App/Sources/MacCompanionCore/CompanionVaultSession.swift:149-164 | with a normalizer that drops the brackets of an IPv6 host, a vault unlocked with such a credential answers the request and refuses the approval |
| Bridge.UndisturbedReleaseGoesThrough | apps/macos/App/Sources/MacCompanionCore/CompanionBridgeService.swift:37-141 | request, approval and claim with nothing between release the matching credential and leave no material |
| BridgeHistory.WaitsExactlyWhileUnanswered | apps/macos/App/Sources/MacCompanionCore/CompanionBridgeService.swift:37-176 | over every run an approval is pending if and only if its request has been neither answered nor ended by a newer one, a denial, a clearing or a locked vault |
| BridgeHistory.ApprovedExactlyWhileUnclaimed | apps/macos/App/Sources/MacCompanionCore/CompanionBridgeService.swift:77-141 | over every run a credential is approved if and only if the latest approval has been neither claimed nor ended |
| BridgeHistory.NothingEndedBehindAClaim | apps/macos/App/Sources/MacCompanionCore/CompanionBridgeService.swift:114-176 | between the request behind a releasing claim and that claim there is no denial, no clearing and no locked answer |
| BridgeHistory.EndingLeavesNothing | apps/macos/App/Sources/MacCompanionCore/CompanionBridgeService.swift:143-176 | a denial, a clearing or a locked answer leaves no material at all |
| BridgeHistory.DenialAnswersExactly | apps/macos/App/Sources/MacCompanionCore/CompanionBridgeService.swift:143-153 | over every run a denial answers Denied if and only if the unanswered request is for that id |
| BridgeHistory.ApprovalAnswersExactly | apps/macos/App/Sources/MacCompanionCore/CompanionBridgeService.swift:77-112 | over every run, which of its answers an approval gives, from the events before and the session |
| BridgeHistory.ClaimAnswersExactly | apps/macos/App/Sources/MacCompanionCore/CompanionBridgeService.swift:114-141 | over every run, which of its answers a claim gives, likewise |
| BridgeHistory.RequestAnswersExactly | apps/macos/App/Sources/MacCompanionCore/CompanionBridgeService.swift:37-75 | which of its answers a request gives, whatever is pending or approved |
| BridgeHistory.OperationsOnlyReadTheSession | apps/macos/App/Sources/MacCompanionCore/CompanionBridgeService.swift:37-176 | listing, request, approval and claim leave the session as it was, as their first reading leaves it, or as others and their second reading leave it |
| ClaimLoop.ClaimOverHttp | apps/macos/App/Sources/MacCompanionCore/BridgeHTTPCodec.swift:254-270 | the bridge acts at most once, exactly when it is reached with complete fields, and the client reads its answer, an error, or nothing, as the delivery decides |
| ClaimLoop.ClaimApprovedRelease | apps/browser-extension/src/background/runtime.ts:221-261 | the poll turn by turn: it goes on exactly after credential_not_found, ends ready, thrown, or still needing approval as its last reply says or when 80 attempts are used up; a claim of its own that released is its last event |
| ClaimLoop.BuildFillData | apps/browser-extension/src/background/runtime.ts:263-359 | which answer follows which listing and replies: unavailable, locked, no match, how many matches, a request for a sole match only, and then what its reply and the poll say; a release comes after the fill's own request |
| ClaimLoop.ReadyWasApproved | apps/browser-extension/src/background/runtime.ts:218-359 | in any run around it, "ready" carries the credential approved for this page's origin, id and profile |
| ClaimLoop.ReadyWasApprovedAfterAsking | apps/browser-extension/src/background/runtime.ts:307-335 | and that approval was given after the fill's own request: no earlier approval is ever used |
| ClaimLoop.UnreadyLoopReleasedOnlyIntoALostReply | apps/browser-extension/src/background/mac-companion.ts:72-95 | a loop that is not ready had a releasing claim of its own exactly when that was its last event and the reply was lost |
| ClaimLoop.ReadyLoopsNeverExceedApprovals | apps/browser-extension/src/background/runtime.ts:218-261 | of any set of concurrent loops, one for each client, no more end ready than approvals were given |
| ClaimLoop.ReadyLoopsRestOnDistinctApprovals | apps/browser-extension/src/background/runtime.ts:218-261 | two ready loops of different clients rest on two different approvals |
| FillHistory.PollGoesOn | apps/browser-extension/src/background/runtime.ts:228-254 | a poll reaches attempt k, of 80, if and only if every reply before it was credential_not_found |
| FillHistory.StandingApprovalEndsReady | apps/browser-extension/src/background/runtime.ts:228-246 | an approval for this id, origin and profile that stands at an attempt whose reply is read ends the poll ready there, with its credential, if the attempts before found nothing |
| FillHistory.FillAnswersFollowTheVault | apps/browser-extension/src/background/runtime.ts:275-315 | from the vault as the listing meets it: how many matches are told, the sole match is the one asked for, and none means no match or locked, as the second reading says |
| ClaimLoop.NothingYetExactly | apps/browser-extension/src/background/mac-companion.ts:72-95 | the reply that keeps a poll going is read exactly when the bridge was reached, found nothing to claim, and its answer arrived |
| Base64.DecodeEncode | packages/security/src/argon2-policy.ts:66-85 | decoding undoes encoding in both alphabets |
| Base64.CanonicalDecodersInvertTheEncoder | apps/ios/App/Sources/Features/ProductComposition/IOSProductCompositionView.swift:31-65 | both canonical decoders accept exactly the encodings of non-empty data and invert them, however lenient the platform decoder |
| Base64.LegacyPatternIsTheEncodersImage | packages/security/src/argon2-policy.ts:43-56 | the legacy pattern accepts exactly the image of the padded encoder, and the padding formula is the byte count |
| Base64.DecodePaddedEncodePadded | packages/security/src/argon2-policy.ts:10-10 | padded text matches the pattern and reads back |
| LegacyStream.HashToHex | packages/security/src/vault-envelope.ts:64-74 | the signed 32-bit loop prints FNV-1a modulo 2^32 |
| LegacyStream.SignChangesNothing | packages/security/src/vault-envelope.ts:64-74 | going through a signed 32-bit number loses nothing of the unsigned one |
| LegacyStream.HashPrintsItsTopByte | packages/security/src/vault-envelope.ts:72-84 | the hash is always eight lower-case hex digits, and the first two are its top byte |
| LegacyStream.CreateKeystream | packages/security/src/vault-envelope.ts:76-85 | the buffer holds, at each index, the top byte of the hash of passphrase, salt and index joined by colons |
| LegacyStream.XorWithKeystream | packages/security/src/vault-envelope.ts:87-100 | the loop yields the exclusive-or with the keystream, byte by byte |
| LegacyStream.StreamIsItsOwnInverse | packages/security/src/developer-secret-envelope.ts:54-78 | applying the stream twice gives back every byte |
| EncodingVectors.XorBitByBit | packages/security/src/vault-envelope.ts:87-100 | the exclusive-or has a bit exactly where its operands differ |
| EncodingVectors.PublishedFnv1a | packages/security/src/vault-envelope.ts:64-74 | the hash has the published values of 32-bit FNV-1a for the empty text and for "a" |
| EncodingVectors.GroupsAreNumbers | packages/security/src/argon2-policy.ts:66-85 | a full base64 group writes its three bytes as one number, most significant first |
| Utf16.ComesBackExactly | packages/security/src/vault-envelope.ts:206-214 | a text survives encoding and decoding if and only if its surrogates are paired and it has no leading byte-order mark |
| Utf16.ReplacesOnlyTheUnpaired | packages/security/src/sodium.ts:65-132 | encoding replaces nothing but unpaired surrogates, each by U+FFFD |
| Envelope.SealedIsSupported | packages/security/src/argon2-policy.ts:108-134 | everything sealed meets the policy: cipher, limits, lengths and canonical text |
| Envelope.SealedReopens | packages/security/src/sodium.ts:134-186 | what is sealed opens with the same password to the text as encoding and decoding leave it |
| Envelope.SealedEnvelopeIsRecognised | packages/security/src/vault-envelope.ts:165-218 | the printed envelope stays under the character limit, is supported and is parsed back |
| Envelope.SealedEnvelopesReopen | packages/security/src/sodium.ts:65-186 | sealing succeeds exactly for a non-empty password and a plaintext within the limit; then either kind reopens, to the plaintext if and only if that is well formed and has no leading byte-order mark |
| Envelope.LegacySealIsSupported | packages/security/src/argon2-policy.ts:43-64 | what the legacy scheme wrote passes the legacy recogniser, up to the size limit |
| Envelope.LegacyEnvelopesReopen | packages/security/src/vault-envelope.ts:206-214 | both legacy envelopes reopen to the plaintext if and only if it is well formed and has no leading byte-order mark |
| EnvelopeForms.SealAnswersExactly | packages/security/src/sodium.ts:65-132 | sealing is refused for the first fault of its arguments; otherwise it writes the plaintext encrypted under the password's key and bound to its purpose, with the fixed parameters |
| EnvelopeForms.SupportedExactly | packages/security/src/argon2-policy.ts:108-134 | the policy accepts exactly the values written from a salt of 16 bytes, a nonce of 24 and a ciphertext of 16 to 1,048,592, for a purpose of 1 to 128 bytes |
| EnvelopeForms.SealedOpensExactly | packages/security/src/sodium.ts:134-186 | opening decrypts what such a value was written from, and gives nothing for any other value or without a password |
| EnvelopeForms.LegacySupportedExactly | packages/security/src/argon2-policy.ts:43-64 | the legacy recogniser accepts exactly padded base64 of at most one MiB with a salt and a tag of the right shape |
| EnvelopeForms.LegacyOpensExactly | packages/security/src/vault-envelope.ts:202-218 | the text crossed with the keystream comes back if and only if its hash is the tag |
| EnvelopeForms.VaultOpensByForm | packages/security/src/vault-envelope.ts:180-218 | whatever text is stored, it opens as its version and all that version asks for say, and to nothing without a form |
| EnvelopeForms.SecretOpensByForm | packages/security/src/developer-secret-envelope.ts:147-183 | the same for developer secrets, whose forms have their own versions and purpose |
| EnvelopeForms.StoredPasswordsPassThroughExactly | packages/security/src/vault-envelope.ts:220-249 | a stored text that opens to nothing is given back as it is, unless it looks like JSON or is too long |
| ImportPlan.BuildEncryptedImportPlan | apps/web/src/lib/import/encrypted-import-plan.ts:79-153 | the loop computes the plan of the entries in order, or the first obstacle |
| ImportPlan.DefaultSealIsVersionThree | apps/web/src/lib/import/encrypted-import-plan.ts:52-77 | the strict recogniser accepts every output of the default sealer |
| ImportPlan.ItemsAreInOrder | apps/web/src/lib/import/encrypted-import-plan.ts:97-150 | a plan has one item per entry, in order, each made with the ids before it taken |
| ImportPlan.EveryAnalysisBecomesAPlan | apps/web/src/lib/import/encrypted-import-plan.ts:52-153 | with good ids and the default sealer every analysis becomes a plan with distinct ids; item k opens to entry k's password if and only if that has no leading byte-order mark |
| PlanOutcomes.PlanEndsAtTheFirstObstacle | apps/web/src/lib/import/encrypted-import-plan.ts:79-153 | a plan succeeds if and only if no entry meets an obstacle, with one item for each entry, in order and made of its login; otherwise it fails with the first obstacle of the first entry that meets one |
| PlanOutcomes.VersionThreeExactly | apps/web/src/lib/import/encrypted-import-plan.ts:52-77 | the strict recogniser accepts exactly a text that parses to the nine keys of a sealed vault password, version 3, and no others, with supported values |
| PairingHandoff.Base64UrlReadsBack | apps/macos/App/Sources/MacCompanionCore/CompanionPairingHandoff.swift:397-417 | base64url by way of padded base64 is the unpadded URL-safe encoding, and reads back |
| PairingHandoff.PhoneLinksAreCanonical | apps/ios/App/Sources/Features/ProductComposition/IOSProductCompositionView.swift:31-65 | the phone's link decoder, with its replacements and padding, accepts exactly what its encoder writes |
| PairingHandoff.MadeHandoffIsAccepted | apps/ios/App/Sources/Pairing/PairingPayload.swift:302-352 | what the Mac makes passes every guard of the phone's parser until its deadline, and is expired after it |
| PairingHandoff.MadeHandoffOpens | apps/ios/App/Sources/Pairing/PairingHandoffOpener.swift:81-138 | what the Mac seals for a target opens with that target's key to exactly the credentials |
| Pairing.CompanionPairingSessionCoordinator.StartSession | apps/macos/App/Sources/MacCompanionCore/CompanionPairingSession.swift:113-145 | which error or invite is answered, from the arguments and the session alone, and that nothing but a new invite changes the pending sessions |
| Pairing.CompanionPairingSessionCoordinator.CompleteSession | apps/macos/App/Sources/MacCompanionCore/CompanionPairingSession.swift:147-192 | which error or handoff is answered, and what becomes of the pending and consumed sessions in each case |
| Pairing.OneHandoffPerSessionId | apps/macos/App/Sources/MacCompanionCore/CompanionPairingSession.swift:147-192 | over every run a session id yields at most one handoff, even if the id generator repeats |
| Pairing.HandoffKeepsTheInvitesDeadline | apps/macos/App/Sources/MacCompanionCore/CompanionPairingSession.swift:113-192 | every handoff belongs to an earlier invite with the nonce presented, and has its id, source and deadline |
| Pairing.ConsumedExactlyByHandoff | apps/macos/App/Sources/MacCompanionCore/CompanionPairingSession.swift:147-192 | over every run an id is consumed if and only if a handoff was made under it |
| Pairing.PendingExactlyUntilUsed | apps/macos/App/Sources/MacCompanionCore/CompanionPairingSession.swift:113-192 | over every run the latest invite stays pending until it is handed off, or answered too late or while locked |
| Pairing.AnsweredInviteIsHandedOff | apps/macos/App/Sources/MacCompanionCore/CompanionPairingSession.swift:147-192 | whatever happens in between, a phone that answers the latest invite with its own key gets a handoff if and only if it is in time, the vault is unlocked, the id is unused and no failed answer dropped it |
| PairingHistory.StartAnswersExactly | apps/macos/App/Sources/MacCompanionCore/CompanionPairingSession.swift:113-145 | over every run a start is invited if and only if its time to live is positive, both names are there and the session is unlocked, whatever is pending or consumed; otherwise the error is that of the first check that fails |
| PairingHistory.CompletionAnswersExactly | apps/macos/App/Sources/MacCompanionCore/CompanionPairingSession.swift:147-192 | over every run, which error a completion answers, from the invitations, handoffs and drops before it; and a handoff otherwise, for the parties of the invite and the target |
| PairingHistory.PendingExactlyWhileAnswerable | apps/macos/App/Sources/MacCompanionCore/CompanionPairingSession.swift:113-192 | an id that was never handed off is pending if and only if its latest invitation was not dropped, and then with that invitation |
| PairingHistory.OpeningAnswersExactly | apps/ios/App/Sources/Pairing/PairingHandoffOpener.swift:52-79 | whatever one opener was given before, which of its errors an opening answers, in order, and the payload otherwise |
| PairingHistory.AssociatedDataNamesTheParties | apps/macos/App/Sources/MacCompanionCore/CompanionPairingHandoff.swift:375-389 | no two handoffs between parties without bars in their ids share associated data |
| PairingHistory.ImportingAnswersExactly | apps/ios/App/Sources/Pairing/DefaultPairingHandoffImporter.swift:189-217 | importing answers with the first step that fails, uses the handoff up as soon as it opens, and on success leaves the last credential received under every id |
| PairingHistory.PayloadOpensExactly | apps/ios/App/Sources/Pairing/PairingHandoffOpener.swift:81-138 | a handoff opens to given credentials if and only if it is complete, in order, and its decoded parts decrypt, under the agreed key bound to the parties, to their encoding |
| PairingHistory.FileLoadsExactly | apps/ios/App/Sources/Pairing/PairingHandoffImportStore.swift:182-239 | a file loads if and only if there is none or its envelope, of the known version, lists credentials under distinct ids; a repeated id traps, everything else is invalid |
| Pairing.InviteIsGoodUntilItsDeadline | apps/ios/App/Sources/Pairing/PairingPayload.swift:117-149 | the phone accepts an invite exactly until its deadline |
| Pairing.PairingHandoffOpener.Open | apps/ios/App/Sources/Pairing/PairingHandoffOpener.swift:52-79 | when each error or the credentials are answered, and that exactly an opened id is consumed |
| Pairing.OpenedAtMostOnce | apps/ios/App/Sources/Pairing/PairingHandoffOpener.swift:52-79 | one opener opens an id at most once, and a failed opening consumes nothing |
| Pairing.CompanionPairingHandoffVerifier.Open | apps/macos/App/Sources/MacCompanionCore/CompanionPairingHandoff.swift:114-170 | when each error or the credentials are answered, and that exactly a verified id is consumed |
| Pairing.PhoneAndMacAgree | apps/macos/App/Sources/MacCompanionCore/CompanionPairingHandoff.swift:114-297 | the phone opens exactly what the Mac's verifier opens and names its parties, with the same credentials and ids consumed |
| ImportStore.PairingHandoffImportStore.ImportPayload | apps/ios/App/Sources/Pairing/PairingHandoffImportStore.swift:108-135 | which error is answered, by the items themselves; an empty or invalid payload changes nothing; otherwise the dictionary is overridden, and the file holds it or, if saving fails, is as it was |
| ImportStore.OverriddenLooksUp | apps/ios/App/Sources/Pairing/PairingHandoffImportStore.swift:108-135 | after an import each id holds its last imported credential, or what it held before |
| ImportStore.SavedStoreLoads | apps/ios/App/Sources/Pairing/PairingHandoffImportStore.swift:182-239 | a saved file, sealed with its version and listing the store in any order, opens under its key and loads as the store |
| Pairing.DefaultPairingHandoffImporter.ImportHandoff | apps/ios/App/Sources/Pairing/DefaultPairingHandoffImporter.swift:189-217 | open, import into a copy of the held or configured store, commit: on success the file loads as the new store, on any error store and file are as they were |
| Pairing.TransferPreservesTheVault | apps/ios/App/Sources/Pairing/DefaultPairingHandoffImporter.swift:189-217 | in any run, importing what completion sealed leaves, until the deadline, every credential of the Mac in the phone's store beside what other ids held; an empty or incomplete vault is refused; after the deadline nothing changes |
| LoopbackHttp.ReceiveRequest | apps/macos/App/Sources/MacCompanionCore/LoopbackHTTPServer.swift:78-110 | receiving stops at the first chunk that ends the stream or completes the request, with all bytes so far |
| LoopbackHttp.CompleteStaysComplete | apps/macos/App/Sources/MacCompanionCore/LoopbackHTTPServer.swift:112-140 | whatever arrives later, a complete request stays complete |
| LoopbackHttp.CompleteExactlyAtTheLastByte | apps/macos/App/Sources/MacCompanionCore/LoopbackHTTPServer.swift:112-140 | a printed request is complete, and no proper prefix of it is |
| LoopbackHttp.ReceivingStopsAtTheLastByte | apps/macos/App/Sources/MacCompanionCore/LoopbackHTTPServer.swift:78-140 | for every chunking, receiving stops after the chunk with the last byte and not before |
| LoopbackHttp.Route | apps/macos/App/Sources/MacCompanionCore/LoopbackHTTPServer.swift:49-76 | the routed request of the bytes, whose parts `HttpReading` describes |
| LoopbackHttp.ReadHeaders | apps/macos/App/Sources/MacCompanionCore/LoopbackHTTPServer.swift:58-68 | the loop keeps, for every name, the value of its last line, and skips lines without a colon |
| LoopbackHttp.RouteRecoversTheRequest | apps/macos/App/Sources/MacCompanionCore/LoopbackHTTPServer.swift:49-76 | routing hands on the method, path, lower-cased headers and body that were printed, blank lines in the body included |
| LoopbackHttp.JoinSplit | apps/macos/App/Sources/MacCompanionCore/LoopbackHTTPServer.swift:49-56 | joining what was split with the same separator gives the text back |
| LoopbackHttp.HeadEndsAtBlankLine | apps/macos/App/Sources/MacCompanionCore/LoopbackHTTPServer.swift:112-118 | the first blank line of a printed request is the one after its head |
| HttpReading.CompleteExactly | apps/macos/App/Sources/MacCompanionCore/LoopbackHTTPServer.swift:112-140 | any bytes are complete if and only if their first blank line is there and the length given before it has arrived after it |
| HttpReading.LengthIsTheFirstGiven | apps/macos/App/Sources/MacCompanionCore/LoopbackHTTPServer.swift:120-138 | that length is the one the first line with a length gives, or zero |
| HttpReading.BodyIsWhatFollows | apps/macos/App/Sources/MacCompanionCore/LoopbackHTTPServer.swift:49-56 | the body of any request is what follows the first blank line, byte for byte |
| HttpReading.HeadersAreTheLastGiven | apps/macos/App/Sources/MacCompanionCore/LoopbackHTTPServer.swift:58-68 | whatever the lines are, a name has the trimmed value of the last line that gives it one, and there are no other names |
| HttpReading.TrimCutsBlanks | apps/macos/App/Sources/MacCompanionCore/LoopbackHTTPServer.swift:64-68 | trimming cuts all spaces and tabs off both ends and nothing else |
| VaultSync.VaultItemTable.Upsert | apps/api/src/lib/supabase.ts:370-392 | all records are written, with the deletion mark where one names it, or none; none exactly when an id occurs twice or the database fails |
| VaultSync.VaultItemTable.SoftDelete | apps/api/src/lib/supabase.ts:394-420 | the listed rows of the profile are marked, and no others; or nothing, on failure |
| VaultSync.EveryRowSynced | apps/api/src/services/vault-service.ts:100-131 | row by row, what the ordered writes of a call amount to, however far it gets: deletion over change, marks kept unless written, all else untouched |
| VaultSync.SyncVault | apps/api/src/services/vault-service.ts:85-138 | a conflict exactly when a referenced id is another profile's; every row as described, on success and on every failure; an answer exactly when nothing fails |
| VaultSync.AnswerReflectsTheCall | apps/api/src/services/vault-service.ts:66-77 | live and deleted ids are disjoint and cover the profile's rows; deleted ids are not live; changed ones show the change unless left marked |
| VaultSyncOutcomes.SucceedsExactly | apps/api/src/services/vault-service.ts:85-138 | a call writes, removes and succeeds if and only if it owns every row it names, the ids it keeps differ, and nothing it needs fails |
| VaultSyncOutcomes.LeavesExactly | apps/api/src/services/vault-service.ts:100-131 | what any call leaves under every id, however far it gets: the caller's item with the mark it writes or finds, a marked row, or what was there |
| VaultSyncOutcomes.BatchIsWhatIsKept | apps/api/src/services/vault-service.ts:102-106 | the batch has each change whose id the call does not delete, once and in order |
| VaultSyncOutcomes.UninterruptedStepsAreTheCall | apps/api/src/services/vault-service.ts:109-131 | the check and the two writes of a call, with nothing of another call between them, leave the rows as the call as a whole does |
| VaultSync.OwnersNeverChange | apps/api/src/services/vault-service.ts:105-115 | over every sequence of calls a row never leaves its profile |
| VaultSync.DeletedStaysDeletedExactlyUntilCleared | apps/api/src/lib/supabase.ts:370-420 | over every sequence of calls a deleted row stays deleted if and only if no call writes null into its mark without a deletion after it |
| VaultSync.DeletedStaysDeletedForTypedCalls | apps/api/src/services/vault-service.ts:117-131 | so over calls that keep to their type a deleted row is live again for nobody |
| VaultSync.AChangeMayRevive | apps/api/src/lib/supabase.ts:378-387 | a change that names the mark as null, from the owner, makes a deleted row live |
| VaultSync.DeletingIsForGoodExactlyForStoredRows | apps/api/src/lib/supabase.ts:394-420 | over calls that keep to their type, a deleted id can never be live again in the profile if and only if it had a row |
| VaultSync.OtherProfilesAreUntouched | apps/api/src/services/vault-service.ts:100-131 | calls for other profiles leave a profile's rows exactly as they were |
| VaultSync.RepeatingACallOnlyMovesTimes | apps/api/src/services/vault-service.ts:85-138 | a call repeated later is accepted, answers the same and moves only the times of the rows it deletes |
| VaultSync.DeletedStaysDeletedUnderOverlap | apps/api/src/lib/supabase.ts:370-420 | the same equivalence for the single checks and writes of overlapping calls in any order |
| VaultSync.RowsMoveOnlyBetweenCheckAndUpsert | apps/api/src/services/vault-service.ts:105-123 | when calls overlap, a row moves exactly when another profile's call upserts its id, and then the id was free or the mover's at its check and taken since |
| VaultSync.OverlappingCreationsMoveARow | apps/api/src/services/vault-service.ts:105-123 | two profiles that create one id, both checks first, end with the second owning the row |
| DevSecrets.DevSecretSessionStore.PurgeExpiredRecords | apps/api/src/lib/dev-secret-session-store.ts:36-50 | both loops leave exactly the records with time left |
| DevSecrets.DevSecretSessionStore.CreateHandoff | apps/api/src/lib/dev-secret-session-store.ts:53-65 | the new handoff beside what the purge left |
| DevSecrets.DevSecretSessionStore.ExchangeHandoff | apps/api/src/lib/dev-secret-session-store.ts:67-91 | a good handoff is used up for a session with its owner and target; otherwise nothing but the purge |
| DevSecrets.DevSecretSessionStore.GetCliSession | apps/api/src/lib/dev-secret-session-store.ts:93-97 | the session under the token, if the purge left it |
| DevSecrets.DevSecretsService.GetPrivateRecord | apps/api/src/services/dev-secrets-service.ts:77-101 | the state and answer of a read; `DevSecretsHistory.ReadAnswersExactly` says which |
| DevSecrets.DevSecretsService.PutPrivateRecord | apps/api/src/services/dev-secrets-service.ts:103-125 | the state and answer of a write; `DevSecretsHistory.PutAnswersExactly` says which |
| DevSecrets.HandoffsHaveAnOrigin | apps/api/src/lib/dev-secret-session-store.ts:36-91 | in every run a code is held exactly while its last creation is good at all clock readings since and was not exchanged |
| DevSecrets.ExchangeSucceedsExactlyOnAGoodHandoff | apps/api/src/lib/dev-secret-session-store.ts:67-91 | an exchange succeeds if and only if such a creation exists and has time left now |
| DevSecrets.OneSessionPerHandoff | apps/api/src/lib/dev-secret-session-store.ts:53-91 | a code opens at most one session for each time it was created |
| DevSecrets.SessionsHaveAnOrigin | apps/api/src/lib/dev-secret-session-store.ts:36-97 | a session is held exactly while good at every reading since it was opened, so an expired one never returns even if the clock steps back |
| DevSecrets.SecretsAreReadByTheEntitled | apps/api/src/services/dev-secrets-service.ts:77-101 | a secret read belongs to the owner whose handoff for that very target was exchanged for the token |
| DevSecrets.SecretsAreWrittenByTheEntitled | apps/api/src/services/dev-secrets-service.ts:103-125 | a request changes at most one secret: that owner's, for that target |
| DevSecretsHistory.ReadAnswersExactly | apps/api/src/services/dev-secrets-service.ts:77-101 | over every run a read succeeds if and only if the target is supported, some owner is entitled and stored a secret for it before; it answers the one stored last, and every other case its own error |
| DevSecretsHistory.PutAnswersExactly | apps/api/src/services/dev-secrets-service.ts:103-125 | over every run a write succeeds if and only if the target is supported, the ciphertext is not blank and some owner is entitled, with the error of the first check that fails otherwise |
| DevSecretsHistory.CreationAnswersExactly | apps/api/src/services/dev-secrets-service.ts:46-59 | whatever the server holds, a handoff is created if and only if the target is supported and the account known |
| DevSecretsHistory.ExchangeAnswersExactly | apps/api/src/services/dev-secrets-service.ts:61-75 | an exchange answers its session if and only if a creation of the code is still good, and one error otherwise |
| DevSecretsHistory.EntitledIsAuthorized | apps/api/src/services/dev-secrets-service.ts:77-125 | whoever is entitled is authorized, and as nobody else |
| DevSecretsHistory.SecretsAreTheLatestStored | apps/api/src/services/dev-secrets-service.ts:103-125 | over every run a secret is kept if and only if its owner stored one for that target, and it is the one stored last |

## Left out

- Text: plaintexts and passwords are sequences of UTF-16 units; all other strings are sequences of Unicode characters, as
  text read from a file is. Lengths of envelopes concern ASCII text, where both counts agree.
- Times are whole units of a clock; rounding of `Date` and `TimeInterval` in floating point is not modelled.
- Snapshots of plain objects by property descriptor (import service, API client): inputs are typed data.
- Csv.ParseCsv: reads decoded text; the byte-order mark and the file-size limit are the analyzer's, in `BrowserImport`.
- ImportReport.ValidateAndRebuild: numbers in a request are integers or something else; which non-integers they were is not kept.
- ReportDelivery.AnalyzerReportsFitTheBodyLimit: counts characters of a body that is plain ASCII, for the key order the client writes.
- Envelope.SealedEnvelopesReopen: wiping of keys, the cached start of libsodium and the syntax of Argon2 verifiers are not modelled.
- Envelope.LegacyEnvelopesReopen: no code in the repository writes legacy envelopes any more; the sealer is the reference that the openers undo.
- ImportPlan.BuildEncryptedImportPlan: calls to the id maker, the clock and the sealer are taken as given results, errors included.
- Bridge: each locked method is one step on its own object; session steps fall between the session calls of one operation. Threads are not modelled.
- ClaimLoop.ClaimOverHttp: JSON bodies, pairing tokens and status codes appear only as the outcome the extension acts on.
- ImportStore.PairingHandoffImportStore.ImportPayload: the file is an envelope or unreadable; its JSON, its directory and the order of its list are not modelled.
- PairingHandoff.MadeHandoffOpens: opening with a raw transfer key, which no pairing uses, is not modelled.
- LoopbackHttp.Route: characters stand for bytes; invalid UTF-8, the subtleties of Foundation string search and the printing of responses are not modelled.
- VaultSync.SyncVault: the order of listed rows, the server time and the token and profile lookups are not modelled; records name all columns but the deletion mark.
- DevSecrets: the browser account lookup is a parameter; stored secrets are a map, not the database.
- Receipts, observability, account bootstrap, user interfaces, the keychain, the network and the local credential bridge: input, output or single-branch facts.
