# Verification of the key, session and delivery logic

This project models the parts of the repository whose correctness depends on more than one
function, and proves what they are for. It verifies with Dafny 4.11: `dafny verify dfyconfig.toml`.

- **Text and bytes.** `Words` (bits and 32-bit operators), `Radix` (positional notation), `Base32`, `Base64`,
  `Text`, `Aad`: the codecs and the additional authenticated data.
- **The key envelope.** `Primitives` (libraries as a record of functions with an ideal behaviour),
  `Envelope`, `Keys`, `Items`, `Vault`, `VaultRuns`, `VaultProfiles`, `UnlockRpc`: wrapping, rotation, the vault
  object with its auto-lock timer and password changes, over one profile and many, and the call that
  unlocks it.
- **Server-managed items.** `Server` (content and key commitment) and `Backfill` (the migration that
  binds old rows to profiles).
- **Runs and interleavings.** `RateLimit` (over `Arith`), `Framing`, `Tofu`, `Refresh`.
- **Loops and their descriptions.** `JsonDepth`, `EnvKey`, `EnvBulk`, `DotEnv`, `Divergence`.
- **The removal cascade.** `Cascade`.

An object or loop of the program is a class or method here, proved equal to a function of its old
state or its input; the theorems are lemmas about that function, over every run. Where the program
awaits, each stretch between two awaits is one event, and events come in any order. Timers are the
event loop's map from handles to deadlines. Random bytes, clocks and replies are parameters.

Some statements are sharper than one may expect, and some expectations fail:

- The rate limiter admits at most twice the limit *less one* in any interval one window long, and the
  exact maximum for every length is `RateLimit.Most`.
- The backfill succeeds exactly when every eligible row decrypts: one row that does not stops it, and
  stops it again on every later run (`Backfill.StillBlocked`); what was written before stays valid.
- The guard of the backfill's update protects a row that was bound meanwhile, but not one whose
  content alone was changed (`Backfill.GuardedBindExact`, `Backfill.LostUpdate`); and a live update
  read before a row is bound and written after makes it unreadable (`Backfill.StaleUpdateLosesRow`).
- `vault.changePassword` never compares the requested profile with the one unlocked: a record's root
  key survives exactly while changes of it are made with that key held
  (`VaultProfiles.KeyKeptIff`, `VaultRuns.OtherKeyWrapped`).
- The agent client's count of six failures is exact when connect is called with no retry pending; a
  reconnect that fails while attempt k is pending leaves 6 - k (`Refresh.ReconnectKeepsOldRetry`).
- Disconnect stops the refresh loop exactly when no exchange is in flight (`Refresh.DisconnectStopsIff`).
- Requests in one connection begin in order exactly when every chunk that completes one arrives with
  all earlier ones begun (`Framing.InOrderIff`).
- `vault.unlock` tests the lock before an await: overlapping calls can leave a key in memory
  (`UnlockRpc.OverwritePossibleIff`).
- `.env` values with a newline, a double quote, or a backslash next to a quote are escaped on export
  but not unescaped on import, so they do not survive; the exact condition is proved.
- The documentation of `onFirstContact` says it is called exactly once. It stores at most one
  fingerprint exactly when the pin is read back (`Tofu.StoredAtMostOnceIff`); the constructor also
  accepts the callback without the reader, and then it may store twice. A callback that throws is
  called again.

## Model

| member | source | states |
|---|---|---|
| `Base32.ToBase32` | `packages/crypto/src/shared/encoding.ts:38-57` | The two loops over an unmasked accumulator that wraps at 32 bits, with at most 12 pending bits, produce the RFC 4648 section 6 text: the base-32 digits of the big-endian value of the bytes, zero-padded on the right |
| `Base32.FromBase32` | `packages/crypto/src/shared/encoding.ts:60-78` | Decoding gives the bytes whose value is the text's value without the left-over bits, or throws on the first cleaned character outside the alphabet, whatever upper-casing makes of characters beyond ASCII |
| `Words.ShiftIn` | `packages/crypto/src/shared/encoding.ts:44` | One step of the accumulator keeps the pending low bits and appends the new ones although the word wraps |
| `Base32.EmitDigit` | `packages/crypto/src/shared/encoding.ts:46-49` | Taking one digit out of the accumulator with an unsigned shift and a mask leaves exactly the lower bits pending |
| `Base32.PadOut` | `packages/crypto/src/shared/encoding.ts:53-55` | The last digit is the pending bits padded with zeros |
| `Base32.AlphabetSpelled` | `packages/crypto/src/shared/encoding.ts:35` | The alphabet is that of RFC 4648 section 6, Table 3 |
| `Base32.TestVectors` | `packages/crypto/src/shared/encoding.ts:38-57` | The test vectors of section 10 of RFC 4648 for one, two and three bytes |
| `Base32.DashedEveryFive` | `packages/crypto/src/shared/encoding.ts:81-83` | The display form of a text on one line, by position: a dash after every five characters, none at the end, and the characters in between as they were |
| `Base32.SeparatorIgnored` | `packages/crypto/src/shared/encoding.ts:61` | Dashes and white space are ignored wherever they stand |
| `Base32.EitherCase` | `packages/crypto/src/shared/encoding.ts:61` | ASCII letters decode the same in either case |
| `Base32.FormatKeepsMeaning` | `packages/crypto/src/shared/encoding.ts:81-83` | Inserting dashes every five characters changes nothing that decoding looks at, for any text, line terminators included |
| `Base32.RecoveryKeyRoundTrip` | `packages/crypto/src/shared/encoding.ts:38-83` | For every byte sequence the displayed key decodes to it, and the undashed text has ceil(8n/5) characters |
| `Base32.ReverseRoundTrip` | `packages/crypto/src/shared/encoding.ts:38-78` | Text survives decoding and re-encoding exactly when it is canonical: upper-case alphabet characters only, fewer than five bits left over, and those zero |
| `Radix.DecodeEncode` | `packages/crypto/src/shared/encoding.ts:38-78` | Regrouping bytes into w-bit digits and back is the identity for every width up to 8 |
| `Radix.EncodeDecode` | `packages/crypto/src/shared/encoding.ts:38-78` | Regrouping digits into bytes and back is the identity exactly on canonical digit strings |
| `Base64.ToBase64` | `packages/crypto/src/shared/encoding.ts:5-12` | The chunked conversion, `btoa` and the three rewritings give unpadded base64url of the whole input, whatever the chunk boundaries |
| `Base64.FromBase64` | `packages/crypto/src/shared/encoding.ts:15-23` | The rewritings, the forgiving `atob` and the byte-copying loop, or its exception |
| `Base64.RoundTrip` | `packages/crypto/src/shared/encoding.ts:5-23` | Every byte sequence decodes from its own text |
| `Base64.UrlSpelled` | `packages/crypto/src/shared/encoding.ts:5-12` | The characters are the base-64 digits in the alphabet of section 5 of RFC 4648, without padding |
| `Base64.TestVectors` | `packages/crypto/src/shared/encoding.ts:5-12` | The test vectors of section 10 of RFC 4648 for one, two and three bytes |
| `Base64.PaddedRoundTrip` | `packages/crypto/src/shared/encoding.ts:15-23` | Padded text in the standard alphabet decodes as well |
| `Base64.SpaceIgnored` | `packages/crypto/src/shared/encoding.ts:15-17` | `atob` ignores white space wherever it stands |
| `Base64.Injective` | `packages/crypto/src/shared/encoding.ts:5-12` | No text encodes two byte sequences |
| `Aad.Concat` | `packages/crypto/src/shared/aad.ts:38-48` | Filling the buffer part by part gives the concatenation of the parts |
| `Aad.Layout` | `packages/crypto/src/shared/aad.ts:93-199` | The five byte layouts, field by field, with their tags |
| `Aad.U32beExact` | `packages/crypto/src/shared/aad.ts:32-36` | The integer field is the big-endian value modulo 2^32 |
| `Aad.Injective` | `packages/crypto/src/shared/aad.ts:93-199` | Over all five builders at once: for NUL-free identifiers two identities have the same bytes exactly when they are the same identity with integers equal modulo 2^32, so each builder is injective and no two builders ever meet |
| `Aad.U32beUnique` | `packages/crypto/src/shared/aad.ts:32-36` | The integer field is injective modulo 2^32, negative integers included |
| `Aad.FieldUnique` | `packages/crypto/src/shared/aad.ts:18-20` | A NUL-free field followed by a NUL ends at that NUL, whatever follows, NUL bytes of a trailing integer included |
| `Aad.CollisionsOutside` | `packages/crypto/src/shared/aad.ts:93-199` | Both conditions are needed: a NUL inside an identifier and a 33-bit integer each give a collision |
| `Primitives.IdealExists` | `packages/crypto/src/client/keys.ts:30-66` | The ideal behaviour assumed of the primitives is satisfiable |
| `Envelope.Seal` | `packages/crypto/src/client/keys.ts:35-44` | Filling the combined buffer gives base64url of the 24-byte nonce followed by the box |
| `Envelope.OpensAfterNonce` | `packages/crypto/src/client/keys.ts:54-66` | What is opened is the box after the first 24 bytes, with those as the nonce |
| `Envelope.OpenSealed` | `packages/crypto/src/client/keys.ts:54-66` | A sealed text opens exactly with the key and the encoded identity it was sealed with |
| `Envelope.OpenSealedIdentity` | `packages/crypto/src/client/keys.ts:54-66` | For well-formed identities the encoded identity may be replaced by the identity itself |
| `Keys.UnwrapExact` | `packages/crypto/src/client/keys.ts:30-66` | A wrapped root key opens exactly under its wrapping key, for its profile and its key version |
| `Keys.WrappedForm` | `packages/crypto/src/client/keys.ts:30-44` | A wrapped root key decodes to the nonce and the key sealed for its profile and key version |
| `Keys.RecoveryKeyShown` | `packages/crypto/src/client/keys.ts:78-90` | A generated recovery key is the base32 text of its bytes, ceil(8n/5) characters, with a dash after every five |
| `Keys.RecoveryExact` | `packages/crypto/src/client/keys.ts:78-101` | The recovery key, in whatever form it is typed, gives back the root key exactly when it decodes to the recovery bytes; the generated one always does |
| `Keys.ZeroKey` | `packages/crypto/src/client/keys.ts:107-109` | Every byte of the buffer becomes zero |
| `Items.EncryptItem` | `packages/crypto/src/client/items.ts:39-78` | Seals content under the item key and the item key under the root key, each with its identity, and leaves the item-key buffer all zeros |
| `Items.StoredForm` | `packages/crypto/src/client/items.ts:39-78` | The two stored texts decode to a nonce and a box: the item key sealed for profile and item, the content for the content version too, which is 1 when none is given |
| `Items.DecryptExact` | `packages/crypto/src/client/items.ts:87-118` | The item key of one row and the content of another open together exactly when root key, item key, profile, item and content version all agree, and then give that content |
| `Items.RekeyPreserves` | `packages/crypto/src/client/items.ts:128-154` | Re-wrapping succeeds exactly when the old root key opens the item key; the new root key then decrypts any content at any version to what the old one did, and no other root key opens it |
| `Items.RekeyRowsPreserves` | `packages/daemon/src/vault-state.ts:150-165` | Rotating a list succeeds exactly when every item key opens, rewrites no content, and keeps every row's meaning |
| `Items.ChainPreserves` | `packages/daemon/src/vault-state.ts:150-165` | Any number of rotations over any list keeps every row's meaning under the last root key and every content text as it was |
| `Items.StoredItemSurvives` | `packages/crypto/src/client/items.ts:39-154` | For any list of encrypted items and any chain of rotations over it: the item key of row i and the content of row j open together under a root key and an identity exactly when the root key is the last one, the rows share their item key, and profile, item and content version are those stored; so a row decrypts to its plaintext and a different profile, item, version, root key or another row's key fails |
| `Vault.VaultState.constructor` | `packages/daemon/src/vault-state.ts:29-31` | A new vault is locked, without metadata or timer |
| `Vault.VaultState.UnlockWith` | `packages/daemon/src/vault-state.ts:47-65` | Unlock holds the opened key and the metadata and resets the timer, or fails and changes nothing; a key already held is replaced without being zeroed |
| `Vault.VaultState.LockNow` | `packages/daemon/src/vault-state.ts:68-74` | Lock zeroes the held buffer in place, drops it and clears the timer, and keeps the metadata |
| `Vault.VaultState.ChangePasswordTo` | `packages/daemon/src/vault-state.ts:77-108` | The old password is checked against the supplied metadata and the held key is wrapped under the new one |
| `Vault.VaultState.EncryptPayload` | `packages/daemon/src/vault-state.ts:116-125` | Encrypts under the held key and resets the timer; fails when locked |
| `Vault.VaultState.DecryptPayload` | `packages/daemon/src/vault-state.ts:132-143` | Decrypts and parses under the held key; the timer is reset only when both succeed |
| `Vault.VaultState.RekeyItems` | `packages/daemon/src/vault-state.ts:150-165` | Re-wraps all rows under the held key or fails as a whole |
| `Vault.VaultState.ResetTimer` | `packages/daemon/src/vault-state.ts:179-194` | Exactly one new timer replaces the previous one when the period is positive |
| `Vault.VaultState.TimerFires` | `packages/daemon/src/vault-state.ts:182-185` | The callback locks the vault and calls the registered callback if there is one |
| `Vault.VaultState.DestroyVault` | `packages/daemon/src/vault-state.ts:167-170` | Locks and forgets the callback |
| `VaultRuns.LockedRefuses` | `packages/daemon/src/vault-state.ts:172-177` | Without a key every operation that needs one fails and changes nothing |
| `VaultRuns.LocksExact` | `packages/daemon/src/vault-state.ts:68-74` | Locking, destroying and the due auto-lock timer leave no key and no timer, a buffer of zeros, and the metadata; only destroying forgets the callback |
| `VaultRuns.EncryptReplyExact` | `packages/daemon/src/vault-state.ts:116-125` | What encryption answers decrypts to the plaintext under the held key for the given profile, item and version, and under nothing else |
| `VaultRuns.EncryptThenDecrypt` | `packages/daemon/src/vault-state.ts:116-143` | The vault that encrypted a payload decrypts it again |
| `VaultRuns.RekeyReplyExact` | `packages/daemon/src/vault-state.ts:150-165` | Rotation answers exactly when the old root key opens every item key, with rows that say under the held key what the given ones said under the old one |
| `VaultRuns.ChangeReplyForm` | `packages/daemon/src/vault-state.ts:94-107` | A password change answers with the held key sealed under the new password, the new salt and the record's own parameters |
| `VaultRuns.CallbackExact` | `packages/daemon/src/vault-state.ts:167-185` | The callback is there exactly when one was set since the vault was last destroyed |
| `VaultRuns.TimerExact` | `packages/daemon/src/vault-state.ts:179-202` | In every reachable state a locked vault has no armed timer and an unlocked one with a positive period exactly one, due that period after the last operation that succeeded |
| `VaultRuns.StepTimer` | `packages/daemon/src/vault-state.ts:47-202` | One step keeps that, and a failed operation changes nothing at all |
| `VaultRuns.FormerKeysZeroed` | `packages/daemon/src/vault-state.ts:62-74` | Every buffer that formerly held the root key is all zeros exactly when no unlock succeeded on a vault already holding a key |
| `VaultRuns.KeyVersionExact` | `packages/daemon/src/vault-state.ts:37-39` | In every run the reported key version is that of the last unlock that succeeded, whatever was locked or destroyed since, and 0 before the first |
| `UnlockRpc.Handler.UnlockBegins` | `packages/daemon/src/server.ts:251-261` | The call checks its parameters and that the vault is locked, then awaits the record |
| `UnlockRpc.Handler.RecordArrives` | `packages/daemon/src/server.ts:263-284` | After the await the record is used without testing the lock again; a failure is a wrong password or an internal error by the text of the exception |
| `UnlockRpc.UnlockCallExact` | `packages/daemon/src/server.ts:251-284` | One call on a locked vault: with a record its password opens the vault then holds that record's key and the call reports its key version; otherwise the vault stays as it was and the call says why |
| `UnlockRpc.UnlockRefused` | `packages/daemon/src/server.ts:254-261` | Nothing is awaited without a password or a profile, checked first, or with the vault unlocked |
| `UnlockRpc.FailureTexts` | `packages/daemon/src/server.ts:275-281` | Which exception texts are a wrong password |
| `UnlockRpc.SequentialUnlocksZero` | `packages/daemon/src/server.ts:259-274` | When every unlock call is made with no other under way, no run overwrites a key: all former buffers are zeros |
| `UnlockRpc.OverlappingUnlocks` | `packages/daemon/src/server.ts:259-274` | Two calls that overlap both pass the test, and the second then replaces the first key without zeroing it |
| `UnlockRpc.OverwritePossibleIff` | `packages/daemon/src/server.ts:259-274` | From any state in which the waiting passwords are right for some records, every continuation without new unlock calls keeps former keys zeroed exactly when at most one call is waiting and no key is held meanwhile |
| `VaultRuns.ChangeExact` | `packages/daemon/src/vault-state.ts:77-108` | A password change succeeds exactly when the vault is unlocked and the old password opens the supplied record; the new record opens to the held key under the new password and no other |
| `VaultRuns.ChangeKeepsRootKeyIff` | `packages/daemon/src/vault-state.ts:82-98` | The record keeps its root key exactly when the held key is that record's key |
| `VaultRuns.OtherKeyWrapped` | `packages/daemon/src/server.ts:295-340` | Changing the password of one profile while another's key is held: its record then opens to the other key, and its own root key is lost |
| `VaultRuns.SessionPreservesRootKey` | `packages/daemon/src/vault-state.ts:47-108` | Over any sequence of password changes, locks, unlocks and other calls with the profile's own record: the newest password opens the same root key, every other fails, profile and key version stay |
| `VaultRuns.SessionPreservesItems` | `packages/daemon/src/vault-state.ts:132-143` | After any such sequence an unlocked vault decrypts every item as the original root key did |
| `VaultRuns.NewRecordConsistent` | `packages/crypto/src/client/keys.ts:30-47` | A record made by wrapping a root key under a password is a state such a session may start from |
| `VaultProfiles.RecordsExact` | `packages/daemon/src/vault-state.ts:47-108` | Over any run on any number of profiles each record opens, under its newest password and no other, to the root key that was held when that password was set |
| `VaultProfiles.KeyKeptIff` | `packages/daemon/src/vault-state.ts:82-98` | A record keeps its root key throughout a run exactly when every successful change of its password is made while the vault holds that key |
| `VaultProfiles.OwnProfilesKeepKeys` | `packages/daemon/src/server.ts:295-340` | If the password is changed only of the profile the vault was unlocked with, no run loses any root key |
| `Server.ConstantTimeEqual` | `packages/crypto/src/server/encrypt.ts:59-64` | The or-accumulated differences are zero exactly when the byte sequences are equal |
| `Server.ServerEncrypt` | `packages/crypto/src/server/encrypt.ts:77-106` | Seals under the imported key and prefixes the key commitment from version 4 on; fails unless the key decodes to 32 bytes |
| `Server.ServerDecrypt` | `packages/crypto/src/server/encrypt.ts:116-147` | Checks and strips the commitment from version 4 on, then opens; each failure has its own error |
| `Server.StoredForm` | `packages/crypto/src/server/encrypt.ts:77-106` | The stored text decodes to the box, after the 32-byte commitment to the key from version 4 on |
| `Server.DecryptErrors` | `packages/crypto/src/server/encrypt.ts:116-147` | On any input a bad key, undecodable text and a foreign commitment are told apart before anything is opened |
| `Server.KeyIs32Bytes` | `packages/crypto/src/server/encrypt.ts:18-28` | A key is any text of exactly 32 bytes |
| `Server.DecryptExact` | `packages/crypto/src/server/encrypt.ts:77-147` | For every plaintext, version and choice of metadata: the plaintext with the same key and encoded metadata, otherwise a commitment or a tag error |
| `Server.AadExact` | `packages/crypto/src/server/encrypt.ts:86-92` | Presence of metadata and the metadata itself must both agree |
| `Server.UnwrapDekExact` | `packages/crypto/src/server/encrypt.ts:166-222` | A wrapped profile key unwraps exactly under its master key and for its organization and profile |
| `Server.WrappedForm` | `packages/crypto/src/server/encrypt.ts:166-191` | A wrapped profile key decodes to the IV and the key sealed for its organization and profile; another length than 32 is refused |
| `Server.UnwrapsAfterIv` | `packages/crypto/src/server/encrypt.ts:198-223` | What is opened is the box after the first 12 bytes |
| `Backfill.DefaultProfile` | `scripts/backfill-server-item-profiles.ts:48-65` | The binding target is a server-managed profile of the organization before which no other comes (`default` first, then oldest) |
| `Backfill.DefaultProfileIs` | `scripts/backfill-server-item-profiles.ts:48-65` | In terms of the rows: a server-managed profile of the organization, one named `default` if there is any, the oldest of those that qualify |
| `Backfill.Store.ListBootstrappedOrgIds` | `scripts/backfill-server-item-profiles.ts:39-46` | Each organization with a server-managed profile, once |
| `Backfill.Store.DefaultServerManagedProfileId` | `scripts/backfill-server-item-profiles.ts:48-65` | The default profile's id, or none |
| `Backfill.Store.ListUnboundServerManagedItems` | `scripts/backfill-server-item-profiles.ts:67-98` | Exactly the unbound, undeleted, complete server-managed rows of the organization, in no particular order |
| `Backfill.Store.BindServerManagedItem` | `scripts/backfill-server-item-profiles.ts:100-114` | The guarded update writes a row that is still unbound and leaves every other row, and a row bound meanwhile, alone |
| `Backfill.BackfillItem` | `packages/db/src/server-profile-backfill.ts:78-121` | One row is re-sealed and bound keeping its plaintext, or cannot be decrypted and nothing is written |
| `Backfill.Backfill` | `packages/db/src/server-profile-backfill.ts:60-129` | Success leaves exactly the eligible rows bound to their organization's default profile at version 2 with their old plaintexts, all other rows unchanged, and scanned = migrated = the sum per organization = the number of eligible rows; the run succeeds exactly when every eligible row decrypts; every table written on the way is the original with part of that work done |
| `Backfill.EveryRowBound` | `packages/db/src/server-profile-backfill.ts:60-129` | After a finished run, in terms of the columns: every undeleted, complete, unbound server-managed row of an organization with a server-managed profile is bound to the default one at version 2 with its old plaintext, and every other row of it is unchanged |
| `Backfill.NoProfileNoChange` | `packages/db/src/server-profile-backfill.ts:69-71` | Rows of an organization without a server-managed profile are unchanged |
| `Backfill.SealedRowReads` | `packages/db/src/server-profile-backfill.ts:81-101` | A row reads as what was sealed: without additional data before version 2, then under organization, profile or sentinel, item and version |
| `Backfill.BoundRowColumns` | `scripts/backfill-server-item-profiles.ts:104-113` | The columns the update writes |
| `Backfill.RebindPreserves` | `packages/db/src/server-profile-backfill.ts:91-121` | Decrypting a row under its own additional data and sealing it for the target keeps its meaning |
| `Backfill.RemainingEligible` | `scripts/backfill-server-item-profiles.ts:67-98` | After any part of the work the rows still eligible are the ones not migrated yet |
| `Backfill.ResumeFinishes` | `packages/db/src/server-profile-backfill.ts:60-129` | A run cut off after any prefix and run again ends with the same rows bound, to the same profiles, with the same plaintexts as an uncut run |
| `Backfill.SecondRunChangesNothing` | `packages/db/src/server-profile-backfill.ts:60-129` | A second run changes nothing |
| `Backfill.StillBlocked` | `packages/db/src/server-profile-backfill.ts:93-101` | After any part of the work exactly the same rows still stop a run |
| `Backfill.GuardedBindExact` | `scripts/backfill-server-item-profiles.ts:100-114` | When other writers change a row between the select and the guarded update, the row keeps what it then says exactly when it was bound meanwhile or its content was not changed |
| `Backfill.LostUpdate` | `scripts/backfill-server-item-profiles.ts:100-114` | A live update between the select and the guarded update is lost: the row says what it said before |
| `Backfill.LateUpdateExact` | `packages/trpc/src/server/routers/items.ts:496-530` | A live update of a row read without a profile, written later under its content-version guard: the row reads as the new payload exactly when it still has no profile, and otherwise cannot be read |
| `Backfill.StaleUpdateLosesRow` | `packages/trpc/src/server/routers/items.ts:507-526` | Binding does not advance the content version, so such an update written after the row was bound leaves a row nobody can read |
| `Backfill.UndecodableRowBlocks` | `packages/db/src/server-profile-backfill.ts:93-101` | A row that stops every run |
| `Backfill.FinishedAgree` | `packages/db/src/server-profile-backfill.ts:102-121` | Finished runs agree on every binding and plaintext, whatever the random IVs |
| `RateLimit.RateLimitCounter.Fetch` | `apps/api/src/durable-objects/rate-limit-counter.ts:54-84` | One request updates the stored bucket and is answered |
| `RateLimit.SlidingBound` | `apps/api/src/durable-objects/rate-limit-counter.ts:56-85` | In every run with a clock that does not go back, an interval of length L admits at most max(limit * ceil(L / window), limit * ceil((L - 1) / window) + limit - 1) requests |
| `RateLimit.OneWindowLength` | `apps/api/src/durable-objects/rate-limit-counter.ts:56-85` | So fewer than twice the limit in any interval one window long |
| `RateLimit.BoundReached` | `apps/api/src/durable-objects/rate-limit-counter.ts:56-85` | For every limit, window and length some run admits exactly that many |
| `RateLimit.WindowAdmitsExactly` | `apps/api/src/durable-objects/rate-limit-counter.ts:63-74` | A window of n requests admits exactly min(n, limit) |
| `RateLimit.AnswersExact` | `apps/api/src/durable-objects/rate-limit-counter.ts:63-84` | The answers to the requests of one window: counted from 1, with the limit, the end of the window, admission while the count is within the limit, and no wait or the least whole seconds to the end |
| `RateLimit.RetryAfterSuffices` | `apps/api/src/durable-objects/rate-limit-counter.ts:75` | A request at or after now + 1000 * retryAfter is never counted in the window that rejected it, and retryAfter is the least number of seconds reaching its end |
| `Framing.Socket.OnData` | `packages/daemon/src/server.ts:830-845` | The callback up to its first await saves the tail and queues the non-blank trimmed lines |
| `Framing.Socket.OnAnswered` | `packages/daemon/src/server.ts:839-844` | After a dispatch the handler goes on with its next line |
| `Framing.RequestOfLine` | `packages/daemon/src/server.ts:839-841` | A line is a request exactly when it is not blank, and the request is the line without the white space around it |
| `Framing.FramingExact` | `packages/daemon/src/server.ts:830-845` | For any cutting into chunks and any interleaving with dispatch, the requests extracted are those of the whole stream's lines, in order and once each, and the buffer is the newline-free tail |
| `Framing.ChunkingIrrelevant` | `packages/daemon/src/server.ts:830-845` | Two cuttings of one stream extract the same requests and save the same buffer |
| `Framing.InOrderIff` | `packages/daemon/src/server.ts:839-844` | Dispatch begins in stream order exactly when every chunk that completes a request arrives with all earlier requests begun |
| `Framing.OverlapReorders` | `packages/daemon/src/server.ts:839-844` | A run in which a chunk arrives during a dispatch and the requests begin out of order |
| `Text.SplitResumes` | `packages/daemon/src/server.ts:831-837` | Splitting may be resumed from the saved tail |
| `Text.SplitUnique` | `packages/daemon/src/server.ts:835-837` | The lines and the tail are the only newline-free decomposition of the text |
| `Framing.SettlesOnFirstLine` | `packages/daemon/src/client.ts:193-213` | The client's request settles with the first line of the reply, however it is cut |
| `Tofu.DaemonClient.SendBegins` | `packages/daemon/src/client.ts:125-135` | A call finds the client verified, joins the handshake in flight or starts one |
| `Tofu.DaemonClient.HandshakeReply` | `packages/daemon/src/client.ts:140-157` | The reply is rejected unless well-formed and signed over this handshake's nonce |
| `Tofu.DaemonClient.HandshakePin` | `packages/daemon/src/client.ts:159-166` | A different pin fails the handshake; no pin leads to first contact |
| `Tofu.DaemonClient.HandshakeStored` | `packages/daemon/src/client.ts:160-163` | First contact stores the fingerprint or fails |
| `Tofu.DaemonClient.HandshakeSettles` | `packages/daemon/src/client.ts:131-134` | The in-flight field is cleared before any waiting call resumes |
| `Tofu.DaemonClient.CallResumes` | `packages/daemon/src/client.ts:136-137` | A waiting call records the fingerprint or throws |
| `Tofu.DaemonClient.SendRaw` | `packages/daemon/src/client.ts:171-191` | A cleared call writes its frame |
| `Tofu.ClearedCallIsWritten` | `packages/daemon/src/client.ts:125-127` | In every run a call that is not sensitive, and any call of a verified client, writes exactly its own frame with the next id |
| `Tofu.WaitingCallIsWritten` | `packages/daemon/src/client.ts:136-174` | A call waiting for a handshake that succeeded and settled writes its frame and verifies the client; for one that failed it is refused |
| `Tofu.FirstSensitiveCallAsks` | `packages/daemon/src/client.ts:127-142` | A sensitive call of an unverified client with no handshake running asks for a signature over its nonce and waits |
| `Tofu.HandshakeOutcome` | `packages/daemon/src/client.ts:140-168` | A handshake succeeds exactly when the reply verifies over its nonce, the pin could be read, what was found is nothing or this fingerprint, and the first-contact callback does not throw |
| `Tofu.FrameIds` | `packages/daemon/src/client.ts:181-184` | Frames carry the ids 1, 2, 3 in the order they are written |
| `Tofu.AlwaysSafe` | `packages/daemon/src/client.ts:125-174` | The invariant of every run in every interleaving |
| `Tofu.SensitiveCallsAreGated` | `packages/daemon/src/client.ts:125-174` | In every run no sensitive call gets as far as its frame before a handshake has succeeded with a signature over its own nonce, and which found in the pin storage, at the moment it looked, nothing or its own fingerprint |
| `Tofu.PinnedCallsAreGated` | `packages/daemon/src/client.ts:159-166` | Of a client that reads the pin back and has one stored, which nobody else changes, no sensitive call gets past the gate but after such a handshake with that very fingerprint |
| `Tofu.OneFingerprint` | `packages/daemon/src/client.ts:159-167` | Trust on first use: all handshakes that succeed over a run have one fingerprint, the stored one, and the first pin if there was one stays |
| `Tofu.FramesComeFromClearedCalls` | `packages/daemon/src/client.ts:171-174` | Every request frame on the wire is that of a call past the gate |
| `Tofu.OneHandshakeAtATime` | `packages/daemon/src/client.ts:129-135` | At most one handshake runs at any time |
| `Tofu.HandshakeBeginsIff` | `packages/daemon/src/client.ts:127-137` | In any run a sensitive call starts a handshake exactly when every earlier one has settled and no sensitive call has been cleared; so after one that succeeded another begins exactly for a call between its settling and the first waiter's resumption |
| `Tofu.SecondHandshakeBegins` | `packages/daemon/src/client.ts:131-137` | Such a second handshake occurs, whatever callbacks are configured |
| `Tofu.FailureLeavesUnverified` | `packages/daemon/src/client.ts:125-138` | A client none of whose handshakes succeeded is unverified and has written nothing sensitive |
| `Tofu.FailedCallRefused` | `packages/daemon/src/client.ts:136-137` | A call waiting for a handshake that failed never writes its frame, whatever else happens |
| `Tofu.StoredAtMostOnceIff` | `packages/daemon/src/client.ts:159-163` | With no other writer of the pin, every run stores at most one fingerprint, and calls the callback at most once more than it throws, exactly when the pin is read back or there is no callback |
| `Tofu.FirstContactExact` | `packages/daemon/src/client.ts:42-44` | When the pin is read back: a client that found no pin has stored one exactly when some handshake succeeded, and one that found a pin never calls the callback |
| `Tofu.ThrowingCallbackCalledAgain` | `packages/daemon/src/client.ts:160-163` | A callback that throws is called again by the next handshake, any number of times |
| `Refresh.AgentClient.ConnectBegins` | `packages/sdk/src/client.ts:967-972` | Connect resets the expired state and starts an exchange |
| `Refresh.AgentClient.ScheduleRefreshFromExpiry` | `packages/sdk/src/client.ts:1017-1022` | After a successful exchange the next refresh is due two minutes before expiry, or at once |
| `Refresh.AgentClient.ExchangeThrows` | `packages/sdk/src/client.ts:1040-1060` | A failed connect changes nothing; a failed refresh arms the next retry or, after the last, expires the session; a throwing callback does neither |
| `Refresh.AgentClient.ArmTimer` | `packages/sdk/src/client.ts:1068-1075` | The previous timer is cleared before the new one is set |
| `Refresh.AgentClient.TimerFires` | `packages/sdk/src/client.ts:1019-1021` | The timer starts the refresh attempt it was armed for |
| `Refresh.AgentClient.DisconnectNow` | `packages/sdk/src/client.ts:1080-1085` | Disconnect clears the timer |
| `Refresh.RejectedUntilConnect` | `packages/sdk/src/client.ts:1092-1104` | Once expired, the client rejects calls until connect is called again, whatever happens in between |
| `Refresh.AtMostOneTimer` | `packages/sdk/src/client.ts:1017-1085` | In every interleaving at most one refresh timer is armed, and disconnect clears it |
| `Refresh.DisconnectStopsIff` | `packages/sdk/src/client.ts:1038-1039` | After disconnect no continuation without connect ever has a timer armed, exactly when no exchange was in flight |
| `Refresh.ExpiredExactly` | `packages/sdk/src/client.ts:1036-1061` | When exchanges do not overlap, the session is expired exactly after six consecutive background failures since the last connect or success, less the attempts connect found pending, with nothing armed or in flight; so exactly after six when connect found no retry pending or has succeeded |
| `Refresh.ThrowingCallbackStops` | `packages/sdk/src/client.ts:1043` | An error callback that throws ends the loop without expiring the session |
| `Refresh.ReconnectKeepsOldRetry` | `packages/sdk/src/client.ts:967-974` | A connect that fails while attempt k is pending leaves it: the session expires after 6 - k further failures and no sooner, so after six exactly when k is 0 |
| `Refresh.EarlyExpiry` | `packages/sdk/src/client.ts:967-974` | Runs of a new client in which that happens, for each k |
| `Refresh.RetryTimes` | `packages/sdk/src/client.ts:896-898` | With expiry two minutes away or more, the k-th failing attempt takes place at expiry - 2 min plus the first k delays |
| `Refresh.OffsetValues` | `packages/sdk/src/client.ts:896-898` | The attempts come 0, 30, 90, 210, 450 and 750 seconds after the first |
| `Refresh.ScheduledFromExpiry` | `packages/sdk/src/client.ts:1012-1021` | An exchange that brought a new expiry leaves one refresh armed, two minutes before it or at once |
| `Refresh.AttemptsBeforeExpiry` | `packages/sdk/src/client.ts:896-898` | Attempts 0, 1 and 2 come before expiry, attempt 3 after it, and the sixth failure expires the session |
| `JsonDepth.Depth` | `packages/core/src/schemas.ts:29-47` | The stack loop with early exit terminates on every finitely branching value and returns the length of the longest walk down from the root, cut at limit + 1 |
| `JsonDepth.JsonDepth` | `packages/core/src/schemas.ts:29-47` | The same with the limit of 8 the schema uses |
| `JsonDepth.TreeDepthExact` | `packages/core/src/schemas.ts:29-47` | On finite trees that is the smaller of the true depth and limit + 1 |
| `JsonDepth.ExceedsIff` | `packages/core/src/schemas.ts:36-38` | On any graph the limit is exceeded exactly when some walk from the root is longer than it |
| `JsonDepth.CyclesExceed` | `packages/core/src/schemas.ts:29-47` | A value that reaches itself is always too deep |
| `EnvKey.LabelToEnvKey` | `packages/core/src/secret-delivery.ts:108-127` | The chain of replacements gives the words of the upper-cased label joined by underscores, after an underscore when it starts with another character or the first word with a digit, whatever upper-casing makes of characters beyond ASCII |
| `EnvKey.EnvNameLegal` | `packages/core/src/secret-delivery.ts:108-127` | The name is empty exactly when the label has no letter or digit, and otherwise legal, without double or trailing underscore |
| `EnvKey.NameKeepsWordChars` | `packages/core/src/secret-delivery.ts:108-127` | The name keeps every letter and digit of the label, in order and in upper case, and adds only underscores |
| `EnvKey.NameStart` | `packages/core/src/secret-delivery.ts:112-124` | An underscore stands at the front exactly when the label starts with another character or a digit |
| `EnvKey.Idempotent` | `packages/core/src/secret-delivery.ts:108-127` | Normalizing a name changes nothing |
| `EnvBulk.ReadItem` | `packages/daemon/src/server.ts:557-632` | One entry is read exactly when it is well-formed and, if it has a single string field, its name is non-empty and unreserved; otherwise the error names it and says why |
| `EnvBulk.BuildEnv` | `packages/daemon/src/server.ts:545-642` | A batch is accepted exactly when every entry reads and the names of those taking part are distinct; the map then holds exactly their values, one entry each. Otherwise the error is about the size, the first bad entry, or two entries with one name, the earlier named first |
| `EnvBulk.TakesPart` | `packages/daemon/src/server.ts:597-608` | An item takes part exactly when one field of its payload and no other is a string, and gives that string under the name of its label |
| `EnvBulk.GoodItemIs` | `packages/daemon/src/server.ts:557-632` | What an entry must satisfy, field by field |
| `EnvBulk.AcceptableIs` | `packages/daemon/src/server.ts:545-640` | At most 256 entries, all good, and no two taking part under one name |
| `EnvBulk.PermutationInvariant` | `packages/daemon/src/server.ts:552-642` | Acceptance and map do not depend on the order of the items |
| `DotEnv.PrintEntries` | `packages/cli/src/commands/export-cmd.ts:31-41` | The output is one line an entry |
| `DotEnv.KeyCharacters` | `packages/cli/src/commands/export-cmd.ts:9-13` | A printed name has only legal characters and is empty only for the empty label |
| `DotEnv.EscapedIsEscape` | `packages/cli/src/commands/export-cmd.ts:17` | The three replacements escape character by character |
| `DotEnv.PrintedValue` | `packages/cli/src/commands/export-cmd.ts:15-20` | A value is printed as it is unless it has a newline or a quote, and otherwise escaped between double quotes |
| `DotEnv.PrintedName` | `packages/cli/src/commands/export-cmd.ts:9-13` | The printed name is the environment name if the label has a letter or digit, otherwise as many underscores as the label has characters |
| `DotEnv.SkippedLine` | `packages/cli/src/commands/import-cmd.ts:33-37` | Blank lines, lines starting with `#` and lines without `=` say nothing |
| `DotEnv.EntryLine` | `packages/cli/src/commands/import-cmd.ts:38-46` | Any other line: the key before the first `=`, the value after it, both trimmed, the value without its quotes; without a key it says nothing |
| `DotEnv.QuotesComeOff` | `packages/cli/src/commands/import-cmd.ts:42` | A pair of equal single or double quotes around a text on one line is taken off, and no other character |
| `DotEnv.LineRoundTrip` | `packages/cli/src/commands/import-cmd.ts:33-46` | A printed line parses back exactly when the label is not empty and the value survives: trimmed if it has no quote or newline, otherwise only single quotes, no backslash and no line terminator |
| `DotEnv.EscapesAreLost` | `packages/cli/src/commands/export-cmd.ts:15-20` | A double quote, a newline, and a backslash beside a quote do not survive |
| `DotEnv.RoundTrip` | `packages/cli/src/commands/import-cmd.ts:33-46` | A printed list parses back to itself with normalized names exactly when every entry does |
| `Cascade.Database.OnMemberRemoved` | `packages/db/src/cascades.ts:15-119` | The guarded statements change the tables as described |
| `Cascade.RemovalExact` | `packages/db/src/cascades.ts:24-100` | No enabled agent of the member and no grant by them is left in the organization; every other row is unchanged; only unexpired, unrevoked sessions of the revoked agents are revoked |
| `Cascade.AuditConserved` | `packages/db/src/cascades.ts:69-117` | No audit row is lost, and exactly one is added for each revoked agent and each deleted grant |
| `Cascade.AuditRowsSay` | `packages/db/src/cascades.ts:69-117` | Every new audit row, field by field: the organization, who removed the member and from where, the member removed, and the agent, or the agent, item, capability and id of the deleted grant |
| `Cascade.EveryChangeAudited` | `packages/db/src/cascades.ts:69-117` | Each revoked agent and each deleted grant has such a row |
| `Cascade.Idempotent` | `packages/db/src/cascades.ts:15-119` | Removing the member again changes nothing |
| `Cascade.DisabledStayOut` | `packages/db/src/cascades.ts:44-67` | Over any run of removals with a clock that does not go back, disabled agents have no live session |
| `Cascade.DisabledOutIff` | `packages/db/src/cascades.ts:44-67` | With any clock: after one removal disabled agents are out exactly when they were before and the sessions left alone as expired are still expired |
| `Cascade.ClockMustNotGoBack` | `packages/db/src/cascades.ts:53` | An expired session that an earlier clock makes live again |
| `Cascade.RevocationTimesStay` | `packages/db/src/cascades.ts:44-45` | No removal changes when a session was revoked |
| `Divergence.Multiset` | `scripts/audit-divergence.ts:36-42` | The map counts occurrences |
| `Divergence.FindDivergences` | `scripts/audit-divergence.ts:73-82` | Each key the sink has more often than the database is reported once, with the difference |
| `Divergence.DivergencesExact` | `scripts/audit-divergence.ts:73-82` | The deficits add up to the size of the multiset difference, and none is reported exactly when the sink is contained in the database |
| `Divergence.RemovalDetected` | `scripts/audit-divergence.ts:73-82` | Removing k rows from a matching database raises the total by exactly k |
| `Divergence.OrderIrrelevant` | `scripts/audit-divergence.ts:73-82` | The report is the same for every order of the lists |
| `Divergence.IdentityKeyInjective` | `scripts/audit-divergence.ts:17-34` | Two rows with the same key are the same row: separators cannot collide and null differs from the empty string |
| `Divergence.KeySpelled` | `scripts/audit-divergence.ts:22-34` | The key is the JSON array of the nine columns in order, null where a column is |
| `Divergence.EscapesSpelled` | `scripts/audit-divergence.ts:22-34` | The JSON escapes, one character at a time |

## Left out

- Backfill.Backfill: no other writer runs between its select and its updates; what one such writer does to one row, before or after, is `Backfill.GuardedBindExact` and `Backfill.LateUpdateExact`.
- Cryptography: ciphers, key derivation, HMAC, signatures and fingerprints are ideal functions (a box opens exactly with what sealed it, distinct passwords derive distinct keys); key-length checks inside the cipher library are not modelled, the 32-byte check of `importKey` is.
- UTF-8: identifiers are byte sequences and characters are whole code points, so multi-byte characters split across chunks, and a replacement counting one such character as two, are not modelled; upper-casing is a parameter, assumed only to upper-case ASCII and to yield no small ASCII letter.
- JSON: payloads are bytes with a predicate for what `JSON.parse` accepts; only the encoding of audit identities is written out.
- Zeroing of temporaries (derived wrapping keys, the verified copy of the root key, unwrapped item keys during decryption and rotation): not visible in any contract; zeroing of the held root key and of the item key in `EncryptItem` is.
- `Items.DecryptItem`, `Items.RekeyItem` and the key functions other than `ZeroKey` are modelled on values, so reuse of their local buffers is not captured.
- SQL: tables are maps, a statement is one change of a map, and query order is arbitrary; concurrent transactions appear only as the guard of the bind statement.
- Durable-object storage: the counter handles one request at a time; the 404 branch and the HTTP shape are not modelled.
- Sockets, files, process spawning and permissions, `buildChildEnv`, mounted files and the daemon's authentication state.
- `expandFieldSelection`, `resolveFieldValue`, `drainPages` and `importEntries`: short selections and counts that would add only easy members.
- `parseSinkKeys`: splitting and skipping malformed lines of the sink export.
- Two database timestamps per row (`createdAt`, and `updatedAt` beyond the bind) and display columns.
- Server routers (but for the update of an item without a profile), the access pipeline, the dashboard, release and coverage scripts.
