# A model of the authenticator's flash-backed state machines

This project models the parts of the FIDO2/OTP/OATH authenticator that keep state in flash
or across requests, and proves what they keep. Flash is a map from file identifiers to file
contents with a volatile view, which reads and writes go to, and a durable one. Until a
synchronous commit, any subset of the operations since the last one may have reached flash,
with the order of operations on one file kept; replacing one file is atomic. A run may be cut
at any operation.

| file | what it holds |
|---|---|
| `Basics.dfy`, `Flash.dfy` | bytes, options; the flash file system, the images a power cut can leave, writes and commits that fail |
| `ResidentContainer.dfy` | the two-slot credential container: file identifiers, manifests, records, and the plan of operations of each call |
| `ContainerSafety.dfy`, `ContainerCreation.dfy`, `ContainerRuns.dfy` | its crash atomicity, its runs, and the table slot -> contents it refines |
| `ContainerHistory.dfy`, `ContainerFaults.dfy` | which histories permit a re-creation; updates that fail with the power on |
| `ContainerSelection.dfy` | what is made of any files, damaged or not: which manifest is taken, what is refused, what a read gives |
| `ContainerDevice.dfy` | the container procedures on a mutable store |
| `ClientPin.dfy`, `ClientPinDevice.dfy` | PIN retries, PIN policy, token lifetime and session epoch: specification, procedures |
| `PinSafety.dfy`, `PolicyRuns.dfy`, `PinOutcomes.dfy` | what every run keeps; the policy under power cuts; when each command succeeds and what it leaves |
| `CredentialRecords.dfy`, `CredentialTable.dfy`, `IndexOverflow.dfy` | the three record layouts; the table with its relying-party index, and a run that outgrows it |
| `CredentialEffects.dfy` | what storing, updating and deleting do, one slot at a time and over runs |
| `CredentialEnumeration.dfy`, `CredentialManagement.dfy` | what begins and follow-ups list, and whose credentials they are; the procedures |
| `Assertion.dfy` | collecting, filtering, sorting and handing out assertions |
| `LargeBlobs.dfy` | the fragment state machine and ranged reads |
| `Crc.dfy`, `Otp.dfy`, `OtpSlots.dfy`, `OtpFrames.dfy` | the check sequence, the use counters, the slot swap, the report exchange |
| `Oath.dfy`, `OathPin.dfy`, `OathPinOutcomes.dfy` | storing and computing credentials; the OATH PIN, access code, selection and reset; when each succeeds |

Each procedure of the source is a method, on fields or arrays where the source changes state in
place, proved equal to a specification function; the theorems are about those functions.

Cryptography is abstract. A PIN verifier is identified with its PIN, an encrypted parameter with
its plaintext and whether it decrypts, a container record with the slot, descriptor and contents
it was sealed for (the container generation is not part of that identity: see the associated
data in `tests/fido_object_provider_test.c`). `open`, `derive`, `seal` and `unseal` of credentials
and OATH keys are function parameters, of which only the stated laws are assumed. CBOR and TLV
parsing is replaced by requests with the parsed fields. What the outside decides (button, clock,
whether a write or a commit works) is a parameter of the request.

Properties that turned out false are kept as the code has them, with the exact condition under
which they hold:

- A container created again after an odd number of updates is not crash atomic
  (`CreateUpdateCreate`, `CrashAtomicIffGuarded`, `CreateEnabledIffEven`).
- An update after one that stopped at its manifest's commit may lose the container
  (`CredentialRetryLoses`, `RetryAtomicIffClear`).
- A power cut right after a forced change of a PIN below the minimum can drop the flag and keep
  that PIN (`ForcedChangeExposes`, `ForcedChangeSurvivesCutIff`, `PolicySurvivesCutIff`).
- A token issued while the millisecond clock reads zero never expires (`ZeroReadingToken`,
  `ZeroReadingLasts`, `TokenExpiresIffTimed`).
- A registration that leaves the presence option out gets the user's consent and leaves the token
  its authority (`UsualRegistrationKeepsAuthority`, `PresenceEndsAuthorityIff`).
- An OATH PIN without an access code keeps nobody out, and with one it is an alternative to it
  (`PinWithoutCodeIsBypassed`, `PinGuardsIff`, `PinNeverGuards`).
- A relying party's 256th credential wraps its one-byte count, which hides the party from
  enumeration (`FullPartyOutgrows`, `StoreKeepsIndexIff`, `OutgrownIsHidden`), and a full table
  reports no credentials (`Metadata`).
- Updating a legacy record changes the key it signs with (`UpdateKeepsSeedIff`).
- A new relying party whose name cannot be sealed leaves its credential stored but not in the
  index (`StoreKeepsIndexIff`).
- One credential that does not load stops the enumeration of its relying party, and a party whose
  name does not open is passed over (`LookalikeBlocks`, `EnumerationStops`, `EnumerationExactIff`,
  `RpEnumerationExactIff`).
- After a refused begin a follow-up lists the credentials of the party enumerated before
  (`RefusedBeginListsAnother`, `ListedBelongsIff`, `NeverStraysIff`).
- A saturated use counter, or a power-up whose scan fails, lets emitted pairs repeat
  (`StatusRepeatsPair`, `NextPressGrowsIff`, `EmissionsIncreaseIff`).
- An OATH key that looks sealed is stored as it is and opens to something else; no key the
  application can compute with is of that kind (`SealedLookingKeyIsLost`, `StoredKeyOpensIff`,
  `SealedIsUseless`).

## Model

| member | source | states |
|---|---|---|
| ContainerSafety.SlotsDisjoint | src/fido/resident_container.c:57-65 | The file identifiers of two slots never coincide |
| ContainerSafety.LiveAfterCut | src/fido/resident_container.c:121-179 | A live container is still the same live container in every image a power cut can leave |
| ContainerSafety.LiveLoads | src/fido/resident_container.c:155-179 | In every such image it loads its newest manifest, validates, is the base of the next update, and each of its four objects reads its contents |
| ContainerSafety.VacantLoads | src/fido/resident_container.c:181-203 | A vacant slot has no marker, loads as missing and can be created, whatever records earlier cuts left in it |
| ContainerSafety.WriteRecordsOps | src/fido/resident_container.c:349-379 | The record loop only ever replaces the target half's records of the objects it was asked to write |
| ContainerSafety.SuccessorObjects | src/fido/resident_container.c:333-379 | The manifest an update publishes is one generation on, names the one before, and keeps every descriptor it does not rewrite |
| ContainerSafety.SuccessorInPlace | src/fido/resident_container.c:349-379 | When the record loop is done, every record the new manifest references is in place and opens to the new contents |
| ContainerSafety.PublishSound | src/fido/resident_container.c:380-422 | After any prefix of the publishing steps the slot is the old container, the new one, or durably holds both |
| ContainerSafety.UpdateSound | src/fido/resident_container.c:303-423 | After any prefix of a guarded update the same holds, and after all of it the new container is live with the new contents |
| ContainerSafety.UpdateCrashAtomic | src/fido/resident_container.c:303-423 | If every rewritten record lies in the manifest's own half, a power cut at any step leaves the old container or the new one, complete: all four objects read old or all read new |
| ContainerSafety.UnguardedBreaks | src/fido/resident_container.c:348-365 | If one does not, some cut leaves an image that opens as neither |
| ContainerSafety.CrashAtomicIffGuarded | src/fido/resident_container.c:348-365 | So an update is crash atomic if and only if it is guarded |
| ContainerCreation.FirstCreateSound | src/fido/resident_container.c:425-436 | After any prefix of a first creation the slot is vacant, about to switch, or the new container |
| ContainerCreation.FirstCreateCrashAtomic | src/fido/resident_container.c:303-423 | A power cut during a first creation leaves the slot vacant or the container complete |
| ContainerRuns.CallConfined | src/fido/resident_container.c:404-420 | Whatever flash holds, a call writes and deletes files of its own slot only |
| ContainerRuns.CallFrame | src/fido/resident_container.c:57-65 | A call leaves every file of every other slot and of the relying-party table as it was |
| ContainerRuns.CredentialUpdateGuarded | src/fido/resident_container.c:497-509 | A credential update is always guarded when the credential is in the manifest's own half |
| ContainerRuns.WriteOnLive | src/fido/resident_container.c:303-423 | An update or guarded re-creation of a live container ends with the contents asked for, and cut anywhere leaves the old or the new ones, the credential in its manifest's own half |
| ContainerRuns.CreateOnVacant | src/fido/resident_container.c:425-436 | A creation in a vacant slot ends with its contents, and cut anywhere leaves the slot vacant or complete |
| ContainerRuns.ExhaustedRefuses | src/fido/resident_container.c:336-338 | At the last generation every further write is refused and nothing is touched |
| ContainerRuns.DeleteEmpties | src/fido/resident_container.c:511-538 | Deleting commits once, leaves no file of the slot, and the slot can be created again |
| ContainerRuns.EventSimulated | src/fido/resident_container.c:303-538 | A completed call moves the table slot -> contents as it says, a refused one changes nothing, one cut short does either |
| ContainerRuns.RunRepresents | src/fido/resident_container.c:303-538 | In every state of every run each slot is vacant or holds one complete container |
| ContainerRuns.ReadsTable | src/fido/resident_container.c:461-495 | What the store represents is what every read returns, now and after any power cut |
| ContainerRuns.RunsNeverRecover | src/fido/resident_container.c:322-330 | In no image of any run do the tie, fallback, recovery or object-overflow branches fire; the newest manifest always opens fully |
| ContainerRuns.CreateGuardIffUnmixed | src/fido/resident_container.c:348-365 | A re-creation is guarded if and only if all four records lie in the manifest's own half |
| ContainerHistory.CreateEnabledIffEven | src/fido/resident_container.c:348-365 | In every state of every run a slot with n completed updates since its last creation or deletion can be created without a risk if and only if it is vacant or n is even: no update, or two, but not one |
| ContainerHistory.EventTurns | src/fido/resident_container.c:303-423 | Each event, completed, refused or cut short, moves this history along with the halves the container's records lie in |
| ContainerHistory.PermittedRunIsRun | src/fido/resident_container.c:425-509 | So runs in which history alone permits each creation are runs in which every call is guarded, and all that is proved of those holds of them |
| ContainerRuns.CreateUpdateCreate | src/fido/resident_container.c:425-509 | Create, update, create: the last of these is not guarded, and some power cut during it loses the container |
| ContainerRuns.NoLeaks | src/fido/resident_container.c:404-421 | When an update returns OK, the slot owns exactly its marker, one manifest and the records that references, whatever was there before: a first creation over the records of an earlier attempt, a guarded update, or a re-creation that is not guarded |
| ContainerFaults.FailedUpdateSound | src/fido/resident_container.c:380-402 | A guarded update that stops at a failed write or a commit that times out leaves the old container, the new one, or durably both |
| ContainerFaults.ManifestCommitMayFail | src/fido/resident_container.c:397-399 | The commit of the manifest can be the one that times out: the update then reports a failure with the manifest written and visible |
| ContainerFaults.RetryAtomicIffClear | src/fido/resident_container.c:322-379 | After that, with the power still on, another update is safe against power cuts if and only if it rewrites no object whose record the manifest in flash keeps in its own half |
| ContainerFaults.CredentialRetryLoses | src/fido/resident_container.c:497-509 | A credential update after a credential update that failed there never is: some power cut during it leaves none of the three manifests complete |
| ContainerSelection.RejectedIff | src/fido/resident_container.c:121-153 | Whatever flash holds, a manifest in its place is accepted unless it is another slot's, lists nothing, lists a type twice, misplaces a record or has lost one |
| ContainerSelection.AcceptedIsSmall | src/fido/resident_container.c:121-153 | An accepted manifest lists one to four objects, each in a record that is there |
| ContainerSelection.LoadIs | src/fido/resident_container.c:155-179 | The newer of two accepted manifests is taken, or the only one; two of one generation, and remains that are not accepted, are damage |
| ContainerSelection.CreatableIff | src/fido/resident_container.c:181-203 | A slot can be given a credential exactly when no manifest and only records are left in it, or its container is complete |
| ContainerSelection.ChooseIs | src/fido/resident_container.c:303-331 | An update builds on the manifest taken if it is complete, else on the other if that is, on nothing where the slot is cleanly empty, and is refused in every other case |
| ContainerSelection.UpdateRefusal | src/fido/resident_container.c:303-338 | Nothing is written where an update is refused outright |
| ContainerSelection.BadUpdateFails | src/fido/resident_container.c:349-379 | An update with a write of no known type, of an object inside the manifest or of a type written twice, or of an object written as often as can be counted, never succeeds |
| ContainerSelection.DeleteRefusal | src/fido/resident_container.c:511-538 | A deletion goes through exactly where the slot has its marker and a manifest is taken; otherwise it does nothing |
| ContainerSelection.ReadIs | src/fido/resident_container.c:461-495 | A read gives what the manifest taken gives, else what the other gives, and never a record sealed for another slot, type or place |
| ContainerSelection.ReadStatusIs | src/fido/resident_container.c:461-495 | An object neither manifest lists is no error, one that is listed and does not open is |
| ContainerDevice.Device.ReplaceFile | src/fido/resident_container.c:79-89 | Deletes what is there, then writes, and reports a write that fails |
| ContainerDevice.Device.AcceptsManifest | src/fido/resident_container.c:131-149 | The acceptance loop decides record identifiers, duplicate types and record headers as specified |
| ContainerDevice.Device.ParseManifest | src/fido/resident_container.c:121-153 | Parses one half's manifest |
| ContainerDevice.Device.LoadManifest | src/fido/resident_container.c:155-179 | Chooses the highest valid generation, refuses a tie, tells damaged from missing |
| ContainerDevice.Device.ValidateManifest | src/fido/resident_container.c:222-243 | True exactly when every object unseals to its full length |
| ContainerDevice.Device.CanCreateAt | src/fido/resident_container.c:181-203 | True exactly when the slot is free or holds a container that validates |
| ContainerDevice.Device.ChooseBase | src/fido/resident_container.c:312-331 | Picks the manifest an update builds on, with the fallback to the other half |
| ContainerDevice.Device.WriteAll | src/fido/resident_container.c:349-379 | Issues the specified record operations up to the first that fails, and returns the edited object list, the refusal or the fault |
| ContainerDevice.Device.WriteMarker | src/fido/resident_container.c:294-301 | Writes the marker if it is missing and waits for it; both may fail |
| ContainerDevice.Device.CollectHalf | src/fido/resident_container.c:404-420 | Deletes the superseded manifest and unreferenced records of one half |
| ContainerDevice.Device.Collect | src/fido/resident_container.c:404-421 | Collects both halves, in order |
| ContainerDevice.Device.CommitUpdate | src/fido/resident_container.c:380-422 | Barrier, manifest, barrier, marker, collection, in that order, each writing or waiting step possibly the last |
| ContainerDevice.Device.Update | src/fido/resident_container.c:303-423 | The whole update issues the operations of its plan up to the first write or commit that fails, with the status of the plan or of the fault |
| ContainerDevice.Device.DeleteContainer | src/fido/resident_container.c:511-538 | Deletes everything of the slot, then commits once, which may time out |
| ContainerDevice.Device.ReadObject | src/fido/resident_container.c:461-495 | Reads from the newest manifest and falls back to the other half; an object neither lists is no error, one whose record does not open is |
| PinSafety.PinAttemptsBounded | src/fido/cbor_client_pin.c:61-70 | Across any run with power cuts anywhere, comparisons since the last success plus the retries flash may hold never exceed eight, and at most three comparisons in a row fail per power-up |
| PinSafety.FailedComparisonIsPaidFor | src/fido/cbor_client_pin.c:585-623 | A failed comparison happens only when flash can hold nothing but the lowered counter; its status follows from retries left and mismatches so far |
| PinSafety.ExhaustedForGood | src/fido/cbor_client_pin.c:549-551 | Over every run, power cuts included, a PIN without retries is never compared again, and no PIN command succeeds or touches flash |
| PinSafety.LastRetryExhausts | src/fido/cbor_client_pin.c:585-623 | The failed comparison that spends the last retry answers so and leads there: no image a cut can leave has a retry |
| PinSafety.DispatchFailures | src/fido/cbor_client_pin.c:607-623 | Every command keeps the bound on failures in a row and the power-cycle block that enforces it |
| PinSafety.TokenTakesThePin | src/fido/cbor_client_pin.c:716-860 | A fresh token is issued only for the stored PIN, with retries left, no block and no forced change, and carries exactly the rights asked for |
| PinOutcomes.TokenIff | src/fido/cbor_client_pin.c:716-860 | A token request succeeds exactly when the key agreement, the rights and the PIN are in order, with retries and no block, and no change is forced; that restores the retries |
| PinOutcomes.IssuedRights | src/fido/cbor_client_pin.c:836-856 | A token asked for without rights may register and assert and nothing else; one asked for with rights has those of the low byte, bit for bit |
| PinOutcomes.PersistentRight | src/fido/cbor_client_pin.c:836-841 | The persistent right is given by itself and leaves the other token as it was |
| PinOutcomes.FirstPinIff | src/fido/cbor_client_pin.c:454-536 | A first PIN is set exactly when there is none and the request is in order; a refusal changes nothing |
| PinOutcomes.ChangeIff | src/fido/cbor_client_pin.c:537-715 | A change succeeds exactly when the current PIN is proved, the new one is acceptable and can be installed, and, if a change is forced, is another |
| PinOutcomes.FirstPinRefusal | src/fido/cbor_client_pin.c:454-536 | What is said of a first PIN that is refused: the first thing wrong, in the order in which the firmware looks |
| PinOutcomes.ChangeRefusal | src/fido/cbor_client_pin.c:537-715 | The same of a change |
| PinOutcomes.TokenRefusal | src/fido/cbor_client_pin.c:716-835 | And of a token request |
| PinOutcomes.TryLeaves | src/fido/cbor_client_pin.c:585-640 | The try is taken before anything is compared and given back by a match alone; a mismatch is counted, and the third in a row blocks until power-up |
| PinOutcomes.RefusalLeaves | src/fido/cbor_client_pin.c:537-835 | A refused change or token request leaves what trying the PIN left, and nothing if it did not get that far |
| PinOutcomes.LengthIsCharacters | src/fido/cbor_client_pin.c:359-368 | The length of any text encoded in UTF-8 is its number of characters |
| PinOutcomes.PaddingComesOff | src/fido/cbor_client_pin.c:499-502 | A PIN padded with zeros is read back as it was |
| PinOutcomes.ClassesPartition | src/fido/cbor_client_pin.c:320-357 | Every byte is in exactly one of the four classes, and the letters' cases correspond |
| PinOutcomes.ClassesIff | src/fido/cbor_client_pin.c:320-357 | A policy is met exactly when the PIN has a byte of every class asked for |
| PinSafety.FirstPinIsSet | src/fido/cbor_client_pin.c:454-536 | A first PIN is set only where there is none, at least the minimum long, within 63 bytes, with all retries |
| PinSafety.ChangeTakesThePin | src/fido/cbor_client_pin.c:537-715 | A change takes the current PIN, installs the one sent if long enough, ends a forced change and every token |
| PinSafety.RunKeepsPolicy | src/fido/cbor_client_pin.c:499-514 | Over all runs without a power cut the minimum stays in 4..63 and never falls; a set PIN has its true recorded length >= minimum or a change is forced, and then the token can at most write blobs |
| PinSafety.DispatchKeepsPolicy | src/fido/cbor_client_pin.c:696-710 | One command keeps that policy, and a forced change ends only by a change to a different PIN |
| PinSafety.SetMinPinKeepsPolicy | src/fido/cbor_config.c:249-291 | Setting the minimum keeps the policy, forcing a change where the PIN has become too short |
| PinOutcomes.MinimumIff | src/fido/cbor_config.c:249-291 | A minimum is set exactly by a token that may configure, within bounds; a refusal changes nothing |
| PinOutcomes.MinimumLeaves | src/fido/cbor_config.c:249-291 | It forces a change exactly when asked to or when the PIN has become too short, takes the tokens' rights when it does or was asked either way, and leaves the PIN |
| PinOutcomes.ComplexityIff | src/fido/cbor_config.c:205-220 | A complexity policy is set exactly by a token that may configure, and is what was sent |
| PolicyRuns.ForcedChangeSurvivesCutIff | src/fido/cbor_client_pin.c:659-710 | After a successful forced change every image a power cut can leave keeps the policy if and only if the PIN it replaced met the minimum; otherwise flash may hold that PIN with the flag cleared |
| PolicyRuns.DispatchSafety | src/fido/cbor_client_pin.c:499-710 | Every command keeps what makes the policy hold; it leaves flash safe against cuts unless it is such a change, and makes it safe if it commits |
| PolicyRuns.PolicySurvivesCutIff | src/fido/cbor_client_pin.c:659-710 | Over every run, power cuts included, the policy holds as long as power is not cut between a forced change of a PIN below the minimum and the next commit; in that interval, and at no other time, there is a cut that breaks it |
| PolicyRuns.ForcedChangeExposes | src/fido/cbor_config.c:262-280 | Such an interval is reached: set a minimum above the PIN's length, then change the PIN as that forces one to |
| PinSafety.EpochsDistinct | src/fido/object_authorization.c:22-29 | The epoch is never zero and does not repeat within 2^32 - 1 invalidations |
| PinSafety.SameEpochKeepsRights | src/fido/object_authorization.c:24-33 | An epoch found unchanged later in the same power-up means no permission or flag was lost in between |
| PinSafety.DispatchAccounted | src/fido/cbor_client_pin.c:72-117 | Every command that takes away a permission or flag advances the epoch |
| PinSafety.RunKeepsToken | src/fido/cbor_client_pin.c:103-131 | In every run nonzero permissions, presence and verification imply a token in use |
| PinSafety.RunDescends | src/fido/cbor_client_pin.c:96-101 | Between issues, permissions other than blob writing only shrink and no token grows younger |
| PinSafety.TokenLifetime | src/fido/cbor_client_pin.c:294-306 | Before the clock wraps, a command dispatched 30 s or more after issue sees no permissions, unless the clock read zero at issue |
| PinSafety.TokenExpiresIffTimed | src/fido/cbor_client_pin.c:294-306 | The exact condition: a token's life is limited if and only if that reading was not zero |
| PinOutcomes.ClockIs | src/fido/cbor_client_pin.c:294-306 | What the look at the clock leaves: a token past its use or its issue is dropped whole, any other in use loses its presence; the epoch moves on exactly when that takes something |
| PinOutcomes.StopIs | src/fido/cbor_client_pin.c:103-117 | A token that is dropped is dropped whole, and the epoch moves on exactly if any of it was active |
| PinOutcomes.InquiryIs | src/fido/cbor_client_pin.c:285-387 | The first PIN command of a power-up takes the token's rights, and no later one does by itself |
| PinOutcomes.EndsAre | src/fido/fido.c:105-108 | Leaving the application moves the epoch on and nothing else; power-up leaves flash, and no token |
| PinSafety.ZeroReadingLasts | src/fido/cbor_client_pin.c:294-306 | A token issued while the clock read zero is never expired by a later look at the clock, however late |
| PinSafety.ZeroReadingToken | src/fido/cbor_client_pin.c:294-306 | Such a token can be issued, right after power-up and when the 32-bit clock comes round |
| PinSafety.PresenceEndsAuthorityIff | src/fido/cbor_get_assertion.c:460-485 | Once a registration or an assertion has got the user's consent, the token authorizes nothing but blob writing until the next issue if and only if the command uses the consent up, as an assertion does unless told not to and a registration does only when the option names it, or the token had no authority left |
| PinSafety.UsualRegistrationKeepsAuthority | src/fido/cbor_make_credential.c:466-483 | The usual registration, which leaves the option out, is granted and leaves a fresh token able to register again |
| PinOutcomes.AuthorizedIff | src/fido/cbor_make_credential.c:409-429 | A request is authorized exactly by a token in use with the right, a verified user and no other party; that binds it and changes nothing else |
| PinOutcomes.PresenceIff | src/fido/cbor_make_credential.c:466-483 | When presence is granted, with and without a touch |
| PinOutcomes.PresenceLeaves | src/fido/cbor_client_pin.c:82-101 | What it leaves: consent that is used up takes touch, verified user and all rights but blob writing from a token in use; the epoch moves on exactly when something went |
| ClientPinDevice.ByteLength | src/fido/cbor_client_pin.c:499-502 | Finds the bytes before the first zero |
| ClientPinDevice.CodepointLength | src/fido/cbor_client_pin.c:359-368 | Counts code points |
| ClientPinDevice.PolicyPass | src/fido/cbor_client_pin.c:320-357 | True exactly when every character class the policy asks for occurs |
| ClientPinDevice.CheckNewPin | src/fido/cbor_client_pin.c:491-514 | The checks on a decrypted new PIN, in order, and the PIN they accept |
| ClientPinDevice.Authenticator.InvalidateEpoch | src/fido/object_authorization.c:24-29 | Advances the epoch, skipping zero |
| ClientPinDevice.Authenticator.StopUsingToken | src/fido/cbor_client_pin.c:103-117 | Clears the token and advances the epoch if anything was active |
| ClientPinDevice.Authenticator.TickToken | src/fido/cbor_client_pin.c:294-306 | Expires the token or its presence flag as specified |
| ClientPinDevice.Authenticator.TestUserPresence | src/fido/cbor_make_credential.c:466-483 | The presence step of a registration or an assertion: whether it asks for a touch, and whether it clears the flags and permissions |
| ClientPinDevice.Authenticator.Verify | src/fido/cbor_client_pin.c:741-823 | Lowers the counter durably, compares, counts mismatches, restores and upgrades on a match: exactly the specified new state and status |
| ClientPinDevice.Authenticator.SetNewPin | src/fido/cbor_client_pin.c:454-536 | setPIN: exactly the specified new state and status |
| ClientPinDevice.Authenticator.Install | src/fido/cbor_client_pin.c:676-713 | Installs a changed PIN, ends a forced change, resets both tokens |
| ClientPinDevice.Authenticator.ChangeCurrentPin | src/fido/cbor_client_pin.c:537-715 | changePIN: exactly the specified new state and status |
| ClientPinDevice.Authenticator.Issue | src/fido/cbor_client_pin.c:836-856 | Hands out the persistent or a fresh token |
| ClientPinDevice.Authenticator.GetUvToken | src/fido/cbor_client_pin.c:716-862 | Token requests: exactly the specified new state and status |
| ClientPinDevice.Authenticator.AuthorizeRequest | src/fido/cbor_make_credential.c:409-429 | A request authorized by the token binds it to its relying party; any other is refused |
| ClientPinDevice.Authenticator.Serve | src/fido/cbor.c:41-42 | Every request looks at the clock first and then does exactly what its specification says |
| ClientPinDevice.Authenticator.SetMinPinLength | src/fido/cbor_config.c:249-291 | setMinPINLength: exactly the specified new state and status, the reset of the complexity policy included |
| ClientPinDevice.Authenticator.SetComplexityPolicy | src/fido/cbor_config.c:205-220 | The vendor command that sets the complexity policy |
| Crc.CalculateCrc | src/fido/otp.c:315-328 | The loop computes the check sequence of RFC 1662 |
| Crc.ResidueIffTrailer | src/fido/otp.c:566-569 | A frame ends at the residue 0xF0B8 if and only if its last two bytes are the little-endian complement of the rest's check sequence |
| Crc.ClosedFrameIsGood | src/fido/otp.c:893-896 | A frame closed by its trailer always passes the residue check |
| Crc.OneByteErrorShows | src/fido/otp.c:315-328 | A change confined to one byte always changes the check sequence |
| Otp.NextPressGrowsIff | src/fido/otp.c:407-455 | After any events a press emits a greater pair (counter, session) than the last one if and only if, without a reboot in between, the counters are not both at their ends, or, with one, the use counter was below its end and a wrap or a scan has moved it on |
| Otp.EmissionsIncreaseIff | src/fido/otp.c:284-313 | Over any run of presses, reboots, scans that stop short and status requests, emitted pairs strictly increase if and only if every press meets that condition |
| Otp.StatusRepeatsPair | src/fido/otp.c:513-517 | One that does not: where the scan at power-up fails and the status is asked for before the first press, that press repeats the pair of the last power-up |
| Otp.CountedIsPressed | src/fido/otp.c:298-299 | The scan moves on exactly those counters that a press emits, although the two test the flags differently |
| Otp.AdvancesIff | src/fido/otp.c:298-307 | The scan stores a slot exactly when it changes it, and then moves its counter on by one, short of its end |
| Otp.ScanStops | src/fido/otp.c:284-313 | The scan stops at the slot whose new counter cannot be stored, if that slot's counter has to be; the slots before it are moved on |
| Otp.BlockIsGood | src/fido/otp.c:407-429 | Every emitted block passes the residue check and carries the counters it was made for |
| Otp.Application.constructor | src/fido/otp.c:284-313 | Power-up clears the session counters and scans the slots |
| Otp.Application.InitOtp | src/fido/otp.c:284-313 | The scan, unless one has come to its end since power-up: it moves every counted slot on, up to the first that cannot be stored, and does not start if older slots cannot be migrated |
| Otp.Application.ScanFile | src/fido/otp.c:291-307 | Moves one slot on, unless it is saturated, not counted or does not open |
| Otp.Application.GetStatus | src/fido/otp.c:513-517 | Takes the scan as done |
| Otp.Application.ButtonPressed | src/fido/otp.c:331-460 | A press scans if that is still due, emits the slot's pair and advances its counters, and touches no other slot beyond the scan |
| OtpSlots.SwapTwice | src/fido/otp.c:677-767 | The same swap undoes it |
| OtpSlots.SwapSucceedsIff | src/fido/otp.c:677-767 | A swap goes through exactly between two different slots in range that are empty or yield to the access code |
| OtpSlots.Store.SwapSlots | src/fido/otp.c:677-767 | The procedure: exactly the specified slots and status |
| OtpFrames.FrameArrives | src/fido/otp.c:893-904 | A frame fetched report by report arrives whole, numbered, with a trailer that passes the residue check, followed by one closing report |
| OtpFrames.FrameIsReceived | src/fido/otp.c:916-923 | Ten reports received in order put the frame together |
| OtpFrames.KindOfPart | src/fido/otp.c:916-918 | The control bytes that ask for the ten parts of a frame |
| OtpFrames.KindIs | src/fido/otp.c:905-918 | A report resets if all bits of its control byte are set, else it is a part if the top bit is, numbered by the last five |
| OtpFrames.PartTaken | src/fido/otp.c:916-923 | The first part clears what was there, any other leaves the rest of the frame |
| OtpFrames.Keyboard.SendFrame | src/fido/otp.c:893-904 | Closes the frame and sets the sequence counters |
| OtpFrames.Keyboard.GetReport | src/fido/otp.c:956-988 | Hands out the next seven bytes, the closing report, or the status |
| OtpFrames.Keyboard.SetReport | src/fido/otp.c:905-953 | A reset empties the send side, a part of a frame goes to its place, all else is ignored; the tenth part yields the payload exactly when its check sequence is right |
| Assertion.CandidateIff | src/fido/cbor_get_assertion.c:368-383 | A credential is a candidate exactly when some slot holds it for this relying party and lets it load |
| Assertion.Collect | src/fido/cbor_get_assertion.c:368-384 | Collects the first sixteen candidates in slot order |
| Assertion.KeptMultiplicity | src/fido/cbor_get_assertion.c:386-412 | Filtering keeps every eligible credential as often as it was there, and no other |
| Assertion.Compact | src/fido/cbor_get_assertion.c:386-412 | The in-place compaction is that filter, in order |
| Assertion.SortNewestFirst | src/fido/cbor_get_assertion.c:448-458 | The exchange sort permutes the credentials into non-increasing creation order |
| Assertion.ExchangeIsExact | src/fido/cbor_get_assertion.c:368-524 | With an empty allow list the first response and its follow-ups return each usable credential exactly once, newest first, with the count when there is more than one, then nothing more; with none there is only the refusal |
| Assertion.UsableIff | src/fido/cbor_get_assertion.c:386-412 | With at most sixteen candidates, those usable are the loading ones of the party whose credProtect level allows it |
| Assertion.FollowUpExpires | src/fido/cbor_get_assertion.c:62-84 | A follow-up is refused exactly when nothing is left or thirty seconds have passed since the last, and then all is forgotten |
| Assertion.AskAll | src/fido/cbor_get_assertion.c:62-84 | A client that asks once and follows up until it is refused gets exactly the usable credentials, newest first |
| Assertion.Authenticator.Reset | src/fido/cbor_get_assertion.c:46-60 | Forgets the pending assertions |
| Assertion.Authenticator.GetAssertion | src/fido/cbor_get_assertion.c:368-524 | Answers with the newest usable credential and the count, remembers the ranked rest, or reports that there is none |
| Assertion.Authenticator.GetNextAssertion | src/fido/cbor_get_assertion.c:62-84 | Hands out the next remembered credential as specified |
| LargeBlobs.StagingIsPending | src/fido/cbor_large_blobs.c:104-154 | After any accepted, rejected or restarted writes the staging prefix is what was accepted since the last request that began a transfer |
| LargeBlobs.StoredIsAssembled | src/fido/cbor_large_blobs.c:151-163 | The stored array changes only to a complete, intact one: the pending fragments put together |
| LargeBlobs.UploadHolds | src/fido/cbor_large_blobs.c:104-163 | Sending fragments one after the other fills the buffer with them, in order |
| LargeBlobs.RoundTrip | src/fido/cbor_large_blobs.c:85-98 | Any fragmentation of an intact array reads back identically under any sequence of range reads that covers it |
| LargeBlobs.StoredIffIntact | src/fido/cbor_large_blobs.c:151-163 | A complete upload is stored if and only if its trailer matches or it has length 17 |
| LargeBlobs.StoredIffSealed | src/fido/cbor_large_blobs.c:157-163 | That is, longer than 17, if and only if its last sixteen bytes are the digest of the others |
| LargeBlobs.TakenIff | src/fido/cbor_large_blobs.c:101-155 | A fragment is taken in, where it belongs, exactly when it has a permitted size, begins an array with its length or continues one where it ended, and comes with a valid authorization; the first clears the buffer |
| LargeBlobs.UnauthorizedRefused | src/fido/cbor_large_blobs.c:125-147 | Without the parameter, a known protocol, its length, a valid MAC or the permission nothing stored or staged changes, and a well-placed write is told which |
| LargeBlobs.RefusedBecause | src/fido/cbor_large_blobs.c:74-162 | What is said of an authorized request that is refused: the first thing wrong, in order |
| LargeBlobs.OnlyAuthorizedChange | src/fido/cbor_large_blobs.c:125-163 | Over any requests, only an authorized write changes the array or the buffer |
| LargeBlobs.ReadOnly | src/fido/cbor_large_blobs.c:85-98 | A read changes nothing and gives the range asked for, as far as there is any |
| LargeBlobs.Array.CheckAuthorization | src/fido/cbor_large_blobs.c:125-147 | The authorization checks, in order |
| LargeBlobs.Array.TakeIn | src/fido/cbor_large_blobs.c:148-163 | Copies a fragment in and, when complete, checks the trailer and stores the array |
| LargeBlobs.Array.Write | src/fido/cbor_large_blobs.c:99-163 | A write request: exactly the specified new state and response |
| LargeBlobs.Array.Request | src/fido/cbor_large_blobs.c:75-164 | Any request: exactly the specified new state and response |
| CredentialRecords.UpdateKeepsIdentity | src/fido/credential.c:793-828 | For all three layouts an update leaves the resident ID and relying party unchanged, and the result loads |
| CredentialRecords.UpdateKeepsSeedIff | src/fido/credential.c:643-646 | An update keeps the seed of the signing key if and only if the resident ID on record is that seed; a legacy record's key changes |
| CredentialRecords.LegacyLoads | src/fido/credential.c:700-779 | A legacy record loads its credential and derives its resident ID, provided its bytes do not look like one |
| CredentialRecords.PrefixedLoads | src/fido/credential.c:764-776 | A record with a resident ID of either kind loads under it, and the later kind is the seed of its key |
| CredentialRecords.ShortFails | src/fido/credential.c:761-776 | A record with nothing behind its party, or marked but too short for an ID, does not load |
| CredentialRecords.ContainerLoadsIff | src/fido/credential.c:729-760 | A container loads exactly for the party in it, with an ID of the right length and a credential that opens |
| CredentialTable.RoomInIndex | src/fido/credential.c:517-535 | By pigeonhole, while a credential slot is free there is a free index slot |
| CredentialTable.EnterKeeps | src/fido/credential.c:516-568 | A new credential of a known party, or of one whose name could be sealed, always finds a place in the index, which stays right exactly when the party had fewer than 255 before |
| CredentialTable.LeaveKeeps | src/fido/cbor_cred_mgmt.c:417-433 | Taking a credential off keeps the index right, and the last one takes the record with it |
| CredentialTable.StoreKeepsIndexIff | src/fido/credential.c:443-573 | A store never lacks room in the index; it spoils the index if and only if it adds a user to a party that already has 255 credentials, or adds one of a new party whose name cannot be sealed; any other failure changes nothing |
| IndexOverflow.FullPartyOutgrows | src/fido/credential.c:536-556 | From an empty table, 255 users of one party register and leave everything in order; the 256th registers as well, and puts the index out |
| CredentialTable.DeleteKeepsIndex | src/fido/cbor_cred_mgmt.c:412-438 | A deletion keeps the index right |
| CredentialTable.EventKeeps | src/fido/cbor_cred_mgmt.c:453-483 | Registration, re-registration, update and deletion each keep index, loading and cached keys right |
| CredentialTable.RunKeeps | src/fido/credential.c:488-498 | In every run each party has one record with the right count, every credential loads, and every cached public key is the key assertions sign with |
| CredentialEffects.StoreSucceedsIff | src/fido/credential.c:443-573 | A store succeeds exactly when the public key is there, the credential opens, its user is known or a slot can be created, it can be written, and a new user's party is known or can be given a record; why it fails otherwise, and that a store refused for its parameters or for want of room changes nothing |
| CredentialEffects.StoredIsThere | src/fido/credential.c:460-514 | What is stored is there: the credential sent, in the form and under the ID derived from it, with its public key ready, found by its own user and ID alone; in the slot of that user's first credential, else in the first that can be created; and no other slot has changed |
| CredentialEffects.StoredIsListable | src/fido/cbor_cred_mgmt.c:276-309 | A credential just stored can be listed, in a container in any case, as plain bytes exactly where its ID gives a key |
| CredentialEffects.EnterAdds | src/fido/credential.c:516-568 | The index gains one: the party's record counts one more, or a free record becomes its, with its name; no other changes |
| CredentialEffects.DeleteSucceedsIff | src/fido/cbor_cred_mgmt.c:412-442 | A deletion succeeds exactly when some slot has the ID, the first such names its party, and it can be removed; any other changes nothing |
| CredentialEffects.DeletedIsGone | src/fido/cbor_cred_mgmt.c:412-438 | What is deleted is gone: that slot is empty and no other has changed, the party has one credential less, and its record with the last of them none |
| CredentialEffects.DeletedTwice | src/fido/cbor_cred_mgmt.c:412-442 | Where IDs are unique, nothing has the ID afterwards and a second deletion finds no credential |
| CredentialEffects.UpdateSucceedsIff | src/fido/cbor_cred_mgmt.c:453-487 | An update succeeds exactly when the first slot with the ID loads, is of the user named, and can be sealed anew and written; any other changes nothing |
| CredentialEffects.UpdatedIsThere | src/fido/cbor_cred_mgmt.c:466-483 | What is updated holds the credential as sealed anew, in its slot, under its ID, with the public key it had; no other slot has changed |
| CredentialEffects.RunKeepsUser | src/fido/cbor_cred_mgmt.c:412-487 | Over every run a registered user stays registered, in the same slot, until a deletion takes that slot |
| CredentialEnumeration.EnumerationIsExact | src/fido/cbor_cred_mgmt.c:159-203 | Begin and total - 1 nexts list every item exactly once in slot order with the right total, then nothing more |
| CredentialEnumeration.RpEnumerationExactIff | src/fido/cbor_cred_mgmt.c:159-224 | Enumerating the relying parties lists every live one exactly once, in order, with the right total, if and only if the names of all of them open; a party whose name does not is passed over |
| CredentialEnumeration.EnumerationPartitions | src/fido/cbor_cred_mgmt.c:227-276 | Enumerating all parties and the credentials of each lists every credential under exactly one, and each total is the count on record |
| CredentialEnumeration.OutgrownIsHidden | src/fido/cbor_cred_mgmt.c:180-196 | A party's 256th credential makes its count zero, and enumerating the relying parties no longer lists it |
| CredentialEnumeration.LoadingListsAll | src/fido/cbor_cred_mgmt.c:276-309 | Where every credential and its key load, credentials are enumerated like relying parties |
| CredentialEnumeration.UnloadableBlocks | src/fido/cbor_cred_mgmt.c:276-307 | One request: a credential that does not load, or whose key does not, and only that, is refused and leaves the cursor where it is |
| CredentialEnumeration.EnumerationStops | src/fido/cbor_cred_mgmt.c:249-376 | An enumeration lists all credentials before the first that cannot be listed and is then refused at every further request, however many follow |
| CredentialEnumeration.EnumerationExactIff | src/fido/cbor_cred_mgmt.c:227-376 | From any state, begin and total - 1 nexts list every credential of the party exactly once, in order, with the right total, if and only if all of them can be listed |
| CredentialEnumeration.RefusedBeginListsAnother | src/fido/cbor_cred_mgmt.c:249-282 | After a begin refused at the party's first credential, the next request lists the first credential of the party remembered before, which does not belong to the one asked for |
| CredentialEnumeration.RunEnumerates | src/fido/cbor_cred_mgmt.c:227-376 | A begin and follow-ups do, wherever in a run they come, what they do by themselves on the table as it is then |
| CredentialEnumeration.ListedBelongsIff | src/fido/cbor_cred_mgmt.c:373-376 | After any run of begins, follow-ups and changes of the table, what a follow-up lists belongs to the party last asked for if and only if that is the party remembered; otherwise the last begin was refused |
| CredentialEnumeration.NeverStraysIff | src/fido/cbor_cred_mgmt.c:249-376 | Over every run on an unchanged table, each follow-up lists only what belongs to the party last asked for if and only if none comes after a refused begin with another party remembered |
| CredentialEnumeration.LookalikeBlocks | src/fido/cbor_cred_mgmt.c:276-282 | One that cannot be listed: a sealed credential of an earlier firmware that happens to carry the mark of a resident ID; it refuses the enumeration of its party at the first item, whatever follows |
| CredentialEnumeration.MissingKeyBlocks | src/fido/cbor_cred_mgmt.c:292-300 | Another: one in a container whose public key does not read |
| CredentialManagement.Manager.Metadata | src/fido/cbor_cred_mgmt.c:148-158 | The number of credentials is reported right exactly when the table is not full |
| CredentialManagement.Manager.FirstRp | src/fido/cbor_cred_mgmt.c:159-224 | Counts the relying parties and lists the first, or fails on its name |
| CredentialManagement.Manager.NextRp | src/fido/cbor_cred_mgmt.c:180-224 | Lists the next relying party, fails on its name and passes it over, or refuses |
| CredentialManagement.Manager.FirstCred | src/fido/cbor_cred_mgmt.c:227-376 | Counts the party's credentials, lists the first or refuses, and remembers the party only if it listed one of several |
| CredentialManagement.Manager.NextCred | src/fido/cbor_cred_mgmt.c:251-376 | Lists the next credential of the remembered party or refuses |
| CredentialManagement.Manager.FindSlot | src/fido/credential.c:460-487 | Finds the same user's credential, else the first slot that can take a new one |
| CredentialManagement.Manager.EnterIndex | src/fido/credential.c:516-568 | The counted entry of a new credential; a new party is entered only with its name sealed |
| CredentialManagement.Manager.LeaveIndex | src/fido/cbor_cred_mgmt.c:417-433 | The counted removal of a credential |
| CredentialManagement.Manager.StoreCredential | src/fido/credential.c:443-573 | Storing: exactly the specified table and status, failures to write or to seal the party's name included |
| CredentialManagement.Manager.DeleteStored | src/fido/cbor_cred_mgmt.c:412-438 | Deleting: exactly the specified table and status |
| CredentialManagement.Manager.UpdateStored | src/fido/cbor_cred_mgmt.c:453-483 | Updating the user information: exactly the specified table and status, failures to seal anew or to write included |
| Oath.HotpStored | src/fido/oath.c:459-484 | A stored counted credential keeps its tags in order, its factor's value in eight bytes, every other value, and a key that opens to the original |
| Oath.StoredKeyOpensIff | src/fido/oath.c:267-274 | Whatever its type, a stored key opens to the one sent if and only if that did not look sealed |
| Oath.SealedIsUseless | src/fido/oath.c:551-565 | A key that looks sealed is neither a counted one nor of a known hash function |
| Oath.SomeKeyLooksSealed | src/fido/oath.c:176-178 | There are keys of that kind |
| Oath.FirstByte | src/fido/oath.c:66-73 | A key's first byte holds its type above and its hash function below |
| Oath.LooksSealedIff | src/fido/oath.c:176-178 | A key looks sealed exactly when it is the mark and more than a nonce and a tag |
| Oath.EarlierKeyOpens | src/fido/oath.c:219-232 | A key stored unsealed by earlier firmware is used as it is |
| Oath.SealedLookingKeyIsLost | src/fido/oath.c:441-535 | Such a key passes the checks, is stored as it is, and opens to something else |
| Oath.HotpStoredFields | src/fido/oath.c:267-311 | With no tag twice the stored sequence is the one sent, field by field, but for key and factor |
| Oath.PutRefusedIff | src/fido/oath.c:485-535 | A well-formed request is refused exactly when its name is new and no slot is free, and then nothing changes |
| Oath.PutAcceptedIff | src/fido/oath.c:441-535 | What a request needs to be stored; one that is refused changes nothing |
| Oath.PutIsFound | src/fido/oath.c:485-535 | What was stored is what its name finds; it replaces the first of that name, else takes the first free slot, and no other changes |
| Oath.KthComputation | src/fido/oath.c:831-868 | The k-th computation uses the factor plus k - 1 modulo 2^64, and together they change nothing but the factor |
| Oath.StoredFactorCounts | src/fido/oath.c:795-868 | From a stored request on, the k-th computation uses the factor sent plus k - 1, under the original key |
| Oath.TimedCodes | src/fido/oath.c:795-871 | From storing an uncounted credential on, every code is computed from the challenge it was asked with, under the original key, and no computation changes anything |
| Oath.ComputedIff | src/fido/oath.c:808-850 | A code is computed exactly when the name is known, its key opens and names a known hash, and a counted one has its factor; a refusal changes nothing |
| Oath.Application.FindCred | src/fido/oath.c:427-439 | Finds the first credential with a name |
| Oath.Application.UsedSlots | src/fido/oath.c:499-505 | The bitmap has exactly the bits of the slots in use |
| Oath.Application.FreeSlot | src/fido/oath.c:499-508 | Finds the least free slot |
| Oath.Application.Secure | src/fido/oath.c:267-303 | Walks the fields and seals the key |
| Oath.Application.PutCredential | src/fido/oath.c:441-535 | Storing: exactly the specified credentials and status |
| Oath.Application.Calculate | src/fido/oath.c:795-871 | Computing: exactly the specified credentials and input |
| OathPin.OathAttemptsBounded | src/fido/oath.c:984-1005 | Across any run with power cuts, resets and selections anywhere, comparisons since a PIN was last accepted or set plus the retries flash may hold never exceed three |
| OathPin.OpenIffOpened | src/fido/oath.c:567-638 | In every run from power-up the application is open if and only if the right PIN, a right answer for the access code, any answer where there is no code, a reset, or a selection with neither PIN nor code opened it, and no wrong PIN, new code, power cut or selection with either has closed it since |
| OathPin.PinWithoutCodeIsBypassed | src/fido/oath.c:691-704 | With a PIN but no access code, any VALIDATE with a challenge and a response opens the application, though it reports a failure |
| OathPin.PinGuardsIff | src/fido/oath.c:691-748 | Short of a reset only the right PIN opens a closed application if and only if there is an access code that opens to no usable key |
| OathPin.PinNeverGuards | src/fido/oath.c:567-619 | Over every run that starts without an access code, power cuts included, there is no such state: whenever a PIN is set and the application closed, some VALIDATE opens it |
| OathPin.CodeRoundTrip | src/fido/oath.c:602-619 | A code just set closes the application; its key answers the new challenge, and the application proves that it knows it too |
| OathPinOutcomes.FirstPinIff | src/fido/oath.c:1007-1029 | A first PIN is set exactly by someone admitted where there is none; a refusal changes nothing |
| OathPinOutcomes.ChangedIff | src/fido/oath.c:1031-1061 | A change succeeds exactly with the current PIN while tries are left, and leaves the new one on record with all its tries; it admits nobody |
| OathPinOutcomes.VerifiedIff | src/fido/oath.c:1063-1092 | Verification succeeds exactly with the PIN on record while tries are left; it admits and restores the tries |
| OathPinOutcomes.WrongPinCosts | src/fido/oath.c:984-1005 | A wrong PIN costs a try and, on verification, any admission there was |
| OathPinOutcomes.FailureCosts | src/fido/oath.c:1031-1092 | Whatever goes wrong once the counter could be lowered costs a try, and nothing else does |
| OathPinOutcomes.PinRefusal | src/fido/oath.c:1007-1092 | What is said of a PIN command that is refused: the first thing wrong, in order |
| OathPinOutcomes.ChangedPinCounts | src/fido/oath.c:1007-1061 | After a PIN is set or changed it, and no other, verifies |
| OathPinOutcomes.CodeSetIff | src/fido/oath.c:567-619 | A code is set exactly by someone admitted who proves to know it, an empty one takes it off; the first closes the application, the second leaves it open |
| OathPinOutcomes.ValidatedIff | src/fido/oath.c:691-755 | A code is validated exactly by the keyed hash of the last challenge under it, and answered with that of the client's own; without a code anything opens the application and is called invalid |
| OathPinOutcomes.CodeRefusal | src/fido/oath.c:567-755 | What is said of a command about the code that is refused: the first thing wrong, in order |
| OathPinOutcomes.ResetIff | src/fido/oath.c:621-638 | A reset needs its confirmation alone and leaves neither PIN nor code |
| OathPinOutcomes.SelectedIs | src/fido/oath.c:120-123 | Selection admits exactly where there is neither PIN nor code, and leaves a code sealed and challenged |
| OathPin.Application.Check | src/fido/oath.c:984-1005 | Lowers the counter durably, then compares |
| OathPin.Application.SetAccessCode | src/fido/oath.c:567-619 | SET CODE: exactly the specified state and status |
| OathPin.Application.ValidateCode | src/fido/oath.c:691-755 | VALIDATE: exactly the specified state, status and proof |
| OathPin.Application.ResetApplication | src/fido/oath.c:621-638 | RESET: exactly the specified state and status |
| OathPin.Application.SelectApplication | src/fido/oath.c:120-123 | Selection decides anew whether a check is needed, and seals a code of earlier firmware |
| OathPin.Application.SetOtpPin | src/fido/oath.c:1007-1029 | Setting a first PIN: exactly the specified state and status |
| OathPin.Application.ChangeOtpPin | src/fido/oath.c:1031-1061 | Changing the PIN: exactly the specified state and status |
| OathPin.Application.VerifyOtpPin | src/fido/oath.c:1063-1092 | Verifying the PIN: exactly the specified state and status |

## Left out

- ContainerRuns.RunRepresents: runs in which every creation over an existing container is guarded, since CreateUpdateCreate shows the claim false otherwise, and in which no write fails; deletion is one atomic commit.
- ContainerRuns.ReadsTable: reads of containers with four objects; buffer capacities are not modelled.
- ContainerDevice.Device.Update: allocation failures, which end a call without a further operation, are not modelled; deletions do not fail.
- ContainerDevice.Device.ReplaceFile: a deletion that fails is not modelled.
- ContainerDevice.Device.WriteAll: failures to allocate or to seal are not modelled.
- ContainerDevice.Device.ReadObject: the capacity of the caller's buffer is not modelled.
- ContainerDevice.Device.AcceptsManifest: the record header parser belongs to the SDK and is not part of this model; it is represented by the record being there with the descriptor's size. The SDK's limit on objects per manifest is taken as 16.
- ContainerFaults.RetryAtomicIffClear: one failed update and one retry, not runs of them.
- ContainerHistory.CreateEnabledIffEven: an update that was cut short leaves the count open until the next completed creation or deletion.
- PinSafety.RunKeepsPolicy: runs without power cuts, in which the minimum never falls; PolicyRuns.PolicySurvivesCutIff is about the others.
- PinSafety.PinAttemptsBounded: factory reset is not an event of these runs; the PIN file is always in one of the two formats the firmware writes.
- PolicyRuns.PolicySurvivesCutIff: the key file, which a PIN change rewraps and commits before the PIN file, is not part of the policy.
- PinSafety.TokenLifetime: before the millisecond clock wraps.
- PinSafety.PresenceEndsAuthorityIff: the checks of a registration or an assertion around its presence step are not modelled, and neither is the presence test of a selection or an empty authorization.
- Otp.EmissionsIncreaseIff: the counter file is taken to be durable before the next power-up, the store of a press does not fail, and the slot is not reconfigured.
- Otp.Application.ButtonPressed: a press on a counted slot 3 or 4 would index past the two session counters and is left out. HOTP, static and challenge-response slots emit nothing here.
- Assertion.ExchangeIsExact: the empty allow list; the matching loops of a non-empty one are not modelled.
- CredentialTable.RunKeeps: runs in which no store outgrows its party's count or fails to seal a new party's name, the two cases StoreKeepsIndexIff singles out; the record, the index and the container are written without a power cut in between.
- CredentialEnumeration.ListedBelongsIff: the buffer of the remembered hash is released after a follow-up that is refused or is the last of its list; the model takes it to keep its contents. The same goes for EnumerationStops and NeverStraysIff. Authorization of management requests is not part of it.
- CredentialRecords.UpdateKeepsIdentity: stored bytes shorter than a resident ID that nevertheless carry its mark are taken not to load.
- Oath.StoredFactorCounts: factors of at most eight bytes; fields are tagged values, so the byte-level shifting and the length encodings are not modelled.
- Oath.Application.Calculate: the keyed hash itself, response truncation and the room left in the response buffer are not modelled.
- OathPin.OpenIffOpened: failures of the keyed hash and of sealing other than those that end the command are not modelled; the credentials a reset deletes are not part of that state.
- The atomicity of a container deletion at a finer grain than its commit.
- OTP slot configuration and update; HOTP digits typed by OTP slots.
- OATH rename, delete, list, calculate-all and HOTP verification.
- Key agreement, key derivation, attestation, the encoders of responses, U2F, vendor and management commands, displays and buttons.
- Any claim of secrecy.
