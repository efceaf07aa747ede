# Verified models of the Statsig server core

This project models six parts of the Statsig SDKs in Dafny and proves what they promise.

**User payload** (`BigEndian`, `PayloadGrammar`, `PayloadBijection`, `PayloadMeaning`, `PayloadReader`,
`PayloadWriter`, `PayloadLayout`). The binary form in which the JVM hands a user to the native library: a version byte,
seven optional strings, a string map and two typed maps. The grammar is a printer on parse trees. The
cursor-driven Rust decoder and the growable-buffer Java encoder are classes, each proved against the
grammar; parser and printer are proved inverse, both ends are joined in one round trip, and the layout is
pinned to literal bytes.

**Spec store** (`SpecUpdates`, `SpecStore`, `GlobalConfigs`, `SpecStoreInterleaving`, `DataStoreWrites`,
`ConfigInterleaving`, `IdLists`). An update is prepared under a read lock, applied under a write lock and
announced under a read lock. Serial runs are runs of a class; concurrent runs are runs of a step relation in which each
lock-protected section, and each call to the data store, is one atomic step.

**Secret masking** (`Strings`, `Masking`, `LogLines`). The masking of SDK keys in log output, over all
Unicode strings with their UTF-8 widths, and the truncation in front of it.

**Cache keys** (`CacheKeys`). Building data-store keys and switching their format field by search and
replace.

**Trampoline slots** (`FiniteSets`, `SlotTable`, `SlotPool`, `SlotPoolSafety`). The slot pools behind the
C++ persistent-storage and observability callbacks. The two files share one design, so there is one model
with any capacity, instantiated at 32. The table and its clients are classes; concurrent use is a step
relation with explicit reference counts and buffer frees. `Inv` is the invariant of all reachable states:
`Reached` states that every run keeps it, so a lemma that requires `Inv` speaks of every reachable state.

**Background start** (`BackgroundStart`). The check-then-act flag that normal and timed-out
initialization share.

Everything the code calls but does not define is a parameter, and every result holds for all of them:
UTF-8 validity (section 4 of RFC 3629), JSON parsing (RFC 8259), `char::is_alphanumeric` beyond ASCII,
the hash, the specs deserializers, how an ID list is created and updated, clocks, lock acquisition, what
the native bridge and the data store answer.

## Where code and documentation differ

- `sanitize_secret_key` is documented to mask every key. It uses a character count as a byte offset, so
  keys with non-ASCII alphanumerics make it panic or show through. `SanitizeMasksIffKeysAscii` gives the
  exact condition, `SanitizePanicsExactly` when it panics, `NonAsciiKeysFail` both failures. What it does
  return never shows more than five alphanumerics between a marker and its stars
  (`SanitizedMarkersAreMasked`).
- Switching the format of a cache key looks for formats in a fixed order anywhere in the key.
  `SwitchHitsTheField` says exactly when the format field is the one replaced, `MissRewritesTheKeyPart` what
  happens otherwise. The keys derived from a selected key always meet the condition (`DerivedKeys`), and no
  caller in the repository switches any other key: statsig-rust/src/spec_store.rs:61 and
  statsig-rust/src/specs_adapter/statsig_data_store_specs_adapter.rs:51 both start from the plain-text key.
- The comments of the decoder call its construction the same as before; a user with neither user ID nor
  custom IDs comes out with an empty user ID (`RoundTrip`).
- Global configs are merged before the write lock is taken, in three lock sections. So an update that then
  fails to get the lock leaves its configs behind (`SpecStore.SpecsUpdateApply`, `GivenUpConfigsStay`), and
  one updater's values can be installed under another's configs (`ConfigsOfTheOtherStay`).
  `AppliedSettingStaysExactly` says exactly when an applied update's setting stands.
- Apply does not compare again under the write lock, so two updaters can take the store back in time, even
  to not ready (`RaceGoesBack`). `GoesBackExactlyWhenOvertaken` says exactly when,
  `ReadinessLostExactlyWhenOvertakenByZero` when readiness is lost.
- Writes to the data store are spawned without ordering, and carry the time of the apply, not of the
  notification. So an older payload can be the one that stays, when writes overlap (`OlderWriteCanLandLast`)
  and when they do not (`LateNotifyLandsLast`). `NewestStaysExactly` says exactly when the newest one stays.
- The flag that guards background tasks is stored after scheduling, so a timeout can schedule twice
  (`TimeoutCanScheduleTwice`), and a failed scheduling is not retried (`NoRoundAfterStore`).
- A throw while looking up a slot or copying arguments leaves the argument buffer unfreed; the ownership
  comment of `consume_args` does not mention this (`LeaksExactlyAtThrows`, with a run for each throw in
  `LookupThrowLeaks` and `CopyThrowRun`).

## Model

| member | source | states |
|---|---|---|
| `BigEndian.DecodeEncode` | statsig-ffi/src/user_payload.rs:151-163 | reading back a written two's-complement integer gives it back, over the whole signed range of any width |
| `BigEndian.EncodeDecode` | statsig-ffi/src/user_payload.rs:151-163 | every byte string of an integer's width is the encoding of exactly the integer read from it, so no two byte strings read alike |
| `BigEndian.FourBytes` | statsig-ffi/src/user_payload.rs:151-156 | the value of four bytes by their weights, the first one signed |
| `BigEndian.EightBytes` | statsig-ffi/src/user_payload.rs:158-163 | the same for eight bytes |
| `BigEndian.WrittenAsFour` | statsig-java/src/main/java/com/statsig/StatsigUserPayload.java:209-215 | the four bytes written for an integer are those whose weighted sum it is |
| `BigEndian.MinusOne` | statsig-java/src/main/java/com/statsig/StatsigUserPayload.java:243-247 | the null sentinel is four bytes 255 |
| `PayloadBijection.IntSound` | statsig-ffi/src/user_payload.rs:151-156 | an accepted integer lies in range and its encoding is the bytes that were consumed |
| `PayloadBijection.TextComplete` | statsig-ffi/src/user_payload.rs:175-195 | a printed optional string, -1 sentinel included, is read back whatever follows it |
| `PayloadBijection.TextSound` | statsig-ffi/src/user_payload.rs:175-195 | whatever is accepted as an optional string prints to the bytes that were consumed; other negative lengths, overruns and invalid UTF-8 are rejected |
| `PayloadBijection.ValueSound` | statsig-ffi/src/user_payload.rs:241-264 | an accepted tagged value is one of the six kinds and prints to the bytes consumed |
| `PayloadBijection.ValueComplete` | statsig-ffi/src/user_payload.rs:241-264 | every tagged value, JSON leaves included, is read back whatever follows it |
| `PayloadBijection.CountedSound` | statsig-ffi/src/user_payload.rs:201-219 | an accepted map is absent exactly for the count -1, and prints to the bytes consumed |
| `PayloadBijection.CountedComplete` | statsig-ffi/src/user_payload.rs:226-269 | every entry list with a count in range is read back whatever follows it |
| `PayloadBijection.AcceptsExactlyTheLanguage` | statsig-ffi/src/user_payload.rs:24-44 | a byte string is accepted if and only if it is the printing of some parse tree of the written-out grammar |
| `PayloadBijection.TreeIsUnique` | statsig-ffi/src/user_payload.rs:24-44 | two trees with the same bytes are the same tree |
| `PayloadBijection.PrintParse` | statsig-ffi/src/user_payload.rs:78-115 | re-encoding what was accepted gives back the same bytes |
| `PayloadBijection.PrefixFree` | statsig-ffi/src/user_payload.rs:103-115 | no proper extension and no proper prefix of an accepted payload is accepted |
| `PayloadBijection.UserPayloadBijection` | statsig-ffi/src/user_payload.rs:78-270 | parser and printer are inverse on every byte string and every tree, for every UTF-8 test and JSON parser; acceptance is prefix-free |
| `PayloadBijection.OversizedCountsRejected` | statsig-ffi/src/user_payload.rs:201-269 | a declared count that the bytes ahead cannot carry, at eight bytes a string entry and five a typed entry, is rejected whatever those bytes are |
| `PayloadMeaning.LastPairWins` | statsig-ffi/src/user_payload.rs:211-218 | with repeated keys the last entry is the one in the map |
| `PayloadMeaning.InsertedKeys` | statsig-ffi/src/user_payload.rs:211-218 | the keys of the map are exactly the keys of the entries |
| `PayloadMeaning.ListingGivesMap` | statsig-ffi/src/user_payload.rs:236-268 | inserting the content of a map in any order gives that map |
| `PayloadMeaning.NullEntriesAddNothing` | statsig-ffi/src/user_payload.rs:197-218 | a string entry with a null part takes at least eight bytes and changes nothing, wherever it stands |
| `PayloadMeaning.RoundTrip` | statsig-ffi/src/user_payload.rs:116-134 | every user, its maps listed in any order, decodes to its seven scalars and three maps; only a user with neither user ID nor custom IDs changes, to the empty user ID |
| `PayloadMeaning.EncodableIsCarried` | statsig-ffi/src/user_payload.rs:24-44 | every user whose texts, map sizes and values the format can express is carried by some payload |
| `PayloadMeaning.DecodingReachesExactlyTheEncodable` | statsig-ffi/src/user_payload.rs:78-135 | a user is the decoding of some byte string if and only if it is such a user, up to the default user ID |
| `PayloadLayout.TextLayout` | statsig-ffi/src/user_payload.rs:24-44 | the bytes of an absent and of a present text, written out |
| `PayloadLayout.MapLayout` | statsig-ffi/src/user_payload.rs:24-44 | the bytes in front of an absent and of a present map, written out |
| `PayloadLayout.ValueLayout` | statsig-ffi/src/user_payload.rs:241-264 | the six kinds of values with their literal tags 1 to 6 and what each decodes to |
| `PayloadLayout.UserIdPayload` | statsig-ffi/src/user_payload.rs:323-340 | the literal bytes of a user with only a user ID decode to that user |
| `PayloadLayout.CustomIdPayload` | statsig-ffi/src/user_payload.rs:342-368 | the literal bytes of a user with one custom ID decode to that user |
| `PayloadLayout.CustomPayload` | statsig-ffi/src/user_payload.rs:370-407 | the literal bytes of one custom or private attribute of any of the six kinds decode to that attribute in that map |
| `PayloadLayout.OtherVersionsRejected` | statsig-ffi/src/user_payload.rs:409-420 | every first byte but 1, and the empty payload, are rejected |
| `PayloadLayout.OtherTagsRejected` | statsig-ffi/src/user_payload.rs:485-526 | every tag but 1 to 6 is rejected, and a null where a text must be |
| `PayloadReader.Reader.ReadU8` | statsig-ffi/src/user_payload.rs:145-149 | the byte at the cursor and one step, or nothing at the end |
| `PayloadReader.Reader.ReadI32` | statsig-ffi/src/user_payload.rs:151-156 | the weighted sum of the four bytes ahead, the first one signed, or nothing when there are fewer; the cursor never passes the end or moves back |
| `PayloadReader.Reader.ReadI64` | statsig-ffi/src/user_payload.rs:158-163 | the same for eight bytes |
| `PayloadReader.Reader.ReadF64` | statsig-ffi/src/user_payload.rs:165-170 | the eight raw bytes ahead, or nothing |
| `PayloadReader.Reader.ReadOptString` | statsig-ffi/src/user_payload.rs:175-195 | does to the bytes ahead what the optional-string parser does |
| `PayloadReader.Reader.ReadStringMap` | statsig-ffi/src/user_payload.rs:201-219 | the loop yields the map that the parsed entry list means, and begins no more entries than the bytes consumed allow |
| `PayloadReader.Reader.ReadTypedMap` | statsig-ffi/src/user_payload.rs:226-269 | the same for typed values |
| `PayloadReader.InsertStringsIsInserted` | statsig-ffi/src/user_payload.rs:210-218 | entry-by-entry insertion while reading equals parsing the whole list and inserting it |
| `PayloadReader.InsertTypedIsInserted` | statsig-ffi/src/user_payload.rs:235-268 | the same for typed maps |
| `PayloadReader.DecodeUserPayload` | statsig-ffi/src/user_payload.rs:78-135 | the imperative decoder returns the meaning of the unique parse tree or nothing, and the entries it begins are bounded by a fifth of the payload length plus one, whatever counts are declared |
| `PayloadWriter.Writer.Ensure` | statsig-java/src/main/java/com/statsig/StatsigUserPayload.java:187-202 | room for the extra bytes, contents kept; fails exactly when the largest array would be exceeded |
| `PayloadWriter.Writer.WriteInteger` | statsig-java/src/main/java/com/statsig/StatsigUserPayload.java:209-215 | the shifts and casts append the big-endian two's-complement bytes |
| `PayloadWriter.Writer.PatchInt` | statsig-java/src/main/java/com/statsig/StatsigUserPayload.java:224-229 | replaces four reserved bytes and nothing else |
| `PayloadWriter.Writer.WriteString` | statsig-java/src/main/java/com/statsig/StatsigUserPayload.java:243-253 | appends the printing of an optional string, or fails when it does not fit |
| `PayloadWriter.Writer.WriteTaggedValue` | statsig-java/src/main/java/com/statsig/StatsigUserPayload.java:144-173 | appends the tag and the value's printing |
| `PayloadWriter.Writer.WriteStringMap` | statsig-java/src/main/java/com/statsig/StatsigUserPayload.java:98-118 | reserving, writing and patching gives the printing of the kept entries under their exact count |
| `PayloadWriter.Writer.WriteTypedMap` | statsig-java/src/main/java/com/statsig/StatsigUserPayload.java:126-142 | the same for typed maps |
| `PayloadWriter.Encode` | statsig-java/src/main/java/com/statsig/StatsigUserPayload.java:57-89 | returns exactly the grammar's printing of the kept entries, and fails exactly when that exceeds 2147483639 bytes |
| `PayloadWriter.EncodedUserDecodes` | statsig-java/src/main/java/com/statsig/StatsigUserPayload.java:57-89 | what the Java encoder writes for a user, null entries and hash order included, the Rust decoder reads as that user |
| `Masking.SplitJoin` | statsig-rust/src/logging_utils.rs:4-6 | splitting recovers the segments of any marker-free decomposition |
| `Masking.JoinSplit` | statsig-rust/src/logging_utils.rs:4-6 | the segments are marker-free and join to the text |
| `Masking.MaskedSplits` | statsig-rust/src/logging_utils.rs:4-22 | masking creates and destroys no marker, also across joins |
| `Masking.MaskedKeepsOutside` | statsig-rust/src/logging_utils.rs:7-20 | segment by segment the key is cut to five characters and the text outside keys is kept in order |
| `Masking.EveryMarkerIsMasked` | statsig-rust/src/logging_utils.rs:14-20 | every marker in the output is followed by at most five alphanumerics and then five stars |
| `Masking.MaskedHidesExactlyTheKeys` | statsig-rust/src/logging_utils.rs:5-22 | two texts mask alike if and only if they agree outside their keys and on the first five characters of each key |
| `Masking.SanitizeMasksIffKeysAscii` | statsig-rust/src/logging_utils.rs:4-22 | the code, with its character count used as a byte offset, does the documented masking if and only if every key is ASCII |
| `Masking.SanitizedText` | statsig-rust/src/logging_utils.rs:4-22 | in so many words: text, marker, a key of ASCII letters and digits and the rest come out with the first five characters of the key and five stars in its place |
| `Masking.SanitizedMarkersAreMasked` | statsig-rust/src/logging_utils.rs:4-22 | whatever the keys, in every text the code returns each marker is followed by at most five alphanumerics and then five stars |
| `Masking.SanitizePanicsExactly` | statsig-rust/src/logging_utils.rs:12-15 | the code panics if and only if, in some key, the byte offset equal to its character count, or byte five of a key longer than five, falls inside a character |
| `Masking.NonAsciiKeysFail` | statsig-rust/src/logging_utils.rs:12-15 | a key of one letter U+00E9 makes the slice panic; two of them leave the second in the output |
| `LogLines.TruncatedKeys` | statsig-rust/src/output_logger.rs:155-166 | every key of the truncated message is the start of what followed the same marker of the message, wherever the cut fell |
| `LogLines.LineShowsAtMostFive` | statsig-rust/src/output_logger.rs:155-167 | each marker of a log line shows at most five characters of the key that followed it in the message |
| `LogLines.LineMarkersAreMasked` | statsig-rust/src/output_logger.rs:155-167 | for every message each marker of the line is followed by at most five alphanumerics and then five stars |
| `LogLines.AsciiMessagesAreSafe` | statsig-rust/src/output_logger.rs:155-167 | every ASCII message meets the condition of the previous row |
| `LogLines.LineLength` | statsig-rust/src/output_logger.rs:155-167 | a line has at most 685 characters, for every message |
| `LogLines.TruncatedTo` | statsig-rust/src/output_logger.rs:155-165 | a message of at most 400 characters is kept whole; of a longer one the first 386 characters and the suffix |
| `CacheKeys.CacheKeyInjective` | statsig-rust/src/data_store_interface.rs:113-133 | keys determine path, format and key part, even when the key part holds bars |
| `CacheKeys.DerivedKeys` | statsig-rust/src/data_store_interface.rs:62-69 | for every path and SDK key the two derived keys are the selected key with only the format field set, and differ |
| `CacheKeys.SelectedKeysDiffer` | statsig-rust/src/data_store_interface.rs:113-133 | equal selected keys have equal paths and key parts |
| `CacheKeys.AsciiKeyPart` | statsig-rust/src/data_store_interface.rs:124-128 | an ASCII SDK key is cut to its first 20 characters and never makes the truncation panic |
| `CacheKeys.HashedKeys` | statsig-rust/src/data_store_interface.rs:113-133 | under the default version the selected key and both derived keys, written out for each path, end with the hash of the SDK key |
| `CacheKeys.ReadableKeys` | statsig-rust/src/data_store_interface.rs:113-133 | under the readable version the key ends with the first 20 bytes of the SDK key, or all of a shorter one; it panics exactly when byte 20 is inside a character |
| `Strings.OffsetOfPrefix` | statsig-rust/src/data_store_interface.rs:124-128 | the byte offset of every prefix is found |
| `CacheKeys.SwitchHitsTheField` | statsig-rust/src/data_store_interface.rs:135-151 | switching changes exactly the format field if and only if no format searched earlier occurs in the key part |
| `CacheKeys.LastSwitchWins` | statsig-rust/src/data_store_interface.rs:135-151 | with no bar in the key part switching is idempotent and the last switch wins |
| `CacheKeys.MissRewritesTheKeyPart` | statsig-rust/src/data_store_interface.rs:135-151 | whenever a format searched earlier is found in the key part, the result has the old format field and the key part with that occurrence replaced |
| `CacheKeys.HitOrMiss` | statsig-rust/src/data_store_interface.rs:135-151 | that case is exactly the complement of the one in which the field is hit |
| `CacheKeys.SwitchingBackCanMiss` | statsig-rust/src/data_store_interface.rs:135-151 | switching a statsig-br key to plain text changes nothing when the key part holds a marked plain_text; when it holds a marked gzip, that becomes plain_text and the format field stays |
| `SpecUpdates.PrepNeverGoesBack` | statsig-rust/src/spec_store.rs:497-522 | an update let through is no older than the values it was compared with and has another checksum |
| `SpecUpdates.FormatExactly` | statsig-rust/src/spec_store.rs:414-426 | a response is protobuf if and only if both headers are there and hold their literal texts |
| `SpecUpdates.LetThroughExactly` | statsig-rust/src/spec_store.rs:241-297 | an update is let through if and only if it deserializes to values that say they are an update, are no older and have another checksum |
| `SpecUpdates.TurnedDownExactly` | statsig-rust/src/spec_store.rs:497-522 | it is turned down as older if and only if it deserializes and the time or the checksum part fails |
| `SpecUpdates.OtherwiseNoUpdates` | statsig-rust/src/spec_store.rs:270-296 | otherwise the no-update form decides, and the first error is the one reported |
| `SpecUpdates.SpawnedExactly` | statsig-rust/src/spec_store.rs:443-495 | a write is spawned if and only if the update is from the network, no delta, and there is a store; with its key, body, time and format |
| `SpecStore.SpecStore.SetSource` | statsig-rust/src/spec_store.rs:77-85 | only the source changes, and only under the lock |
| `SpecStore.SpecStore.SpecsUpdatePrep` | statsig-rust/src/spec_store.rs:241-297 | the two deserializations with their error precedence, as a decision about the current values |
| `SpecStore.SpecStore.SpecsUpdateApply` | statsig-rust/src/spec_store.rs:299-326 | all four fields replaced, or none when the lock fails; global configs merged in both cases |
| `SpecStore.SpecStore.SetValues` | statsig-rust/src/spec_store.rs:181-227 | the whole update: new state and result in every combination of lock failures |
| `SpecStore.SetValuesAllOrNothing` | statsig-rust/src/spec_store.rs:181-227 | a call replaces values, source, source API and receive time together or leaves all four, and never goes back in time |
| `SpecStore.FreshUpdatesAreInstalled` | statsig-rust/src/spec_store.rs:181-227 | at any point of a run an update with fresh values is installed, merged and written as far as its locks allow, with the matching result; any other update changes nothing |
| `SpecStore.FailsExactly` | statsig-rust/src/spec_store.rs:181-227 | a call fails if and only if a lock it needs is not acquired or no deserialization succeeds |
| `SpecStore.SourceIsSet` | statsig-rust/src/spec_store.rs:77-85 | at any point of a run setting the source changes the source alone, under the lock alone |
| `SpecStore.ReadyExactlyAfterInstall` | statsig-rust/src/init_details.rs:43-50 | from the start, readiness is reported if and only if the lock is acquired, there was no timeout, and values of a time other than zero were installed before |
| `SpecStore.TimeNeverDecreases` | statsig-rust/src/spec_store.rs:241-326 | over any serial run the time never decreases |
| `SpecStore.ReadinessStays` | statsig-rust/src/init_details.rs:43-50 | once an initialization reported spec readiness, a later one reports it if and only if it gets the read lock and does not time out |
| `SpecStore.ConfigsAreMerged` | statsig-rust/src/spec_store.rs:299-305 | over any serial run the global configs are the start merged with exactly the accepted updates' fields |
| `SpecStore.ConfigsStayInRange` | statsig-rust/src/spec_store.rs:428-441 | from the defaults, every sampling rate stays within 0 and 10000 and no default key is lost |
| `SpecStore.DefaultRatesStand` | statsig-rust/src/global_configs.rs:46-57 | until an update names them, the four default sampling rates have their literal values and no other rate exists |
| `SpecStore.KeysNeverDisappear` | statsig-rust/src/spec_store.rs:299-305 | a key that the global configs hold at some point of a run they hold at every later one |
| `SpecStore.TasksComeFromAcceptedUpdates` | statsig-rust/src/spec_store.rs:443-495 | every data-store write of a run was spawned by one of its fully applied updates |
| `GlobalConfigs.GlobalConfigs.SetSdkConfigs` | statsig-rust/src/global_configs.rs:75-86 | right-biased merge whatever the iteration order; nothing without the lock |
| `GlobalConfigs.GlobalConfigs.SetSdkFlags` | statsig-rust/src/global_configs.rs:88-99 | the same for flags |
| `GlobalConfigs.GlobalConfigs.SetDiagnosticsSamplingRates` | statsig-rust/src/global_configs.rs:101-115 | the same for rates, each clamped on the way in |
| `GlobalConfigs.GlobalConfigs.Update` | statsig-rust/src/spec_store.rs:428-441 | each field that is present and gets its own lock is merged, the others leave their map alone |
| `GlobalConfigs.MergesKeepKeysAndRange` | statsig-rust/src/global_configs.rs:75-115 | over any number of merges no key disappears and rates stay in range |
| `GlobalConfigs.LastUpdateDecides` | statsig-rust/src/global_configs.rs:75-115 | the last update that names a key decides its value |
| `GlobalConfigs.UnnamedKeysKept` | statsig-rust/src/global_configs.rs:75-115 | a key no update names keeps its value |
| `SpecStoreInterleaving.PrepExists` | statsig-rust/src/spec_store.rs:241-297 | whatever is about to be applied was let through by a prep of the same updater and carried unchanged since |
| `SpecStoreInterleaving.AppliedValuesNoOlderThanPrep` | statsig-rust/src/spec_store.rs:181-326 | in every interleaving an apply installs values no older than the store its own prep read |
| `SpecStoreInterleaving.GoesBackOnlyWhenRaced` | statsig-rust/src/spec_store.rs:181-326 | the time goes down only at an apply, and only if another updater's apply fell between that update's prep and it |
| `SpecStoreInterleaving.GoesBackExactlyWhenOvertaken` | statsig-rust/src/spec_store.rs:181-326 | a step takes the time down if and only if it applies an update that was overtaken: the last update applied between its prep and it carried a newer time |
| `SpecStoreInterleaving.ReadinessLostExactlyWhenOvertakenByZero` | statsig-rust/src/init_details.rs:43-50 | spec readiness is lost at a step if and only if it applies an overtaken update of time zero |
| `SpecStoreInterleaving.OneUpdaterNeverGoesBack` | statsig-rust/src/spec_store.rs:181-326 | with at most one update in flight the time never goes down |
| `SpecStoreInterleaving.RaceGoesBack` | statsig-rust/src/spec_store.rs:299-326 | a run of two updaters in which the time does go down, and readiness with it |
| `ConfigInterleaving.StoreRunsAsBefore` | statsig-rust/src/spec_store.rs:299-326 | with the three merges as steps of their own, the store still runs as one of the interleavings above |
| `ConfigInterleaving.LastSetDecides` | statsig-rust/src/global_configs.rs:75-115 | in every interleaving the last granted merge that names a key decides its value |
| `ConfigInterleaving.AppliedSettingStaysExactly` | statsig-rust/src/spec_store.rs:299-305 | an applied update made its three merges before; if the one for a key got its lock, the key has the update's value if and only if no later merge, by whichever updater and whatever became of it, overrode it; if it did not, if and only if another merge set that value last, or none did and it was there from the start |
| `ConfigInterleaving.OneUpdaterConfigsAgree` | statsig-rust/src/spec_store.rs:299-326 | with one update in flight, locks acquired and none given up half way, the configs hold all that the installed values say whenever no update is being made |
| `ConfigInterleaving.MergesAreTheUpdate` | statsig-rust/src/spec_store.rs:428-441 | the three merge steps, uninterrupted, do what the update of the configs as a method does |
| `ConfigInterleaving.WholeUpdateIsSetValues` | statsig-rust/src/spec_store.rs:181-227 | all steps of an update, uninterrupted, do what set_values as a method does to the store and the configs |
| `ConfigInterleaving.SetSourceIsItsStep` | statsig-rust/src/spec_store.rs:77-85 | setting the source is one step of the machine, with the effect of the method |
| `ConfigInterleaving.GivenUpConfigsStay` | statsig-rust/src/spec_store.rs:304-311 | a run in which an update that fails at the write lock leaves its configs behind with nothing installed |
| `ConfigInterleaving.ConfigsOfTheOtherStay` | statsig-rust/src/spec_store.rs:299-326 | a run in which the values of one updater are installed under the configs of another |
| `DataStoreWrites.RunJustified` | statsig-rust/src/spec_store.rs:525-576 | in every interleaving of write tasks each call to the store is justified by its own task's history |
| `DataStoreWrites.EveryCallWellFounded` | statsig-rust/src/spec_store.rs:443-576 | every call delivers the body of some network update that is no delta; strings only after the same task's bytes were refused as not implemented and only if valid UTF-8 |
| `DataStoreWrites.KeysSeparateFormats` | statsig-rust/src/spec_store.rs:443-576 | with the derived keys, the plain-text key receives exactly the JSON payloads and the statsig-br key exactly the protobuf payloads, as bytes |
| `DataStoreWrites.NotifiedIsSpawned` | statsig-rust/src/spec_store.rs:443-495 | a notified network update that is no delta gets a task with its body, time, format and key |
| `DataStoreWrites.FallsBackExactly` | statsig-rust/src/spec_store.rs:525-561 | a task goes on to a string write if and only if its bytes were refused as not implemented and its body is JSON and valid UTF-8 |
| `DataStoreWrites.StringIsWritten` | statsig-rust/src/spec_store.rs:552-576 | then the body is written as a string and the task ends |
| `DataStoreWrites.FailedReadEndsIt` | statsig-rust/src/spec_store.rs:472-482 | a task whose body cannot be read ends without a call |
| `DataStoreWrites.LastWriterExactly` | statsig-rust/src/spec_store.rs:443-576 | in every interleaving, whatever the times and whichever calls the store lets take effect: a key ends with what task n wrote if and only if n wrote and no task that was not yet notified or not finished at its last write wrote the key later |
| `DataStoreWrites.NewestStaysExactly` | statsig-rust/src/spec_store.rs:443-576 | a key ends with the newest notified time if and only if some task carrying that time wrote and was not overtaken in this way |
| `DataStoreWrites.SerialWritesLandInOrder` | statsig-rust/src/spec_store.rs:525-576 | if each write for a key is finished before the next one for it is notified, calls for a key come in the order of notification |
| `DataStoreWrites.SerialWritesEndNewest` | statsig-rust/src/spec_store.rs:525-576 | then, whatever the times, the newest one stays if and only if some task carrying it wrote and none notified after it did |
| `DataStoreWrites.OlderWriteCanLandLast` | statsig-rust/src/spec_store.rs:443-576 | two writes at work for one key: a run in which the older payload is written last |
| `DataStoreWrites.LateNotifyLandsLast` | statsig-rust/src/spec_store.rs:315-363 | the time is taken at the apply, so a late notification writes the older payload last although the two writes never overlap |
| `IdLists.IdListStore.DidReceiveIdListUpdates` | statsig-rust/src/spec_store.rs:679-706 | retaining and then updating or adding, in any iteration order, is one function of the old lists and the update |
| `IdLists.ListsAreFolds` | statsig-rust/src/spec_store.rs:679-706 | after any updates the names are those of the last one and each list is a fresh list folded with the updates that named it since it was last absent |
| `SlotTable.Table.ClaimSlot` | statsig-cpp/src/persistent_storage.cpp:198-208 | the first empty slot takes the callbacks, or the table is full and unchanged |
| `SlotTable.Table.ReleaseSlot` | statsig-cpp/src/persistent_storage.cpp:210-216 | clears one slot; a negative one is ignored |
| `SlotTable.Client.constructor` | statsig-cpp/src/persistent_storage.cpp:220-240 | registered with a slot, or no slot, no reference and the table as it was |
| `SlotTable.Client.Destroy` | statsig-cpp/src/persistent_storage.cpp:242-251 | releases the reference and then exactly the own slot |
| `SlotPool.NextKeepsInv` | statsig-cpp/src/persistent_storage.cpp:36-251 | every step of every constructor, destructor and dispatch keeps the pool invariant: slots and holders one to one, counts equal to owners, references held and buffers freed as the phase says |
| `SlotPool.Reached` | statsig-cpp/src/persistent_storage.cpp:22-32 | every state that a run from the empty pool reaches satisfies that invariant |
| `SlotPoolSafety.HeldUntilDispatchEnds` | statsig-cpp/src/persistent_storage.cpp:34-39 | callbacks found at the lookup stay allocated until that dispatch ends, in every continuation |
| `SlotPoolSafety.LookupFindsTheHolder` | statsig-cpp/src/persistent_storage.cpp:34-39 | a lookup finds callbacks if and only if some client holds the slot with them at that moment |
| `SlotPoolSafety.DestroyedExactlyWhenUnowned` | statsig-cpp/src/persistent_storage.cpp:34-39 | allocated callbacks are destroyed exactly when no client, slot or dispatch owns them, and for good |
| `SlotPoolSafety.NothingLeaks` | statsig-cpp/src/persistent_storage.cpp:242-251 | when all clients are gone and all dispatches ended, all callbacks are destroyed and all slots empty |
| `SlotPoolSafety.BuffersFreedOnce` | statsig-cpp/src/persistent_storage.cpp:41-57 | an argument buffer is freed at most once, and has been freed exactly when the dispatch copied or discarded it; never after a throw at the lookup or the copy |
| `SlotPoolSafety.LeaksExactlyAtThrows` | statsig-cpp/src/persistent_storage.cpp:41-57 | over every run, a dispatch ends with its buffer unfreed if and only if some step of the run is an enabled throw of it, at the lookup or at the copy, while it has a buffer |
| `SlotPoolSafety.LookupThrowLeaks` | statsig-cpp/src/persistent_storage.cpp:36-39 | a run that leaks by a throw at the lookup |
| `SlotPoolSafety.CopyThrowLeaks` | statsig-cpp/src/persistent_storage.cpp:50-57 | a throw at the copy leaks the buffer from every reachable state in which it can happen |
| `SlotPoolSafety.CopyThrowRun` | statsig-cpp/src/persistent_storage.cpp:64-162 | a run that leaks that way |
| `SlotPoolSafety.EndedForGood` | statsig-cpp/src/persistent_storage.cpp:64-162 | nothing after its end touches a dispatch or its buffer |
| `SlotPoolSafety.SlotsMatchHolders` | statsig-cpp/src/observability_client.cpp:249-303 | occupied slots and holding clients correspond one to one, callbacks matching, and are equally many |
| `SlotPoolSafety.ClaimFailsExactlyWhenFull` | statsig-cpp/src/observability_client.cpp:249-259 | a claim comes back empty if and only if as many clients as slots hold one; otherwise the slot it takes was nobody's |
| `SlotPoolSafety.OthersKeepTheirSlots` | statsig-cpp/src/observability_client.cpp:261-303 | no constructor, destructor or dispatch touches the slot of another client |
| `SlotPoolSafety.RegisteredClientsAreFound` | statsig-cpp/src/observability_client.cpp:271-292 | a registered client holds a slot and dispatches through it find that client's callbacks |
| `SlotPoolSafety.RunsExactlyWhenHandled` | statsig-cpp/src/persistent_storage.cpp:66-75 | after the lookup the callback is run if and only if callbacks were found that have the entry point, and the call is discarded if and only if not |
| `SlotPoolSafety.OnlyHandlersAreRun` | statsig-cpp/src/persistent_storage.cpp:64-162 | in every run a callback runs only for dispatches it has the entry point for |
| `SlotPoolSafety.RegisteredCallbackRuns` | statsig-cpp/src/persistent_storage.cpp:64-98 | a call through the slot of a registered client that handles it runs that client's callback and ends |
| `SlotPoolSafety.AtMostMaxSlotsRegistered` | statsig-cpp/src/observability_client.cpp:24-24 | the pool has 32 slots and at most 32 clients are registered at any time |
| `SlotPoolSafety.ConstructorIsItsSteps` | statsig-cpp/src/persistent_storage.cpp:220-240 | the constructor's atomic steps, uninterrupted, do what the constructor as a method does |
| `SlotPoolSafety.DestructorIsItsSteps` | statsig-cpp/src/persistent_storage.cpp:242-251 | the same for the destructor |
| `BackgroundStart.RoundsAreEarlyLoads` | statsig-rust/src/statsig.rs:2072-2114 | in every interleaving there are as many scheduling rounds as loads of the flag before the first store |
| `BackgroundStart.OneRoundExactlyWhenNoOverlap` | statsig-rust/src/statsig.rs:2072-2153 | at most one round happens if and only if no start reads the flag between a round's load and its store |
| `BackgroundStart.FirstLoadIsARound` | statsig-rust/src/statsig.rs:2079-2081 | without overlap exactly one round happens as soon as any start runs |
| `BackgroundStart.EachRoundAsksOnce` | statsig-rust/src/statsig.rs:2083-2113 | a returned round asked each adapter exactly once and reports whether all agreed; other starts ask none |
| `BackgroundStart.NoRoundAfterStore` | statsig-rust/src/statsig.rs:2111-2111 | once the flag is stored no round begins, even if scheduling failed |
| `BackgroundStart.RoundsPerInitialize` | statsig-rust/src/statsig.rs:2116-2153 | there are never more rounds than initialize calls and timed-out initialize calls together |
| `BackgroundStart.TimeoutCanScheduleTwice` | statsig-rust/src/statsig.rs:2133-2152 | one initialize call that times out while waiting for the specs adapter schedules twice |
| `BackgroundStart.TimeoutSpawnsExactly` | statsig-rust/src/statsig.rs:2133-2152 | a timeout spawns a new start if and only if the call still prepares or its own start waits, and gives that start up; nothing else changes |
| `BackgroundStart.DroppedOnlyWhileWaiting` | statsig-rust/src/statsig.rs:2072-2114 | in every run a start was given up only at one of its await points |
| `BackgroundStart.InitializeStarts` | statsig-rust/src/statsig.rs:2270-2287 | an initialize call that gets that far makes a start of its own |
| `BackgroundStart.BackgroundTasks.Start` | statsig-rust/src/statsig.rs:2072-2114 | an uninterrupted start: the flag is set, each adapter asked at most once, and the result is whether those asked agreed |
| `BackgroundStart.StartIsItsSteps` | statsig-rust/src/statsig.rs:2072-2114 | the atomic steps of a start, uninterrupted, do what the start as a method does: to the flag, to the adapters and in its result |
| `BackgroundStart.SerialStartsAskOnce` | statsig-rust/src/statsig.rs:2072-2114 | any positive number of starts one after another asks each adapter once |

## Left out

- Gate, experiment and layer evaluation, sticky values, exposure and event logging, client-initialize
  formatting.
- The language bindings, C headers, JSON codecs, option builders, the CLI, builds and installers.
- String interning and the instance registry.
- Network adapters, the gRPC client, TLS and runtime spawning; a failed spawn of a data-store write or of
  a timed-out start is not a step of its own, since it is the same as a step that never happens.
- Event emission, metrics and log output; heap release after an update.
- f64 arithmetic: payload floats are their eight raw bytes, sampling rates are real numbers, so NaN and
  rounding are not modelled.
- The Java encoder's choice of a value's kind from its runtime class, its float-to-decimal conversion and
  its JSON serialization: the model starts from the kind and the text chosen.
- Strings of the payload are UTF-8 byte strings; Rust's and Java's string types are not modelled.
- ResponseData as a stream: it is its headers and its body, since every read rewinds it first.
- What the persistent-storage dispatchers do with their arguments after the copy, and the thread-local
  result buffer of a load.
- Exceptions that leave an observability dispatcher at the lookup or the copy, where it has no guard: they
  end the dispatch as a throw does in the guarded file, and what unwinding into the caller does is not
  modelled.
- Country lookup, user-agent parsing and the adapters' own start during initialization.
- The logger's own state and levels.
