# Verified model of the meshtastic-go core

A Dafny model of the hand-written algorithms in the core library: the packet deduplicator, the
channel registry, node names and identifiers, coordinate coarsening, channel keys, the region and
preset map, packet nonces, and XEdDSA signatures. `dafny verify dfyconfig.toml` checks all of it.

| file | models |
|---|---|
| `Dedupe.dfy` | the timed table of seen packets, as a transition system over its locked sections |
| `Channels.dfy`, `Registry.dfy` | channel definitions, registration histories, and the registry with its list and two indexes |
| `Utf8.dfy`, `Names.dfy` | UTF-8 (RFC 3629) and truncation of names to a byte limit |
| `NodeIds.dfy` | printing and parsing node identifiers |
| `Precision.dfy`, `Positions.dfy` | coarsening coordinates, choosing a precision, and runs of coarsening |
| `Base64.dfy`, `Keys.dfy` | base 64 (RFC 4648), short keys, key parsing and the channel hash |
| `Regions.dfy` | the region and preset map, for any region table |
| `Field.dfy`, `Curve.dfy`, `XEdDSA.dfy` | the birational map, clamping, sign normalisation, signing and verifying |
| `Nonce.dfy` | nonces, counter blocks, counter-mode encryption and the signed bytes of a packet |
| `Bits.dfy`, `Bytes.dfy`, `Wrappers.dfy` | and, or, xor and shifts bit by bit; machine words and little- and big-endian encodings; optional values |

## How things are modelled

- Bytes and machine integers are bounded subset types of `int`; every wrap-around, saturation and
  reinterpretation in the code is written out. Masks and shifts are defined bit by bit in
  `Bits.dfy` and related to division there.
- Code that updates state is a class or a method with loops. Each such method is proved equal to a
  specification function or predicate, and the theorems are about that. In `Registry.dfy` every Go
  slice is its own array, so in-place replacement and aliasing are part of the model.
- A deduplicator run is the sequence of locked sections (a purge, or a check) in lock order,
  whoever made them. Statements about every run therefore cover every interleaving of concurrent
  calls and every random purge choice. Steps may take the lock out of clock order by up to `skew`;
  skew 0 is a nondecreasing clock.
- The curve is a record of operations. `Curve.GroupLaws` and `Curve.CoordinateLaws` say what is
  taken from the libraries: a commutative group whose base point has its known order, Edwards
  coordinates over an odd field in which every nonzero element has an inverse, and point decoding
  that recovers every encoded point (section 5.1.3 of RFC 8032). edwards25519 has these
  properties. One more library law is built into `XEdDSA.X25519Public`: X25519 of a private key and
  the base point is the u coordinate of the clamped scalar's multiple of the base point (section 5
  of RFC 7748). SHA-512 is an arbitrary function to 64 bytes, and AES an arbitrary function. That
  the order is prime (`XEdDSA.PrimeOrder`) is assumed by `XEdDSA.TwoMessagesCollide` and
  `XEdDSA.TwoPacketsCollide` alone.
- Beside the specification functions stand lemmas that say what they compute without naming them, in
  the alphabets, byte positions, hash inputs and numbers of the standards and the source.

## What the proofs show about the code and its comments

- `dedupe.go:49` says an unseen packet is recorded. In every run a "not seen" answer records the
  packet exactly when no earlier recording of it was still held (`Dedupe.NotSeenRecordsExactly`);
  otherwise the expired record is deleted, nothing is recorded, and the next answer within the
  expiry, and only that one, is "not seen" again (`Dedupe.NextAnswer`, `Dedupe.TwoNotSeenExactly`,
  with an instance in `Dedupe.ExpiredCheckRecordsNothing`). That is why three answers, not two, are
  needed for the spacing guarantee (`Dedupe.ThreeNotSeen`, `Dedupe.TwoNotSeen`).
- "Seen" always rests on a recording within the expiry, if and only if the expiry is not the largest
  duration (`Dedupe.SeenIsBackedExactly`): saturated subtraction never exceeds that one
  (`Dedupe.LargestExpiryOutlivesItself`).
- The purge and the check disagree about what is expired only at the two extreme durations
  (`Dedupe.PurgeAgreesWithCheck`).
- `position.go:24-25` promises to fail closed on a table with no primary to inherit from. That holds
  when there is no primary at all, but a keyless secondary next to a primary without settings counts
  as private, and so does a 15-byte key that zero-padding turns into a published one;
  `Positions.PublicKeyExactly` shows these are the only wrong answers
  (`Positions.SettingslessPrimaryFailsOpen`, `Positions.PaddedFamilyKeyFailsOpen`).
- `regions.go:140-142` widens the presets of a whole group by looking at the region that created it.
  A region is told its own presets exactly when that first region agrees with it on swapping, or the
  presets are the European union anyway (`Regions.PresetsAreOwn`); in a table where a swappable and
  an ordinary region share a profile the ordinary one is told the union
  (`Regions.OrdinaryRegionToldUnion`).
- `keys.go:128` says the weak 16-byte keys equal the expanded short keys for indices 0-255. They do
  for every index but 0 (`Keys.WeakKeysAreShortKeys`).
- `node_id.go:119` lists plain hexadecimal as an accepted format. Plain eight-digit text keeps its
  hexadecimal value exactly when it shows a letter or is below 10 (`NodeIds.PlainHexRoundTrip`),
  and the eight-character fallback is dead code (`NodeIds.FallbackNeverSucceeds`).
- Printing a channel key and rebuilding the channel fails exactly for keys shorter than 16 bytes and
  for one family member (`Channels.PrintThenRebuild`).

## Model

| member | source | states |
|---|---|---|
| `Dedupe.PurgeAgreesWithCheck` | core/dedupe/dedupe.go:28-46 | the purge drops exactly what the check calls expired, for all times, if and only if the expiry is neither extreme duration |
| `Dedupe.ThreeNotSeen` | core/dedupe/dedupe.go:28-46 | in every run, the first and last of any three "not seen" answers for a key are more than the expiry apart, less twice the skew |
| `Dedupe.TwoNotSeen` | core/dedupe/dedupe.go:28-46 | two "not seen" answers lie within the expiry (less the skew) only if the earlier deleted an expired record |
| `Dedupe.TwoNotSeenExactly` | core/dedupe/dedupe.go:28-46 | in every run, within the expiry (less twice the skew) of a "not seen" answer a check of the same key is "not seen" exactly when that answer deleted an expired record and no check of the key lies between |
| `Dedupe.NextAnswer` | core/dedupe/dedupe.go:28-46 | after any run ending in a "not seen" answer, the next answer for that key within the expiry is "not seen" exactly when that last one deleted an expired record |
| `Dedupe.NotSeenRecordsExactly` | core/dedupe/dedupe.go:35-50 | in every run, a "not seen" answer leaves the key recorded exactly when no earlier recording of it was still held |
| `Dedupe.ExpiredCheckRecordsNothing` | core/dedupe/dedupe.go:41-44 | an instance: three checks after which an expired check has left no record and the next call, at the same time, is also told "not seen" |
| `Dedupe.HeldExactly` | core/dedupe/dedupe.go:28-72 | with no clock assumption, the table holds a key at d exactly when a step recorded it at d and nothing since removed it |
| `Dedupe.SeenExactly` | core/dedupe/dedupe.go:35-46 | a check says "seen" exactly when an earlier recording survived every purge and check since and is not expired now |
| `Dedupe.SeenIsBackedExactly` | core/dedupe/dedupe.go:35-46 | all "seen" answers of all runs are backed by a recording no older than the expiry if and only if the expiry is not the largest duration |
| `Dedupe.LargestExpiryOutlivesItself` | core/dedupe/dedupe.go:41-45 | at the largest expiry a check one past it is still told "seen", with no recording that young |
| `Dedupe.RefinesCells` | core/dedupe/dedupe.go:28-72 | the shared table refines one independent automaton per key: same record and same answers from the key's own steps and the purges |
| `Dedupe.NoInterference` | core/dedupe/dedupe.go:80-82 | the answers for a (sender, packet) pair depend only on that pair's calls and the purges |
| `Dedupe.PackInjective` | core/dedupe/dedupe.go:80-82 | distinct (sender, packet) pairs have distinct 64-bit keys |
| `Dedupe.PacketDeduplicator.DeleteUntil` | core/dedupe/dedupe.go:64-72 | keeps exactly the records not made before t, and is one purge step of the run |
| `Dedupe.PacketDeduplicator.LookUp` | core/dedupe/dedupe.go:34-46 | is one check step of the run and answers "seen" exactly when that step's outcome is a duplicate |
| `Dedupe.PacketDeduplicator.SeenAt` | core/dedupe/dedupe.go:28-46 | a call purges for rolls below 5, then checks the packed key |
| `Channels.PrintThenRebuild` | core/channel.go:52-75 | rebuilding a channel from its printed key gives the same channel exactly for keys of at least 16 bytes other than the family member with last byte 0 |
| `Channels.KeyTextIsStandard` | core/channel.go:70-75 | the printed key is well-formed base 64 in the standard alphabet |
| `Channels.ReplacedWithHash` | core/channel.go:140-146 | replacing a channel in the list and then scanning by hash is scanning and then replacing in that hash's list only |
| `Channels.ReplacedWithName` | core/channel.go:140-146 | the same for scans by name |
| `Channels.HashScan` | core/channel.go:177-181 | a hash scan is exactly the entries whose name and key hash to it, in the list's order |
| `Channels.NameScan` | core/channel.go:195-206 | a name scan is exactly the entries with the name, in the list's order |
| `Channels.OrderIsDistinct` | core/channel.go:136-151 | after any history no two entries are the same channel, and exactly the registered channels are present |
| `Channels.OrderMeaning` | core/channel.go:136-160 | after any history the order lists each name-and-key pair once, by first registration, with its latest definition |
| `Channels.RegisteredPairs` | core/channel.go:37-42 | after any history some entry has given name and key bytes exactly when some registration had, and no two entries have both the same |
| `Channels.RegisteredLatest` | core/channel.go:133-143 | each entry is the last registration of its name and key bytes |
| `Channels.RegisteredOrder` | core/channel.go:136-151 | entries stand in the order in which their names and key bytes were first registered |
| `Channels.CollidingChannelsStay` | core/channel.go:133-135 | two channels of one name with different key bytes are both kept, whatever their hashes |
| `Registry.ChannelRegistry.Register` | core/channel.go:136-151 | appends to the history and keeps the order, the hash index and the name index equal to what the history and plain scans give, in arrays of their own |
| `Registry.ReplaceSame` | core/channel.go:153-160 | in place, every entry that is the same channel becomes the new definition and nothing else changes |
| `Registry.ChannelRegistry.Lookup` | core/channel.go:165-173 | the first registered channel whose name and key hash to the given value: no earlier one does; none exactly when no registered channel does |
| `Registry.ChannelRegistry.LookupAll` | core/channel.go:177-181 | a fresh copy of the whole scan by hash, in registration order, holding exactly the registered channels with the hash |
| `Registry.ChannelRegistry.LookupName` | core/channel.go:185-190 | the name of the first registered channel with the hash, or the empty name when there is none |
| `Registry.ChannelRegistry.ResolveByName` | core/channel.go:195-206 | resolves by a plain scan of the registered channels by name |
| `Registry.ResolvedMeaning` | core/channel.go:195-206 | not found exactly when no entry has the name, ambiguous exactly when two do, otherwise an entry of that name |
| `Registry.ChannelRegistry.LookupByName` | core/channel.go:210-213 | the channel resolving by name finds, and none when the name is unknown or ambiguous |
| `Registry.ChannelRegistry.LookupPair` | core/channel.go:217-227 | finds the registered entry with this name and expanded key exactly when there is one |
| `Registry.HandedOutNeverChanges` | core/channel.go:177-234 | lists handed out by All and LookupAll stay as they were through any later registrations |
| `Utf8.EncodeThenDecode` | core/node_id.go:243-250 | the encoding table and the grammar of RFC 3629 agree, and decoding inverts encoding |
| `Utf8.DecodeThenEncode` | core/node_id.go:243-250 | every string the grammar accepts is the encoding of the rune it decodes to |
| `Utf8.CutRuneEndsInNone` | core/node_id.go:240-250 | a string cut inside a rune ends in no complete rune |
| `Names.TruncateToBytes` | core/node_id.go:236-252 | the trimming loop computes the truncation that the lemmas below describe |
| `Names.LongestWholeRunes` | core/node_id.go:233-252 | on valid text the result is exactly the longest run of whole runes within the limit, at most 3 bytes short of it |
| `Names.TruncatedEndsInRune` | core/node_id.go:236-252 | on any bytes the result is the input when it is short enough, and otherwise a prefix within the limit that is empty or ends in a whole rune |
| `Names.NoLongerPrefixEndsInRune` | core/node_id.go:236-252 | no longer prefix within the limit ends in a whole rune |
| `Names.TruncationComposes` | core/node_id.go:236-252 | truncating twice is truncating once to the smaller limit, for any bytes |
| `Names.ShortNameSurvives` | core/node_id.go:229-231 | a non-empty valid name stays non-empty and valid under the short-name limit |
| `Names.ReplacementCharacterKept` | core/node_id.go:244-248 | a genuine U+FFFD that ends at the cut is kept |
| `NodeIds.PrintThenParse` | core/node_id.go:39-170 | the printed form parses back to the node, inside any white space |
| `NodeIds.PrintedForm` | core/node_id.go:37-41 | the printed form is "!" and the eight hexadecimal digits, most significant first, in lower case |
| `NodeIds.HexTextParses` | core/node_id.go:128-144 | every number in hexadecimal of any width and any mixture of cases, behind "!", "0x" or "0X" and inside any white space, parses to itself, or is refused above 32 bits |
| `NodeIds.LetteredHexParses` | core/node_id.go:146-155 | the same without a prefix as soon as one digit is a letter |
| `NodeIds.DecimalTextParses` | core/node_id.go:157-168 | every number in decimal with any leading zeros, inside any white space, parses to itself, or is refused above 32 bits |
| `NodeIds.MalformedIsInvalid` | core/node_id.go:128-169 | a prefix with nothing behind it, or a byte that is no hexadecimal digit, makes the text invalid |
| `NodeIds.TrimMeaning` | core/node_id.go:122 | trimming removes white space from both ends, nothing else, and leaves none at the end |
| `NodeIds.EmptyExactly` | core/node_id.go:122-125 | text is called empty exactly when it is white space only |
| `NodeIds.PrefixedHex` | core/node_id.go:128-144 | "!", "0x" or "0X" and any string of hexadecimal digits parse to the digits' value, refused exactly when it needs more than 32 bits |
| `NodeIds.LeadingZeros` | core/node_id.go:128-144 | leading zeros do not change the value |
| `NodeIds.UnprefixedText` | core/node_id.go:146-170 | unprefixed text is read as hexadecimal when it has a letter a to f and as decimal otherwise |
| `NodeIds.FallbackNeverSucceeds` | core/node_id.go:157-168 | the eight-character hexadecimal fallback never succeeds |
| `NodeIds.PlainHexRoundTrip` | core/node_id.go:116-170 | plain eight-digit hexadecimal parses to its own value exactly when it shows a letter or is below 10 |
| `NodeIds.NodeField.MarshalText` | core/node_id.go:183-185 | produces "!" and the eight hexadecimal digits, which parse back to the identifier |
| `NodeIds.NodeField.UnmarshalText` | core/node_id.go:173-180 | stores the parsed identifier, and leaves the receiver alone on bad text |
| `Precision.TruncatesToCentre` | core/lora/precision.go:42-49 | the mask-and-add form is the middle of the coordinate's grid cell, with no signed wrap |
| `Precision.UnchangedExactly` | core/lora/precision.go:39-45 | a precision leaves all coordinates alone exactly when it is 0 or at least 32 |
| `Precision.SameCellSameResult` | core/lora/precision.go:42-49 | two coordinates come out equal exactly when they share a cell |
| `Precision.Idempotent` | core/lora/precision.go:42-49 | coarsening again changes nothing |
| `Precision.Monotone` | core/lora/precision.go:42-49 | coarsening keeps the order of coordinates |
| `Precision.HalfACellAway` | core/lora/precision.go:42-49 | the result is at most half a cell away |
| `Precision.CoarsenTwice` | core/lora/precision.go:42-49 | coarsening to q and then to p, at most q, is coarsening to p |
| `Positions.PublicKeyExactly` | core/position.go:26-63 | for every table and key length the answer is the truth about the effective key except in two named cases, and is never wrongly "public" |
| `Positions.SettingslessPrimaryFailsOpen` | core/position.go:43-52 | a keyless secondary next to a primary without settings has no encryption and is called private |
| `Positions.PaddedFamilyKeyFailsOpen` | core/position.go:59-62 | a 15-byte key that padding turns into a published key is called private |
| `Positions.InheritanceSpelled` | core/position.go:35-52 | behind one primary a keyless secondary is public exactly when the primary's key is empty, one byte or published; a keyless channel of another role always is |
| `Positions.ConfiguredSpelled` | core/position.go:73-83 | the configured precision is the module settings' when the channel is enabled and has them, and 0 for every other entry and index, which is also never public |
| `Positions.PrecisionSpelled` | core/position.go:73-87 | one channel's precision is cut to 15 for published and one-byte keys and returned as it is for other keys |
| `Positions.PrecisionCap` | core/position.go:73-87 | the cap only coarsens, only on public keys, to 15, and never to nothing |
| `Positions.FindPositionChannel` | core/position.go:92-99 | the lowest enabled channel with nonzero configured precision, as a fact about the table with its keys erased |
| `Positions.ApplyPositionPrecision` | core/position.go:107-136 | changes the message in place to the specified report; a nil message is left alone |
| `Positions.RunOfNonzero` | core/position.go:107-136 | a run of nonzero precisions coarsens what is set, invents no coordinate, keeps the other fields and records the last precision |
| `Positions.StaysInCoarsestCell` | core/position.go:107-136 | after any such run each coordinate is in the original's cell of the coarsest precision used |
| `Positions.RevealsOnlyCoarsestCell` | core/position.go:107-136 | two coordinates come out of a run equal exactly when they share that cell |
| `Positions.ZeroClearsForGood` | core/position.go:112-117 | one zero precision anywhere leaves only the time and the last recorded precision |
| `Base64.EitherAlphabetDecodes` | core/crypto/keys.go:25-35 | choosing the alphabet by looking at the text decodes both encodings of every byte string |
| `Base64.LettersAreTables` | core/crypto/keys.go:28-32 | the letters are those of tables 1 and 2 of RFC 4648 |
| `Base64.DecodesExactly` | core/crypto/keys.go:28-35 | text without line breaks decodes exactly when it is whole groups of the alphabet's letters with at most two pads at its end |
| `Base64.BreakIgnored` | core/crypto/keys.go:28-32 | a line break anywhere makes no difference |
| `Base64.DecodeThenEncode` | core/crypto/keys.go:28-32 | encoding what was decoded spells the text again, up to the unused bits before padding |
| `Keys.ParsesEitherAlphabet` | core/crypto/keys.go:25-39 | both encodings of a byte string parse to its expansion |
| `Keys.ParseRefusesExactly` | core/crypto/keys.go:25-35 | key text is refused exactly when it is malformed in the alphabet it shows |
| `Keys.DefaultKeySpelled` | core/crypto/keys.go:15-17 | the published key and its short form are spelled 1PG7OiApB1nwvP+rz05pAQ== and AQ== in base 64 |
| `Keys.ExpandShortPSK` | core/crypto/keys.go:53-77 | the buffer-filling code computes the expansion |
| `Keys.ExpandedExtremes` | core/crypto/keys.go:54-66 | no input expands to the published key, and the index 0 to no key |
| `Keys.ExpandedIndex` | core/crypto/keys.go:62-71 | any other index expands to the published key with the index as its last byte |
| `Keys.ExpandedLonger` | core/crypto/keys.go:57-77 | input of two bytes or more is kept, with zeros behind it up to 16 bytes |
| `Keys.TryCompactKey` | core/crypto/keys.go:81-99 | the comparing loop computes the compaction |
| `Keys.CompactedExactly` | core/crypto/keys.go:81-99 | each member of the published family compacts to its last byte and every other key is returned as it is |
| `Keys.CompactThenExpand` | core/crypto/keys.go:53-99 | expanding the compacted key gives it back exactly for keys of at least 16 bytes other than the family member with last byte 0 |
| `Keys.ExpandThenCompact` | core/crypto/keys.go:53-99 | a one-byte key survives expanding and compacting exactly when it is not 0 |
| `Keys.ComputeXorHash` | core/crypto/keys.go:102-108 | the loop computes the exclusive or of the bytes |
| `Keys.HashIsParity` | core/crypto/keys.go:102-124 | each bit of the channel hash is the parity of that bit over all bytes of name and key |
| `Keys.EmptyKeyHash` | core/crypto/keys.go:112-124 | an empty key contributes nothing to the hash |
| `Keys.HashIgnoresOrder` | core/crypto/keys.go:119-124 | the channel hash depends only on the combined multiset of name and key bytes |
| `Keys.ShortKeysHashApart` | core/crypto/keys.go:53-124 | under one name the 255 nonzero short keys, expanded, all hash differently |
| `Keys.DefaultKeyVariant` | core/crypto/keys.go:138-150 | copying the default key into a zeroed buffer and setting its last byte gives the default key, zeros and that byte |
| `Keys.GenerateWeakKeys` | core/crypto/keys.go:131-156 | the three buffers filled per index end up as the 768 keys described, each in its place |
| `Keys.WeakKeysAreShortKeys` | core/crypto/keys.go:126-140 | a generated 16-byte key is the expanded short key exactly when the index is not 0 |
| `Keys.WideWeakKeys` | core/crypto/keys.go:142-152 | the 24- and 32-byte keys are the published key, zeros, and the index in the last byte |
| `Keys.WeakKeysCoverCompactKeys` | core/crypto/keys.go:131-140 | the generated 16-byte keys are exactly the 16-byte keys that compact to one byte |
| `Regions.RegionPresetMap` | core/lora/regions.go:121-160 | for any table the loop builds the groups and listings of the specification |
| `Regions.LoopFollowsReference` | core/lora/regions.go:129-158 | at every point the loop has listed the first 38 admitted entries and its groups are the first distinct keys |
| `Regions.MapMeaning` | core/lora/regions.go:115-160 | the map lists in table order the first 38 entries whose key is among the first eight; each points at a group within range with its own licensing and default preset, within the 8/38/11 caps |
| `Regions.GroupsByKey` | core/lora/regions.go:122-133 | two entries the finished map lists have the same group index exactly when their profile identity and default preset match |
| `Regions.DroppedExactly` | core/lora/regions.go:130-138 | an entry is dropped exactly when 38 admitted ones precede it or eight other keys precede its own |
| `Regions.EveryGroupIsUsed` | core/lora/regions.go:146-157 | no group is without a listed region |
| `Regions.NothingDropped` | core/lora/regions.go:129-158 | a table with at most 38 entries and eight keys loses none |
| `Regions.PresetsAreOwn` | core/lora/regions.go:139-145 | in the finished map a listed region's group advertises the region's own presets exactly when the group's first entry agrees with it on swapping or its presets are the European union |
| `Regions.PresetsSpelled` | core/lora/regions.go:46-145 | a group first met at region code 3, 29 or 32 advertises the eleven presets of the European union, any other its first region's own, cut to eleven; at most 38 listings and eight groups |
| `Regions.OrdinaryRegionToldUnion` | core/lora/regions.go:133-150 | an ordinary region listed after a swappable one of the same profile and default preset is told the European union |
| `Field.MapsBack` | core/crypto/xeddsa.go:169-173 | y = (u - 1)/(u + 1) undoes u = (1 + y)/(1 - y) for every y but 1 (section 4.1 of RFC 7748) |
| `Field.CrossMultiplied` | core/crypto/xeddsa.go:169-173 | u(1 - y) is congruent to 1 + y, the map without its division |
| `Curve.ClampedScalarIsNotZero` | core/crypto/xeddsa.go:188-196 | no clamped scalar is a multiple of the base point's order |
| `Curve.ClampedRange` | core/crypto/xeddsa.go:192-196 | a clamped scalar lies between 2^254 and 2^255 |
| `Curve.Clamp` | core/crypto/aes.go:81-85 | the masked bytes are a clamped key, the bytes between are kept, and clamping what is clamped changes nothing |
| `Curve.ClampBytes` | core/crypto/aes.go:81-85 | which number each byte of a clamped key is |
| `Curve.SignBit` | core/crypto/xeddsa.go:198-199 | the tested bit of the encoded point is the low bit of x |
| `Curve.OneNegationSuffices` | core/crypto/xeddsa.go:180-200 | when a point encodes with its sign bit set, its opposite encodes with it clear |
| `XEdDSA.DeriveEd25519Key` | core/crypto/xeddsa.go:186-205 | clamping in place and negating computes the derived signing key |
| `XEdDSA.DerivedPoint` | core/crypto/xeddsa.go:177-205 | the signing point is the identity point or its opposite and always has a clear sign bit |
| `XEdDSA.DerivedKeySpelled` | core/crypto/xeddsa.go:186-205 | scalar, hashed bytes and public key, written out: the clamped key's when its point has an even x, and otherwise those of the negation |
| `XEdDSA.PublicKeySpelled` | core/crypto/xeddsa.go:142-152 | the public key's number u satisfies u(1 - y) = 1 + y for the identity point's y |
| `XEdDSA.ConversionSpelled` | core/crypto/xeddsa.go:159-180 | with u the key's low 255 bits, any y with y(u + 1) = u - 1 in the field is the converted key |
| `XEdDSA.KeysAgree` | core/crypto/xeddsa.go:142-205 | the Ed25519 key a verifier computes from the X25519 public key is the one the signer derived from the private key |
| `XEdDSA.VerifyEquation` | core/crypto/xeddsa.go:94-95 | [ka + r]B - [k][a]B is [r]B with scalars reduced modulo the order |
| `XEdDSA.VerifiesExactly` | core/crypto/xeddsa.go:102-111 | acceptance written out: 64 bytes, s below the order, and R encodes [s]B - [k]A with k the SHA-512 of R, A and the message (section 5.1.7 of RFC 8032) |
| `XEdDSA.VerifyRefuses` | core/crypto/xeddsa.go:102-111 | keys and signatures of other lengths, and keys that decode to no point, are refused |
| `XEdDSA.SignRefusesExactly` | core/crypto/xeddsa.go:59-66 | the error for each wrong length, and when each is reported |
| `XEdDSA.SignatureSpelled` | core/crypto/xeddsa.go:68-95 | a signature written out: the nonce is SHA-512 of secret prefix, message and randomness, the challenge that of commitment, public key and message, the response ka + r |
| `XEdDSA.SignatureVerifies` | core/crypto/xeddsa.go:59-111 | every signature, for every key, message and randomness, is accepted under the X25519 public key of the private key that made it |
| `XEdDSA.OneSignature` | core/crypto/xeddsa.go:102-111 | for any public key, message and first half, at most one signature is accepted |
| `XEdDSA.AcceptedExactly` | core/crypto/xeddsa.go:59-111 | under the signer's public key, what is accepted with the signer's first half is exactly the signature it makes |
| `XEdDSA.MessageBound` | core/crypto/xeddsa.go:83-111 | a signature accepted for one message is accepted for another exactly when both hashes take the public point to the same multiple |
| `XEdDSA.TwoMessagesCollide` | core/crypto/xeddsa.go:83-111 | under an honest key one signature covers two messages only if their hashes agree modulo the order |
| `XEdDSA.TwoPacketsCollide` | core/crypto/xeddsa.go:113-138 | one signature on packets that differ in sender, id, port or payload gives two different hash inputs that agree modulo the order |
| `XEdDSA.PacketSignatureVerifies` | core/crypto/xeddsa.go:130-138 | a signed packet is accepted for the sender, id, port and payload it was signed for |
| `XEdDSA.KeyPairFromSeed` | core/crypto/aes.go:77-91 | only 32-byte seeds are accepted; the private half is the clamped seed and the public half its X25519 key |
| `XEdDSA.SeedPairSigns` | core/crypto/aes.go:74-91 | the pair's public half accepts what its private half signs, and the clamped seed derives the same signing key as the raw one |
| `Nonce.CreateNonce` | core/crypto/aes.go:26-37 | the buffer ends up as packet id, extra nonce, sender and four zero bytes, little-endian |
| `Nonce.NonceLayout` | core/crypto/aes.go:23-37 | where packet id, extra nonce, sender and zeros stand in the nonce, byte by byte |
| `Nonce.NonceInjective` | core/crypto/aes.go:26-37 | the first 12 bytes, and so the 13 used for CCM, determine packet id, sender and extra nonce |
| `Nonce.CounterFillsTail` | core/crypto/aes.go:53-56 | for the first 2^32 blocks the counter stays in the last four bytes |
| `Nonce.TailIsWord` | core/crypto/aes.go:53-56 | those four bytes are the block number, most significant first |
| `Nonce.CounterBlocksDisjoint` | core/crypto/aes.go:26-61 | packets that differ in id or sender never share a counter block within 2^32 blocks each |
| `Nonce.CounterBlocksCollideAfter` | core/crypto/aes.go:26-61 | the bound is tight: block 2^32 of one packet is block 0 of another |
| `Nonce.XorKeystream` | core/crypto/aes.go:41-61 | refuses exactly the key lengths other than 16, 24 and 32; otherwise every bit of output byte i is that of text byte i, flipped by byte i mod 16 of the enciphered block of nonce front and block number i / 16, for the first 2^32 blocks (section 6.5 of NIST SP 800-38A) |
| `Nonce.CombinedIsCounterMode` | core/crypto/aes.go:53-60 | the same for the specification function, for any cipher with 16-byte blocks |
| `Nonce.CombinedTwice` | core/crypto/aes.go:41-61 | decrypting is encrypting again, for any cipher |
| `Nonce.PacketSigningBuffer` | core/crypto/xeddsa.go:119-125 | the buffer ends up as sender, id and port, little-endian, and the payload |
| `Nonce.SigningLayout` | core/crypto/xeddsa.go:119-125 | where sender, id, port as an unsigned number and payload stand in the signed bytes |
| `Nonce.SigningBytesInjective` | core/crypto/xeddsa.go:119-125 | the signed bytes determine sender, id, port and payload |

## Left out

- Generated protobuf code, connection I/O, device and transport code: only the field shapes needed appear as datatypes.
- `SeenData`: it checks a hash of the data in the same table; any key is already a case of `Dedupe.Check`, but nothing is said about hash collisions.
- Times outside what `time.Time` can represent: times are unbounded integers here, durations are 64-bit.
- Mutexes: each locked section is one atomic step.
- `append` into spare capacity: every append allocates here; no slice of the registry is shared, so the difference cannot be observed.
- Nil channel definitions: `SameChannel` never matches them and `Register` panics on them.
- Unicode lower-casing in the node-id parser beyond ASCII: no other character lower-cases to a letter a to f.
- Group, field and decoding laws of edwards25519, the X25519 function, SHA-512 and AES: taken as stated above, not proved.
- `XEdDSA.SignatureVerifies`: says nothing about how hard forging is or how the nonce is distributed; those are properties of SHA-512.
- The CCM packet functions, `TryDecode` and `TryDecodePKI`: a round trip there would restate the cipher's laws.
- Geofences, radio airtime and signal quality: floating-point formulas and threshold tables; `PrecisionBitsToMeters` and `MetersToPrecisionBits`: small tables.
- `ChannelFromSettings`, `NewChannelWithKey` and the remaining node-id formatters: one-line uses of what is modelled.
- Traceroute helpers, roles, beacons and priorities: single-branch checks.
