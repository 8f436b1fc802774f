# brewblox-tilt, modelled in Dafny

This project models the core of the brewblox Tilt service. A Tilt is a
floating hydrometer that advertises as a Bluetooth iBeacon. Its beacon UUID
encodes its colour. The major field carries the temperature in °F, and the
minor field carries the specific gravity scaled to an integer. A Tilt Pro
adds one decimal to each field.

The service works in this order:

1. It listens for advertisements and stages one event per device address.
2. It decodes each staged event into a message. The message holds the
   device's name from a persistent name registry, the raw values and any
   calibrated values.
3. It publishes a presence message, a history message and one state message
   per device.
4. It publishes a setpoint patch for every temperature sync rule of a device.

Modules:

| module | models |
|---|---|
| `Const` | the address and name patterns and the UUID-to-colour table |
| `Blescan` | the raw HCI packet decoder, including `b2string` and `b2number` |
| `Scanner` | the iBeacon payload layout, the advertisement callback with its staging, the scan step and the simulated devices |
| `Parser` | the event decoder, the message assembly, the per-file calibrator of `parser.py` and `EventDataParser` |
| `Calibration` | the calibrator of `stored/calibration.py`, which folds keys to lower case |
| `Naming` | the name-assignment and lookup rules shared by both registries |
| `Names` | `DeviceNameRegistry`: it raises on the first invalid custom name and commits on demand |
| `Devices` | `DeviceConfig`: it sanitises names on load, skips invalid custom names, keeps the sync rules and writes through `autocommit` |
| `Broadcaster` | the scan-and-publish cycle |
| `Models` | the records of `models.py` and the per-address staging |
| `Text`, `Wrappers` | helpers |

How the model represents the system:

- **State.** Stateful objects are classes whose fields change in place. A
  file write appends the written contents to a `saved` list. The broker is
  the `published` list of publications, oldest first. The staging
  dictionaries are sequences with one event per address, kept in the order
  the addresses were first seen.
- **Errors.** Python exceptions become `Result.Failure` or `Some(error)`.
  The state at the moment of the raise is kept, as in the source.
- **Numbers.** Floating-point values are exact reals.
- **Injected functions.** The float parser and the polynomial fit are
  function parameters of the code that uses them.

## Model

| member | source | states |
|---|---|---|
| Const.IsNormalizedMac | brewblox_tilt/const.py:9 | the intended address shape: twelve upper-case hex digits (Const.NormalizedMacShape) |
| Const.MatchesMacPatternAsWritten | brewblox_tilt/const.py:9 | the address pattern as `re.match` applies it, one final newline allowed (Const.MacPatternAcceptsTrailingNewline) |
| Const.IsValidDeviceName | brewblox_tilt/const.py:10 | the intended name shape: 1 to 100 characters of the name class (Const.ValidNameIffNoInvalidChar) |
| Const.MatchesNamePatternAsWritten | brewblox_tilt/const.py:10 | the name pattern as `re.match` applies it, one final newline allowed (Const.NamePatternAcceptsTrailingNewline) |
| Const.IsInvalidNameChar | brewblox_tilt/const.py:11 | the negated name class, the complement of the pattern's class (Const.ValidNameIffNoInvalidChar) |
| Const.NormalizedMacShape | brewblox_tilt/const.py:9 | a normalised address is 12 characters, each a digit or `A`-`F`, and it also matches the pattern as written |
| Const.MacPatternAcceptsTrailingNewline | brewblox_tilt/const.py:9 | `re.match` with the address pattern accepts "AA7F97FC141E\n", which is not a normalised address |
| Const.MacPatternsAgreeWithoutNewline | brewblox_tilt/const.py:9 | without a trailing newline, the pattern as written and the intended address check agree |
| Const.NamePatternAcceptsTrailingNewline | brewblox_tilt/const.py:10 | the device-name pattern accepts "Red\n", which is not a valid name |
| Const.NamePatternsAgreeWithoutNewline | brewblox_tilt/const.py:10 | without a trailing newline, the name pattern as written and the intended name check agree |
| Const.ValidNameIffNoInvalidChar | brewblox_tilt/const.py:10-11 | a name is valid iff it has 1 to 100 characters and none of them is matched by the invalid-character class |
| Const.FindColor | brewblox_tilt/const.py:13-22 | a dictionary lookup in a table: the result is some entry's value, and None iff no entry has the key |
| Const.ColorOf | brewblox_tilt/const.py:13-22 | `TILT_UUID_COLORS.get(uuid)`: Some colour exactly when the UUID is a key, and then that key's colour |
| Const.TableUuidForm | brewblox_tilt/const.py:13-22 | entry i's UUID is `a495bb` + the digit i+1 + `0` followed by the common suffix |
| Const.TableDistinct | brewblox_tilt/const.py:13-22 | the table has eight entries with pairwise distinct UUIDs and pairwise distinct colours |
| Const.TableUuidShape | brewblox_tilt/const.py:13-22 | every table UUID is 36 lower-case hex characters with dashes at exactly positions 8, 13, 18 and 23 |
| Const.ColorOfTableEntry | brewblox_tilt/const.py:13-22 | looking up a table UUID gives that entry's colour |
| Blescan.B2String | brewblox_tilt/blescan.py:39-45 | `b2string`: the plain hex text, or its two-digit groups joined by the separator; its properties are the B2String lemmas below |
| Blescan.B2Number | brewblox_tilt/blescan.py:48-49 | `b2number`: the big-endian value, read as two's complement when signed; its properties are B2NumberRange, TopBit and the round trips below |
| Blescan.Hex | brewblox_tilt/blescan.py:41 | `bytes.hex`: the text has two characters per byte |
| Blescan.HexText | brewblox_tilt/blescan.py:41 | every character of the hex text is a lower-case hexadecimal digit |
| Blescan.HexAppend | brewblox_tilt/blescan.py:41 | the hex text of two byte strings joined is their hex texts joined |
| Blescan.UnhexHex | brewblox_tilt/blescan.py:41 | the hex text of a byte string is well-formed hex text, and decoding it gives the bytes back |
| Blescan.HexUnhex | brewblox_tilt/blescan.py:41 | encoding decoded hex text gives the text back, so hex text and bytes are in bijection |
| Blescan.HexAt | brewblox_tilt/blescan.py:41 | characters 2k and 2k+1 of the hex text are byte k's two digits |
| Blescan.B2StringSplit | brewblox_tilt/blescan.py:39-45 | with a separator, the text is the first byte's digits, the separator, then the rest's text |
| Blescan.B2StringLength | brewblox_tilt/blescan.py:39-45 | n bytes give 2n digits plus n-1 separators |
| Blescan.B2StringSeparated | brewblox_tilt/blescan.py:39-45 | in the separated text, byte k's digits start at offset k·(2+\|sep\|) and a separator follows every byte but the last |
| Blescan.B2StringEmpty | brewblox_tilt/blescan.py:39-45 | no bytes give the empty text, with or without a separator |
| Blescan.B2StringExamples | test/test_blescan.py:12-15 | `00ff`, `00:ff` and the empty text |
| Blescan.UnsignedBound | brewblox_tilt/blescan.py:48-49 | a big-endian unsigned number of n bytes is below 256^n |
| Blescan.B2NumberRange | brewblox_tilt/blescan.py:48-49 | unsigned results lie in [0, 256^n) and signed results in [-256^n/2, 256^n/2) |
| Blescan.TopBit | brewblox_tilt/blescan.py:48-49 | the first byte is at least 128 iff the unsigned value is in the upper half, which is when the signed reading is negative |
| Blescan.UnsignedToBytes | brewblox_tilt/blescan.py:48-49 | reading the n-byte big-endian encoding of v gives v |
| Blescan.ToBytesUnsigned | brewblox_tilt/blescan.py:48-49 | encoding the value read from n bytes gives the bytes back |
| Blescan.SignedRoundTrip | brewblox_tilt/blescan.py:48-49 | reading a two's-complement encoding signed gives the encoded value |
| Blescan.B2NumberExamples | test/test_blescan.py:18-22 | 255 and 255, 33023 and -32513 for the two test byte pairs |
| Blescan.ReadPacket | brewblox_tilt/blescan.py:52-94 | `read_packet`: the fields at the documented offsets, or None; its meaning is stated by ReadPacketContract, ReadPacketMac and ReadPacketNumbers |
| Blescan.ReadPacketMac | brewblox_tilt/blescan.py:86-88 | the address is the two-digit groups of bytes 12, 11, 10, 9, 8 and 7 (bytes 7..12 reversed), joined by colons |
| Blescan.ReadPacketNumbers | brewblox_tilt/blescan.py:89-93 | the uuid is the hex of bytes 23..38; major and minor are big-endian unsigned 16-bit; txpower and rssi are signed bytes |
| Blescan.ReadPacketContract | brewblox_tilt/blescan.py:52-94 | a packet is decoded iff it has 45 bytes and starts with the four header bytes, and then the fields come from those offsets |
| Blescan.FixtureMacText | test/test_blescan.py:32 | the six fixture address bytes print as `dd:7f:97:fc:14:1e` |
| Blescan.FixtureMacHex | test/test_blescan.py:32 | the same bytes without separator print as `dd7f97fc141e` |
| Blescan.FixtureUuidText | test/test_blescan.py:33 | the fixture UUID bytes print as `a495bb40c5b14b44b5121370f02d74de` |
| Blescan.ReadPacketRefusesFixtures | test/test_blescan.py:25-30 | the empty packet and the 42-byte invalid packet are refused |
| Blescan.ValidFixtureFields | test/test_blescan.py:27 | the valid packet has the header, the address, the UUID and the payload bytes at their offsets |
| Blescan.ReadPacketValidFixture | test/test_blescan.py:31-38 | the valid packet decodes to the expected address, UUID, 69, 1058, 6 and -68 |
| Scanner.UuidText | brewblox_tilt/scanner.py:53 | `str(UUID(bytes=...))`: the 8-4-4-4-12 dashed lower-case hex of the 16 bytes, stated by Scanner.Dashed and Scanner.UndashUuidText |
| Scanner.ParseBeacon | brewblox_tilt/scanner.py:17-23 | a payload of at least two bytes parses iff it starts with 0x02 0x15, and any other marker is None whatever the length; the fields are 16 UUID bytes, big-endian major and minor, and a signed tx power |
| Scanner.CallbackIgnoresOtherAppleData | brewblox_tilt/scanner.py:66-69 | Apple data of two or more bytes without the iBeacon marker, such as a short phone advert, stages nothing |
| Scanner.ParseEncodeBeacon | brewblox_tilt/scanner.py:17-23 | parsing an encoded beacon, followed by any bytes, gives the beacon back |
| Scanner.EncodeParseBeacon | brewblox_tilt/scanner.py:17-23 | encoding a parsed beacon gives back the first 23 bytes of the payload |
| Scanner.Dashed | brewblox_tilt/scanner.py:53 | `str(UUID(bytes=...))` layout: 36 characters, dashes at 8, 13, 18 and 23 |
| Scanner.UndashUuidText | brewblox_tilt/scanner.py:53 | removing the dashes from the UUID text gives the plain hex text of the bytes |
| Scanner.FixtureUuidIsPurple | brewblox_tilt/scanner.py:53-56 | the fixture UUID bytes give the Purple table entry's text, which maps to that entry's colour |
| Scanner.CallbackEvent | brewblox_tilt/scanner.py:48-69 | no event iff there is no Apple data, the payload is not an iBeacon or the UUID is not a Tilt's; otherwise the event carries the address, the UUID text, the payload fields and the rssi |
| Scanner.CallbackAcceptsTiltBeacon | brewblox_tilt/scanner.py:48-69 | a Tilt beacon under the Apple vendor id, whatever the other vendors send, yields exactly its event |
| Scanner.TiltScanner.constructor | brewblox_tilt/scanner.py:42-46 | interval 1, no previous messages, nothing staged |
| Scanner.TiltScanner.Callback | brewblox_tilt/scanner.py:48-69 | the event is staged under its address, replacing that address's earlier event; a dropped advertisement changes nothing; one event per address is kept |
| Scanner.TiltScanner.Scan | brewblox_tilt/scanner.py:71-77 | the result and the registry are those of parsing the staged events; on success the registry is committed (written once iff the parse changed it, then clean), on a raise nothing is written; staging is cleared only when parsing did not raise; the scan interval and message count stay |
| Scanner.FindColorIndex | brewblox_tilt/scanner.py:83-87 | the first table index whose upper-cased colour equals the key, None iff there is none |
| Scanner.SimulatedUuid | brewblox_tilt/scanner.py:83-87 | the uuid of the first table entry whose colour matches case-insensitively, or '' (by FindColorIndex, SimulatedPink, SimulatedOrange and SimulatedUnknown) |
| Scanner.SimulatedMac | brewblox_tilt/scanner.py:88 | at most 12 characters |
| Scanner.SimulatedMacOfTable | brewblox_tilt/scanner.py:88 | a table UUID's simulated address is its first 12 undashed characters in upper case, and it is a normalised address |
| Scanner.SimulatedPink | brewblox_tilt/scanner.py:83-88 | "Pink" and "pINK" both pick the Pink entry; its address is A495BB80C5B1 |
| Scanner.SimulatedOrange | brewblox_tilt/scanner.py:83-88 | "Orange" picks the Orange entry with address A495BB50C5B1 |
| Scanner.SimulatedUnknown | brewblox_tilt/scanner.py:83-88 | an unknown colour gives the empty UUID and the empty address |
| Scanner.Simulation.constructor | brewblox_tilt/scanner.py:82-93 | the chosen UUID, its address, and the starting values 1, 68, 1050 and -80 |
| Models.Stage | brewblox_tilt/scanner.py:59-64 | `events[mac] = event`: an existing address keeps its position and gets the new event; a new address is appended |
| Models.StageKeepsOnePerMac | brewblox_tilt/scanner.py:59-64 | staging keeps one event per address, and the staged event for the new address is the new one |
| Models.StageLastWriteWins | brewblox_tilt/scanner.py:59-64 | staging two events for one address leaves what staging the second alone would |
| Parser.DegFToC | brewblox_tilt/parser.py:35-39 | None iff None; otherwise the Celsius value converts back to the given Fahrenheit value |
| Parser.DegFToCExamples | brewblox_tilt/parser.py:35-39 | 32 °F is 0 °C and 212 °F is 100 °C |
| Parser.SgToPlato | brewblox_tilt/parser.py:42-50 | None iff None |
| Parser.DecodeEventData | brewblox_tilt/parser.py:123-160 | `_decode_event_data`: colour, Pro detection and scaling, and the bounds check, as stated by Parser.DecodeContract |
| Parser.DecodeContract | brewblox_tilt/parser.py:123-160 | no result iff the UUID has no colour or the scaled SG lies outside the bounds; a Pro (minor above 5000) divides SG by 10000 and temperature by 10, otherwise SG is divided by 1000 |
| Parser.DecodeExamples | test/test_parser.py:104-141 | SG 1.002 is kept; 1002000 and an unknown UUID are dropped; the bounds are inclusive |
| Parser.NormalizeMac | brewblox_tilt/parser.py:173 | `mac.strip().replace(':', '').upper()`, as stated by NormalizeNormalized and NormalizeSeparatedMac |
| Parser.NormalizeNormalized | brewblox_tilt/parser.py:173 | normalising an already normalised address changes nothing |
| Parser.NormalizeSeparatedMac | brewblox_tilt/parser.py:173 | normalising a colon-separated address of six bytes gives the upper-case hex of the bytes, a normalised address |
| Parser.Unseparated | brewblox_tilt/parser.py:173 | removing the colons from the colon-separated text gives the plain hex text |
| Parser.NormalizeFixtureMac | brewblox_tilt/parser.py:173 | `dd:7f:97:fc:14:1e` normalises to DD7F97FC141E |
| Parser.DataMap | brewblox_tilt/parser.py:196-217 | the data dictionary of one event, as stated by Parser.DataMapRule |
| Parser.DataMapRule | brewblox_tilt/parser.py:196-217 | the five base keys are always present; a calibrated value replaces its base value and adds the uncalibrated key, and the uncalibrated keys appear only then |
| Parser.ParseEventSpec | brewblox_tilt/parser.py:162-222 | `_parse_event` on the registry state: the message or None, and the new state, as stated by Parser.ParseEventContract |
| Parser.ParseEventContract | brewblox_tilt/parser.py:162-222 | an undecodable event gives no message and changes nothing; otherwise the message carries the normalised address, the colour and the looked-up name, and the registry stores that name; a refused lookup changes nothing |
| Parser.CalibrationPrefersMac | brewblox_tilt/parser.py:183-191 | calibration uses the address's curve if there is one, else the name's, else none |
| Parser.ParseAllSpec | brewblox_tilt/parser.py:224-231 | the list comprehension over the events, stopping at the first raise, as stated by ParseAllErrorSticks, ParseAllMessages and ParseAllDropped |
| Parser.ParseAllErrorSticks | brewblox_tilt/parser.py:229 | once an event's lookup raises, later events are not parsed |
| Parser.ParseAllMessages | brewblox_tilt/parser.py:224-231 | there are at most as many messages as events, each with a normalised address |
| Parser.ParseAllDropped | brewblox_tilt/parser.py:224-231 | when every event is undecodable, the result is empty and the registry is unchanged |
| Parser.Calibrator.constructor | brewblox_tilt/parser.py:53-101 | a key has a table iff some row with two parseable numbers names it exactly; its curve is the fit of that key's samples in file order |
| Parser.Calibrator.CalibratedValue | brewblox_tilt/parser.py:103-110 | the first candidate key with a curve is used, without case folding |
| Parser.EventDataParser.constructor | brewblox_tilt/parser.py:113-121 | the bounds, the registry and the two calibrators are the given ones |
| Parser.EventDataParser.ParseEvent | brewblox_tilt/parser.py:162-222 | the result and the registry are those of the event specification, and nothing is written |
| Parser.EventDataParser.Parse | brewblox_tilt/parser.py:224-231 | messages of the decodable events in order; the registry is committed only when no lookup raised |
| Parser.EventDataParser.ApplyCustomNames | brewblox_tilt/parser.py:233-235 | applies the pairs strictly, then commits only when none raised |
| Calibration.RowKey | brewblox_tilt/stored/calibration.py:35 | a row's key: the stripped first field, lower-cased when folding, as stated by Calibration.RowKeyCaseFold |
| Calibration.RowSample | brewblox_tilt/stored/calibration.py:37-47 | a row gives a sample iff both stripped number fields parse, and then the sample is the two parsed values |
| Calibration.AddSample | brewblox_tilt/stored/calibration.py:49-55 | adds the key, appends the sample's uncalibrated value to its first column and calibrated value to its second (starting from empty columns for a new key), and leaves every other key's table alone |
| Calibration.Samples | brewblox_tilt/stored/calibration.py:30-55 | a key's samples number at most the rows |
| Calibration.Tables | brewblox_tilt/stored/calibration.py:30-55 | the tables the loading loop builds, as stated by Calibration.TablesAreSamples and Calibration.SkippedRow |
| Calibration.TablesAreSamples | brewblox_tilt/stored/calibration.py:30-55 | a key has a table iff it has samples, and the table's two columns are the samples' two components in file order |
| Calibration.AllTablesAreSamples | brewblox_tilt/stored/calibration.py:30-55 | the same for every key at once |
| Calibration.SkippedRow | brewblox_tilt/stored/calibration.py:37-47 | a row whose numbers do not parse leaves the tables unchanged |
| Calibration.RowKeyCaseFold | brewblox_tilt/stored/calibration.py:35 | two rows whose first fields differ only in letter case share one key, the lower-cased field |
| Calibration.LowerBlack | test/test_calibration.py:19 | the fixture's `Black` and `BLACK` both lower-case to `black` |
| Calibration.FirstCalibrated | brewblox_tilt/stored/calibration.py:71-74 | None iff no candidate has a curve; otherwise some candidate's curve evaluated at the value |
| Calibration.FirstCalibratedPrefers | brewblox_tilt/stored/calibration.py:71-74 | the first candidate with a curve is the one evaluated |
| Calibration.Calibrator.constructor | brewblox_tilt/stored/calibration.py:16-65 | the keys are exactly the lower-cased keys with samples, and each curve is the fit of that key's samples |
| Calibration.Calibrator.CalibratedValue | brewblox_tilt/stored/calibration.py:67-74 | the candidates are lower-cased, then the first one with a curve is used |
| Calibration.CalibratedValueExamples | test/test_calibration.py:23-29 | ["Dummy", "Black"] uses the black curve; ["Dummy"] gives None |
| Naming.Suffixed | brewblox_tilt/names.py:39 | `base-k` extends the base name |
| Naming.SuffixedInjective | brewblox_tilt/names.py:39 | different suffixes give different names |
| Naming.UsedNames | brewblox_tilt/names.py:32 | exactly the values of the name map |
| Naming.FirstFree | brewblox_tilt/names.py:36-41 | the least suffix from k up to 1000 whose name is unused, None iff all are used |
| Naming.AssignSpec | brewblox_tilt/names.py:31-45 | `_assign`: the base when unused, else the least free suffixed name, else RuntimeError, as stated by AssignContract and AssignExhaustedIff |
| Naming.AssignContract | brewblox_tilt/names.py:31-45 | an assigned name is unused; the base name is returned iff it is unused; otherwise the name is the base with the least free suffix from 2 |
| Naming.AssignExhaustedIff | brewblox_tilt/names.py:43-45 | the search raises iff the base and all of base-2 … base-1000 are used |
| Naming.AssignSucceedsWhenFewNames | brewblox_tilt/names.py:31-45 | with fewer than 1000 names in use, a name is always found |
| Naming.AssignExamples | test/test_stored.py:58-64 | Red, then Red-2, then Red-3 |
| Naming.LookupSpec | brewblox_tilt/names.py:47-59 | `lookup` on the registry state, as stated by LookupUnchanged, LookupStores, LookupRepeats and LookupKeepsNamesDistinct |
| Naming.LookupUnchanged | brewblox_tilt/names.py:47-53 | an invalid address raises and changes nothing; an address with a non-empty name returns it and changes nothing |
| Naming.LookupStores | brewblox_tilt/names.py:54-59 | an unnamed address gets the assigned name, stored under it, and the map is marked changed |
| Naming.LookupRepeats | brewblox_tilt/names.py:47-59 | a second lookup of the same address returns the same name and changes nothing |
| Naming.LookupKeepsNamesDistinct | brewblox_tilt/names.py:47-59 | if no two addresses share a name, a lookup keeps it that way |
| Names.ApplyPair | brewblox_tilt/names.py:62-70 | a pair is accepted iff the address is normalised and the name valid; the address is checked first; an accepted pair sets the name and marks the map changed |
| Names.ApplyStrict | brewblox_tilt/names.py:61-70 | the strict loop of `apply_custom_names`, as stated by the ApplyStrict lemmas below |
| Names.ApplyStrictErrorSticks | brewblox_tilt/names.py:61-70 | after the first raise, the remaining pairs are not applied |
| Names.ApplyStrictAllValid | brewblox_tilt/names.py:61-70 | with distinct addresses and all pairs valid, there is no error, each address gets its pair's name and the flag is set |
| Names.ApplyStrictOthersKept | brewblox_tilt/names.py:61-70 | no other address's name changes and no other address is added |
| Names.ApplyStrictStopsAtFirstInvalid | brewblox_tilt/names.py:61-70 | the error is that of the first invalid pair, and the pairs before it stay applied |
| Names.NoErrorWhileValid | brewblox_tilt/names.py:61-70 | all-valid pairs never raise |
| Names.ApplyStrictExamples | brewblox_tilt/names.py:61-70 | a valid pair followed by an invalid address keeps the first; a shared name is allowed |
| Names.DeviceNameRegistry.constructor | brewblox_tilt/names.py:13-25 | an existing file's names are loaded unchanged; a missing file starts empty and marked changed |
| Names.DeviceNameRegistry.Assign | brewblox_tilt/names.py:31-45 | the result of the assignment rule on the current names |
| Names.DeviceNameRegistry.Lookup | brewblox_tilt/names.py:47-59 | the result and the new state are those of the lookup rule; nothing is written |
| Names.DeviceNameRegistry.ApplyCustomNames | brewblox_tilt/names.py:61-70 | the error and the new state are those of the strict rule |
| Names.DeviceNameRegistry.Commit | brewblox_tilt/names.py:72-75 | writes the names iff they changed, then clears the flag |
| Names.CommitTwice | brewblox_tilt/names.py:72-75 | two commits in a row write at most once |
| Devices.SanitizeName | brewblox_tilt/stored/devices.py:44 | each invalid character becomes `_` and the rest is kept; an empty name becomes "Unknown" |
| Devices.SanitizeNameValid | brewblox_tilt/stored/devices.py:42-47 | a sanitised name uses only name characters, and it is valid iff the original has at most 100 characters |
| Devices.SanitizeKeepsValidName | brewblox_tilt/stored/devices.py:44 | sanitising a valid name changes nothing |
| Devices.SanitizeExamples | test/test_stored.py:42-55 | "++Purple ++" becomes "__Purple __" and "" becomes "Unknown" |
| Devices.LoadedName | brewblox_tilt/stored/devices.py:42-47 | a loaded name: kept when valid, otherwise sanitised, as stated by Devices.LoadedNameContract |
| Devices.LoadedNameContract | brewblox_tilt/stored/devices.py:42-47 | valid names are kept, names of at most 100 characters become valid, and non-empty names keep their length |
| Devices.ApplySoft | brewblox_tilt/stored/devices.py:98-108 | the lenient loop of `apply_custom_names`, as stated by ApplySoftNamed, ApplySoftOthers and ApplySoftChanged |
| Devices.ApplySoftNamed | brewblox_tilt/stored/devices.py:98-108 | with distinct addresses, each valid pair's address ends with that pair's name |
| Devices.ApplySoftOthers | brewblox_tilt/stored/devices.py:98-108 | an address no valid pair names keeps its entry or stays absent |
| Devices.ApplySoftChanged | brewblox_tilt/stored/devices.py:98-108 | the store is marked changed iff it was, or some pair was valid |
| Devices.ApplySoftContract | brewblox_tilt/stored/devices.py:98-108 | with distinct addresses, each valid pair's address gets that pair's name, invalid pairs are skipped, other addresses keep their entries, and the flag is set iff it was or some pair was valid |
| Devices.ApplySoftExample | test/test_stored.py:78-95 | the example pairs: the invalid address and the invalid name are skipped, and the duplicate name is kept |
| Devices.SanitizeNames | brewblox_tilt/stored/devices.py:42-47 | every invalid name is replaced by its sanitised form, valid names are kept, and the flag says whether any name was invalid |
| Devices.DeviceConfig.constructor | brewblox_tilt/stored/devices.py:19-49 | an empty sync list gets the example rule; every name is loaded through sanitising; the file is written iff something changed |
| Devices.DeviceConfig.Assign | brewblox_tilt/stored/devices.py:51-65 | the result of the assignment rule on the current names |
| Devices.DeviceConfig.Lookup | brewblox_tilt/stored/devices.py:84-96 | the result and the new state are those of the lookup rule; the sync rules are kept and nothing is written |
| Devices.DeviceConfig.ApplyCustomNames | brewblox_tilt/stored/devices.py:98-108 | the new state is that of the skipping rule |
| Devices.DeviceConfig.Flush | brewblox_tilt/stored/devices.py:79-82 | writes names and sync rules iff changed, then clears the flag |
| Devices.AutocommitLookup | brewblox_tilt/stored/devices.py:75-96 | a lookup inside `autocommit`, from any state: the lookup's result, written once at the end if the lookup or an earlier pending change left the store changed; the sync list is kept |
| Broadcaster.AtLeast | brewblox_tilt/broadcaster.py:40-42 | `max(value, low)` is at least both arguments and is one of them |
| Broadcaster.NextScanInterval | brewblox_tilt/broadcaster.py:100-104 | inactive when no device was seen or fewer than before, active otherwise |
| Broadcaster.IntervalRecovers | brewblox_tilt/broadcaster.py:100-104 | after a run that saw nothing, a run that sees a device switches to the active interval |
| Broadcaster.HistoryData | brewblox_tilt/broadcaster.py:128-132 | the history keys are exactly the message names |
| Broadcaster.HistoryLastWins | brewblox_tilt/broadcaster.py:128-132 | messages sharing a name share one history entry: the last one's data |
| Broadcaster.SyncPatches | brewblox_tilt/broadcaster.py:155-167 | at most one patch per rule, each carrying the message's Celsius temperature |
| Broadcaster.SyncPatchesRule | brewblox_tilt/broadcaster.py:155-167 | a patch is published for every TempSensorExternal rule, with its block and service, and every patch comes from such a rule |
| Broadcaster.DevicePublications | brewblox_tilt/broadcaster.py:139-167 | the device state first, then only patches |
| Broadcaster.AllDevicePublicationsStates | brewblox_tilt/broadcaster.py:140-153 | every message gets its state publication, each state publication is some message's, and there are no other kinds |
| Broadcaster.DevicePublicationsIncluded | brewblox_tilt/broadcaster.py:140-167 | each message's publications are among the run's device publications |
| Broadcaster.RunPublications | brewblox_tilt/broadcaster.py:106-134 | presence always comes first; nothing else is published iff there are no messages; otherwise history comes next |
| Broadcaster.RunPublicationsContent | brewblox_tilt/broadcaster.py:106-167 | a run publishes every message's state and a patch for each of its TempSensorExternal rules |
| Broadcaster.Broadcaster.constructor | brewblox_tilt/broadcaster.py:35-51 | durations and intervals are clamped; interval 1; nothing staged or published |
| Broadcaster.Broadcaster.DeviceCallback | brewblox_tilt/broadcaster.py:53-74 | staging under the scanner's drop rules; nothing is published |
| Broadcaster.Broadcaster.PublishDevice | brewblox_tilt/broadcaster.py:140-167 | appends one message's state and patches |
| Broadcaster.Broadcaster.Run | brewblox_tilt/broadcaster.py:87-167 | when parsing raises, nothing changes; otherwise staging is cleared, the message count and interval are updated, and the run's publications are appended |
| Broadcaster.Broadcaster.PublishDevices | brewblox_tilt/broadcaster.py:140-167 | appends every message's state and patches, message by message |
| Broadcaster.Broadcaster.Publish | brewblox_tilt/broadcaster.py:106-167 | appends exactly the run's publications in order |
| Text.Strip | brewblox_tilt/parser.py:173 | `str.strip`: the result is a contiguous slice of the input, only whitespace is cut from either end, and no leading or trailing whitespace remains |
| Text.RemoveChar | brewblox_tilt/parser.py:173 | `str.replace(c, '')`: never longer, no `c` left, only characters of the input |
| Text.RemoveCharAppend | brewblox_tilt/parser.py:173 | removal distributes over concatenation |
| Text.NatToStringInjective | brewblox_tilt/names.py:39 | distinct numbers print differently |

## Left out

- Bluetooth I/O is left out: the HCI socket, the scan toggling and the packet loop (`blescan.py` 97 onwards), and `BleakScanner`. Advertisements and packets are parameters.
- The sleeps of `scan()` and `run()` are left out. So are the clock (`time_ms`) and the timestamps of the publications.
- MQTT topics, JSON encoding and the retain and err flags are left out. A publication records its kind and payload fields. The names subscriptions and `setup()` functions are wiring, not logic (`broadcaster.py` 76-85, 170 onwards; `stored/devices.py` 111-120; `scanner.py` 122 onwards).
- YAML and CSV parsing are left out. A registry is built from the map it would load (None for a missing file). Calibration rows arrive split into fields. `float()` and `np.polyfit` are function parameters. A written file is an entry in `saved`.
- Calibration.WellFormed: rows that make the loader raise IndexError are excluded by precondition: a row with fewer than two fields (a blank CSV line among them), and a two-field row whose second field parses. A two-field row whose second field does not parse is admitted and skipped, as in the source.
- `np.poly1d` trimming leading zero coefficients is left out.
- Rounding is left out: `round()` with `ndigits` and the Pro/non-Pro digit counts. Values are exact reals.
- Parser.DegFToC: the unit library's conversion is stated as the exact linear relation, without the rounding to two digits.
- Parser.SgToPlato: only the None propagation is stated. The Plato cubic is computed on reals but carries no further property.
- Scanner.ParseBeacon: only payloads the parser cannot read are excluded by precondition: fewer than two bytes, or the 02 15 marker followed by fewer than 21 bytes. The source raises an uncaught stream error from `construct` there. Any other marker gives None, the ConstError the callbacks ignore.
- Scanner.Simulation: `update()` and `SimulatedScanner.scan` draw random walks with `uniform` and are left out.
- Models: the pydantic coercion of `TiltEvent` fields (a float minor becomes an int) is left out. Major and minor are integers.
- `str(name)` in `apply_custom_names` is left out. Names arrive as strings.
- Text.Upper and Text.Lower: only ASCII letters change case.
- Broadcaster.Broadcaster.Run: the parse step is a function parameter returning messages with sync rules. `parser.py`'s `TiltMessage` has no `sync` field, while `broadcaster.py` reads one, so the two files belong to different versions. An error of the parse step leaves the staged events in place.
- Broadcaster.Broadcaster.Run: messages with a TempSensorExternal rule must carry `temperature[degC]`. The source would raise KeyError part-way through publishing otherwise. Parsed messages always carry it (Parser.DataMapRule).
- Scanner.CallbackEvent: `scanner.py` reads `const.APPLE_VID`, which `const.py` does not define. The model uses 0x004C from `broadcaster.py`.
- Blescan.ReadPacket yields the UUID as undashed hex. The colour table uses dashed text, so the two are not reconciled, as in the source.
- `utils.py` and `__main__.py` are not part of this model.
- Scanner.TiltScanner.Scan: `scanner.py:75` calls `parser.CV.get().parse(...)`, but `parser.py` defines no `CV`, and its `EventDataParser` is built from an `app` (`parser.py:114`). `scanner.py:33` also promises the `models.py` `TiltMessage`, which carries `sync`, while `parser.py` builds messages without it. The two files belong to different versions. The model reconciles them by passing the `parser.py` parser to Scan as an argument, and Scan returns that parser's messages, which have no sync rules.

### Address and name checks

The Findings below show that `re.match` with the patterns of `const.py` also accepts one final newline. The model keeps the evidently intended checks, `Const.IsNormalizedMac` and `Const.IsValidDeviceName`, in every operation. For strings that do not end in a newline, the two readings agree (Const.MacPatternsAgreeWithoutNewline, Const.NamePatternsAgreeWithoutNewline). On a string that ends in one newline, the members below differ from the source:

- Naming.LookupSpec: an address such as "AA7F97FC141E\n" gives InvalidMac. `names.py:48` and `stored/devices.py:85` let it through, then store and return a name.
- Naming.LookupUnchanged: "an invalid address raises" is stated for the intended check, so the trailing-newline address above is not covered.
- Names.DeviceNameRegistry.Lookup: it follows Naming.LookupSpec, with the same gap.
- Devices.DeviceConfig.Lookup: it follows Naming.LookupSpec, with the same gap.
- Names.ApplyPair: a name such as "Red\n" raises InvalidName, and an address with a final newline raises InvalidMac. `names.py:64-67` accepts both and stores them.
- Names.DeviceNameRegistry.ApplyCustomNames: it follows Names.ApplyStrict and Names.ApplyPair, with the same gap.
- Devices.ApplySoft: a pair whose name or address ends in one newline is skipped. `stored/devices.py:101-108` stores it and marks the store changed.
- Devices.ApplySoftContract: the same gap, so it covers only the pairs the intended checks accept.
- Devices.ApplySoftNamed: the same gap as Devices.ApplySoftContract.
- Devices.ApplySoftChanged: the same gap as Devices.ApplySoftContract.
- Devices.DeviceConfig.ApplyCustomNames: it follows Devices.ApplySoft, with the same gap.
- Devices.LoadedName: a loaded name "Red\n" is sanitised to "Red_". `stored/devices.py:43` keeps it unchanged.
- Devices.LoadedNameContract: "valid names are kept" is stated for the intended check, so the trailing-newline name above is not covered.
- Devices.SanitizeNames: the same gap as Devices.LoadedName. Such a name is sanitised and the loader reports a change.
- Devices.DeviceConfig.constructor: it loads through Devices.SanitizeNames. For a stored name with a final newline it therefore writes the file, where the source writes nothing.
- Parser.ParseEventContract: "the message carries the normalised address" holds for the model only. An event address such as "AA7F97FC141E\n:" normalises to "AA7F97FC141E\n". `parser.py:173-174` looks it up and names the event, while in the model the lookup raises InvalidMac.
- Parser.ParseEventSpec: it follows Naming.LookupSpec, with the same gap as Parser.ParseEventContract.
- Parser.ParseAllSpec: it runs Parser.ParseEventSpec over the events, with the same gap.
- Parser.EventDataParser.ParseEvent: it follows Parser.ParseEventSpec, with the same gap.
- Parser.EventDataParser.Parse: it follows Parser.ParseAllSpec, with the same gap.
- Parser.EventDataParser.ApplyCustomNames: it follows Names.ApplyStrict and Names.ApplyPair, with the gap of Names.ApplyPair.
- Scanner.TiltScanner.Scan: it follows Parser.ParseAllSpec, with the same gap.
- Devices.AutocommitLookup: it follows Naming.LookupSpec, with the same gap.
- Devices.ApplySoftOthers: "an address no valid pair names keeps its entry" is stated for the intended checks. With the pair ("AA7F97FC141E\n", "Red"), `stored/devices.py:101-108` writes an entry for the address "AA7F97FC141E\n", while the model keeps that address absent.
- Parser.ParseAllMessages: "each with a normalised address" holds for the model only. An event address such as "AA7F97FC141E\n:" normalises to a string ending in a newline. The source names that event, while the model raises InvalidMac.

## Findings

| source | as written | input that shows it | evidently intended | confidence | as-written member | corrected member |
|---|---|---|---|---|---|---|
| brewblox_tilt/const.py:9 | `^…$` with `re.match` accepts a trailing newline, because Python's `$` matches before a final `\n` | "AA7F97FC141E\n" passes the address check | exactly 12 upper-case hex characters | high; not executed | Const.MacPatternAcceptsTrailingNewline | Const.NormalizedMacShape |
| brewblox_tilt/const.py:10 | the name pattern accepts a trailing newline for the same reason | "Red\n" passes the name check | 1 to 100 name characters and nothing else | high; not executed | Const.NamePatternAcceptsTrailingNewline | Const.ValidNameIffNoInvalidChar |
