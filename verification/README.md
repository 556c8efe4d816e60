# USB manager: models and proofs

This project models six parts of the USB manager service that carry real logic, and proves what each of them promises.
Check it with `dafny verify dfyconfig.toml`.

- **Descriptors** (`Descriptor*.dfy`, `DeviceDescriptor.dfy`). A cursor walks a raw descriptor buffer, frames descriptors by their length byte
  and appends configurations, interfaces and endpoints to a tree. The loop is proved to be "frame greedily, then fold";
  the accepted buffers are exactly the printed documents of USB 2.0 sections 9.6.3, 9.6.5 and 9.6.6; parsing undoes
  printing; the error cases, cuts and joins of buffers are characterised, and so is what a failed read leaves of a device.
- **Base64** (`Base64*.dfy`). The decoder over its two small arrays yields the bit stream of the longest alphabet prefix,
  and undoes the encoding of RFC 4648 section 4.
- **Function strings** (`BitMask.dfy`, `FunctionName*.dfy`). Comma-separated function names to a mask and back.
- **Rights** (`Right*.dfy`, `TidyUpLaws.dfy`, `UsbService.dfy`, `CallerRights.dfy`, `ServiceLaws.dfy`). The table of grants as a sequence of rows, the expiry
  sweep, the tidy-up pipeline, the checks and removals made for callers. Over all runs the table is a set of registers,
  one per key; a caller's right, what a removal does and what an unplugged device leaves are exact conditions on it.
- **Host devices** (`DeviceNames.dfy`, `NameOrder.dfy`, `Type*.dfy`, `Host*.dfy`). The registry of devices, its broadcasts and the
  policies. `AddDevice` gives up its lock in the middle, so it is two steps with anything between them. Broadcasts are
  truthful in every interleaving, and status, broadcasts, device and serial list can be read off the steps alone; each
  policy has a pointwise meaning in terms of a device's own class, vendor, product and address.
- **Timers** (`Accessory*.dfy`, `DeviceManager.dfy`, `DeviceRuns.dfy`, `DeviceRegisters.dfy`). The accessory machine and the device-mode
  debounce. A timer is a pending task that a step may fire.
- **Parcels** (`Parcel*.dfy`). The device tree and the isochronous packet list, written and read.

Code that changes state is a class or a method over arrays, proved equal to a specification function; the laws are lemmas
about those functions. What the driver, the clock, the bundle manager and the account manager answer is a parameter.

## Where a plausible property fails

Each of these comes with a lemma that says exactly when the code does meet it.

- A device that replaces an enabled one of the same name, without a detach, and is then disabled by policy stays
  announced: disabling it sends no DETACHED (`HostRuns.ReplacedThenDisabledStaysAnnounced`, a run in `ReplacedRun`, the
  exact condition in `StepKeepsExactness`).
- The service keeps the old vendor-product-serial name when a device is attached again without a detach
  (`ServiceLaws.AttachmentAgreesExactly`, a run in `RenamingRun`).
- The service and the registry change one after the other. An attachment and a detachment of one name that overlap can
  leave a device registered whose name the service does not know (`ServiceLaws.SameNamesExactly`, a run in
  `OverlappingRun`), until the next whole detachment (`DetachmentAgrees`).
- A started accessory can lose its end: sending data, or an accessory-up event that reads functions without the accessory
  bit, leaves it in a state where unplugging it sends no DETACHED and gives no functions back
  (`AccessoryRuns.UnstoppableExactly`, over all runs `AccessoryPhases.StopAnnouncesExactly`, runs in `SendRun` and
  `ReconfigureRun`).
- The fallback does not always give the old functions back. Every handled up or accessory-up event cancels it; when the
  functions cannot be read, an up event reads them without the accessory, or the driver refuses the accessory, the machine
  goes on configuring without a timer and ignores stops (`AccessoryPhases.StrandsExactly` and `StrandedStays`, a run in
  `StrandedRun`).
- A device event other than up and down, taken while the gadget is connected, is treated as an unplugging; the connection
  then does not settle to the gadget's state (`DeviceRuns.SettlesExactly`, a run in `ForeignEventRun`).
- The sticky state broadcast does not always tell the functions. It misses a change made while the gadget is up but not
  yet connected, and it prints a function without a settable name as "none" or as nothing
  (`DeviceRuns.StickyTellsExactly` and `StepTellsFunctionsExactly`, runs in `SilentUpdateRun` and `UnnamedFunctionRun`).
- The sweep would drop live rows whose stored period is longer than the fixed one; no such row is ever stored
  (`RightRuns.SweepDropsOnlyExpiredExactly`, `RunKeepsTable`).
- A printed function mask reads back only when all its bits are settable (`FunctionNameLaws.RoundTripExactly`).
- A device survives a parcel unchanged only when no level exceeds 128 children and the fields that are not written have
  their defaults (`ParcelRoundTrip.SurvivesExactly`).

`UsbService::RemoveRight` returns `false` where a token cannot be read, which is the success code, so it reports success
and removes nothing. The model keeps this.

## Model

| member | source | states |
|---|---|---|
| Descriptors.ParseConfigDescriptors | services/native/src/usb_descriptor_parser.cpp:139-191 | The cursor loop, on every buffer and offset and onto any tree, terminates within bounds and equals framing the rest of the buffer greedily and folding the frames; the 32-bit length wraps |
| Descriptors.ConfigVector.AddConfig | services/native/src/usb_descriptor_parser.cpp:77-92 | A configuration is appended, with the descriptor's value, attributes, power and string index |
| Descriptors.ConfigVector.AddInterface | services/native/src/usb_descriptor_parser.cpp:94-115 | An interface is appended to the last configuration, or refused, changing nothing, when there is none |
| Descriptors.ConfigVector.AddEndpoint | services/native/src/usb_descriptor_parser.cpp:117-137 | An endpoint joins the last interface of the last configuration and takes its id as owner, or is refused |
| Descriptors.ConfigVector.AddDescriptor | services/native/src/usb_descriptor_parser.cpp:160-185 | One framed descriptor is placed, skipped or refused as its type and length say |
| DeviceDescriptor.ParseDeviceDescriptor | services/native/src/usb_descriptor_parser.cpp:41-75 | Short or wrongly sized device descriptors are refused; otherwise the little-endian fields are read |
| DeviceDescriptor.ReadDescriptors | services/native/src/usb_host_manager.cpp:568-604 | For every raw buffer: success exactly with at least 18 bytes, a first byte of 18 and no misplaced descriptor behind; then the tree is that of the descriptors behind, in order; on failure the old tree stays, an empty buffer changes nothing, and every header field is given byte by byte |
| Descriptors.ParseAtCursor | services/native/src/usb_descriptor_parser.cpp:147-189 | One turn of the loop: the framed descriptor is placed and the rest is parsed onto the result, or parsing ends well |
| DescriptorLaws.FramesOfConcat | services/native/src/usb_descriptor_parser.cpp:147-158 | Framing whole descriptors followed by anything gives back those descriptors and then the frames of the rest |
| DescriptorLaws.FramesArePrefix | services/native/src/usb_descriptor_parser.cpp:147-158 | The frames are a prefix of the buffer and each takes at least two bytes, so the cursor advances and never passes the end |
| DescriptorLaws.FramesOfCut | services/native/src/usb_descriptor_parser.cpp:147-158 | Cutting a buffer anywhere leaves leading frames, and the next one would not fit |
| DescriptorLaws.CutIsFitting | services/native/src/usb_descriptor_parser.cpp:147-158 | They are the longest run of leading frames that fits the cut |
| DescriptorLaws.FoldJoin | services/native/src/usb_descriptor_parser.cpp:159-189 | Folding two lists of frames is folding the second onto the result of the first, unless the first fails |
| DescriptorLaws.ParseJoin | services/native/src/usb_descriptor_parser.cpp:139-191 | Parsing x followed by y is parsing y onto the tree of x when x is fully framed |
| DescriptorLaws.FlattenFold | services/native/src/usb_descriptor_parser.cpp:94-191 | On success the depth-first flattening of the tree grows by exactly the recognised descriptors, in order |
| DescriptorLaws.FoldKeepsParsedTree | services/native/src/usb_descriptor_parser.cpp:128-134 | Every parsed tree has defaults where descriptors say nothing, and each endpoint names its interface |
| DescriptorLaws.PlaceUnplace | services/native/src/usb_descriptor_parser.cpp:77-137 | The last placed item can be taken off again, so placing loses nothing |
| DescriptorLaws.RebuildTree | services/native/src/usb_descriptor_parser.cpp:77-137 | Placing a parsed tree's flattening from nothing rebuilds the tree |
| DescriptorLaws.FailsExactly | services/native/src/usb_descriptor_parser.cpp:94-191 | Parsing fails exactly when some frame has a wrong length, is an interface with no configuration before it, or an endpoint with no interface in the latest configuration |
| DescriptorLaws.StopsAtMisplaced | services/native/src/usb_descriptor_parser.cpp:139-191 | A failed parse stops at a misplaced descriptor, with exactly the tree of the descriptors before it |
| DescriptorRoundTrip.ParseUndoesPrint | services/native/src/usb_descriptor_parser.cpp:77-191 | A printed configuration list, with any count fields, unrecognised descriptors anywhere and trailing junk, parses to exactly its tree |
| DescriptorRoundTrip.DeviceUndoesPrint | services/native/src/usb_descriptor_parser.cpp:41-75 | A printed device descriptor followed by anything reads back field by field |
| DescriptorRoundTrip.DescriptorsUndoPrint | services/native/src/usb_host_manager.cpp:568-604 | Reading a printed device and its printed configurations gives that device, at its address, with that tree |
| DescriptorGrammar.FoldedFramesAreDocument | services/native/src/usb_descriptor_parser.cpp:147-191 | Frames that fold without error are the frames of some document |
| DescriptorGrammar.AcceptedExactlyDocuments | services/native/src/usb_descriptor_parser.cpp:139-191 | The buffers of whole descriptors that parse are exactly the printed documents |
| DescriptorGrammar.CutDocumentParses | services/native/src/usb_descriptor_parser.cpp:147-158 | A printed document cut anywhere still parses, to the tree of exactly the leading descriptors that fit |
| DescriptorGrammar.CutParses | services/native/src/usb_descriptor_parser.cpp:147-158 | The same for any buffer that parses |
| Base64.Pack | services/native/src/usb_accessory_manager.cpp:449-456 | Four characters become their values and three bytes, in place in the two arrays |
| Base64.DecodeBlock | services/native/src/usb_accessory_manager.cpp:448-462 | A full block appends all three bytes |
| Base64.DecodeTail | services/native/src/usb_accessory_manager.cpp:465-480 | A partial block of n characters appends n minus one bytes; the value 0xFF of the zero filler reaches none of them |
| Base64.Base64Decode | services/native/src/usb_accessory_manager.cpp:436-488 | The loop computes the repacked values of the longest alphabet prefix |
| Base64Laws.PrefixIsAlphabet | services/native/src/usb_accessory_manager.cpp:445 | The decoded prefix is the longest one of alphabet characters |
| Base64Laws.RepackLength | services/native/src/usb_accessory_manager.cpp:457-480 | n characters give three quarters of n bytes, rounded down |
| Base64Laws.DecodedBits | services/native/src/usb_accessory_manager.cpp:436-488 | On every string, bit k of the output is bit k of the stream of 6-bit values, and the length is as above |
| Base64Laws.DecodeUndoesEncode | services/native/src/usb_accessory_manager.cpp:436-488 | Decoding the RFC 4648 section 4 encoding of any bytes, padded, or unpadded and followed by a non-alphabet character or nothing, gives the bytes |
| Base64Laws.AlphabetIsTable1 | services/native/src/usb_accessory_manager.cpp:55-58 | The alphabet is upper case, lower case, digits, plus and slash, in this order, and nothing else is in it |
| Base64Laws.FooDecodes | services/native/src/usb_accessory_manager.cpp:436-488 | The test vectors "Zm9v", "Zm8=" and "Zg==" of RFC 4648 section 10 |
| FunctionNames.Split | services/native/src/usb_device_manager.cpp:246-259 | The loop cuts at commas and drops nothing but a trailing empty piece |
| FunctionNames.ConvertFromString | services/native/src/usb_device_manager.cpp:238-273 | The method computes the union of the codes of the pieces, or refuses |
| FunctionNames.ConvertToString | services/native/src/usb_device_manager.cpp:275-293 | The method joins the names whose codes meet the mask, in map order, or prints "none" |
| FunctionNameLaws.ConvertsExactly | services/native/src/usb_device_manager.cpp:238-273 | A string gives a mask exactly when it is a list of known names, in any order, with repetitions and perhaps a trailing comma, and the mask is the union of their codes |
| FunctionNameLaws.UnknownItemRejects | services/native/src/usb_device_manager.cpp:262-270 | One unknown or empty item rejects the string |
| FunctionNameLaws.PrintedNamesAscend | services/native/src/usb_device_manager.cpp:281-290 | Printed names are strictly ascending, so none is repeated |
| FunctionNameLaws.RoundTripExactly | services/native/src/usb_device_manager.cpp:232-293 | A printed mask reads back as itself exactly when all its bits are settable |
| FunctionNameLaws.ConvertsBitwise | services/native/src/usb_device_manager.cpp:238-273 | A string gives a mask exactly when it lists known names and the mask has exactly the bits that some of their codes have |
| FunctionNameLaws.PrintsExactly | services/native/src/usb_device_manager.cpp:275-293 | A mask prints as "none" when empty or above the settable union, and otherwise as exactly the known names whose code meets it, ascending |
| FunctionNameLaws.HdcAndMtp | services/native/src/usb_device_manager.cpp:238-273 | "hdc,mtp" is 0xC |
| RightTable.UsbRightDbHelper.IsRecordExpired | services/native/src/usb_right_db_helper.cpp:46-93 | Expired means that no row of the key is live |
| RightTable.UsbRightDbHelper.AddOrUpdateRightRecord | services/native/src/usb_right_db_helper.cpp:564-662 | The rows of the key are replaced, or a row is added when there is none |
| RightTable.UsbRightDbHelper.DeleteAndNoOtherOperation | services/native/src/usb_right_db_helper.cpp:320-350 | Exactly the selected rows go; an empty deletion is reported |
| RightTable.UsbRightDbHelper.DeleteRightRecord | services/native/src/usb_right_db_helper.cpp:377-388 | The rows of one key go, and success means there was one |
| RightTable.UsbRightDbHelper.DeleteAppsRightRecord | services/native/src/usb_right_db_helper.cpp:414-424 | The rows of the listed apps of one user go; an empty list removes nothing |
| RightTable.UsbRightDbHelper.DeleteNormalExpiredRightRecord | services/native/src/usb_right_db_helper.cpp:438-453 | The rows requested before the threshold go, except temporary and permanent ones; the subtraction is guarded, and an empty deletion is reported |
| RightTable.UsbRightDbHelper.DeleteValidPeriodRightRecord | services/native/src/usb_right_db_helper.cpp:455-465 | The rows of one device with one period go, and an empty deletion is reported |
| RightTable.UsbRightDbHelper.QueryRightRecordUids | services/native/src/usb_right_db_helper.cpp:214-221 | Exactly the users that have rows, each once |
| RightTable.UsbRightDbHelper.QueryRightRecordApps | services/native/src/usb_right_db_helper.cpp:223-230 | Exactly the apps of a user that have rows, each once |
| RightTable.UsbRightDbHelper.QueryAppRightRecord | services/native/src/usb_right_db_helper.cpp:203-212 | The rows of an app, in order |
| RightManager.UsbRightManager.HasRight | services/native/src/usb_right_manager.cpp:172-191 | The console always has the right; others have it when their row is live after the current user's sweep |
| RightManager.UsbRightManager.AddDeviceRight | services/native/src/usb_right_manager.cpp:402-435 | A grant stores the clock reading and the fixed period |
| RightManager.UsbRightManager.RemoveDeviceRight | services/native/src/usb_right_manager.cpp:437-456 | The key's rows go, and success means there was one |
| RightManager.UsbRightManager.CleanUpRightAppUninstalled | services/native/src/usb_right_manager.cpp:788-817 | The loop over apps drops exactly the user's rows of apps that are not installed |
| RightManager.UsbRightManager.CleanUpRightUserDeleted | services/native/src/usb_right_manager.cpp:913-949 | The loop over users drops exactly the rows of accounts known not to exist |
| RightManager.UsbRightManager.CleanUpRightAppReinstalled | services/native/src/usb_right_manager.cpp:863-911 | Nothing goes when an app is unknown; otherwise all rows of apps with a row of another install time |
| RightManager.UsbRightManager.TidyUpRight | services/native/src/usb_right_manager.cpp:987-1030 | The chosen clean-ups run in the fixed order; the console and invalid choices change nothing |
| RightRuns.GrantChangesOneKey | services/native/src/usb_right_db_helper.cpp:564-662 | A grant stores its row, leaves every other key's row, and keeps keys unique |
| RightRuns.RunKeepsTable | services/native/src/usb_right_db_helper.cpp:564-662 | Over every run of grants, deletions and sweeps there is at most one row per key, with the fixed period |
| RightRuns.RunIsRegisters | services/native/src/usb_right_db_helper.cpp:320-662 | A key's row is exactly what an independent register, set by grants and cleared by deletions that select it, holds |
| RightRuns.ExpiredExactly | services/native/src/usb_right_db_helper.cpp:46-93 | A key has expired exactly when its register is empty or its grant has expired |
| RightRuns.NotExpiredExactly | services/native/src/usb_right_db_helper.cpp:46-93 | On any table, periods without an end included: exactly when some row of the key was requested by now and is not over |
| RightRuns.HasRightExactly | services/native/src/usb_right_manager.cpp:172-191 | After a grant at s, with no later grant, removal or late sweep of the key, the right holds at t exactly while s <= t < s + 0x0FFFFFFF and the check's own sweep reads no later than s + 0x0FFFFFFF |
| RightRuns.RemovedHasNoRight | services/native/src/usb_right_manager.cpp:437-456 | A deletion that selects the key ends the right at all times |
| RightRuns.OtherKeysUntouched | services/native/src/usb_right_db_helper.cpp:320-662 | No step on other keys changes a key's answers |
| RightRuns.SweepIsInvisible | services/native/src/usb_right_db_helper.cpp:438-453 | In every reachable table the sweep changes no expiry answer at its own clock reading or later |
| RightRuns.SweepDropsOnlyExpiredExactly | services/native/src/usb_right_db_helper.cpp:65-93 | A row of any period is only ever swept after it expired exactly when its period is at most one second longer than the fixed one, or permanent |
| TidyUpLaws.TidyUpIsOneDeletion | services/native/src/usb_right_manager.cpp:987-1030 | For every choice of clean-ups, the tidy-up is one deletion by a row-wise condition that mentions no order |
| TidyUpLaws.TidyUpKeepsExactly | services/native/src/usb_right_manager.cpp:987-1030 | For every choice of clean-ups, bit by bit, every table and every answer of the system: exactly which rows stay, with the case where the reinstall check gives up, and the unknown choices and the console, which keep everything |
| TidyUpLaws.ReinstallCheckKeepsGrantExactly | services/native/src/usb_right_manager.cpp:863-911 | In every run a grant just made stays through the reinstall check exactly when the check gives up or the app's install time is still the one that the grant and the app's other rows name |
| TidyUpLaws.TidyUpAllKeepsExactly | services/native/src/usb_right_manager.cpp:987-1030 | With all clean-ups, the rows kept are exactly those of accounts not known deleted and, for the caller, of installed apps, recent enough, and with no surviving row of another install time |
| TidyUpLaws.ReinstallCheckFirstKeepsMore | services/native/src/usb_right_manager.cpp:1003-1028 | The order matters: with the reinstall check first, some table keeps a row that the real order drops |
| UsbService.UsbService.HasRight | services/native/src/usb_service.cpp:1478-1513 | Unknown devices have no right, system apps do, others by their own token or the default one; the checks sweep the current user's rows and change nothing else |
| CallerRights.CallerHasRightExactly | services/native/src/usb_service.cpp:1507-1511 | In every run a caller that is not the console has the right exactly when the register of its own token holds a live grant that the first sweep spares, or that of the default token one that both sweeps spare |
| CallerRights.EitherGrantSuffices | services/native/src/usb_service.cpp:1507-1511 | A grant under either token alone suffices while it lasts |
| CallerRights.ConsoleHasEveryRight | services/native/src/usb_right_manager.cpp:172-180 | The console has every right, and its removals succeed and change nothing |
| CallerRights.ChecksChangeNoAnswer | services/native/src/usb_right_manager.cpp:181-182 | What a check sweeps changes no expiry answer at its own clock readings or later |
| UsbService.UsbService.RemoveRight | services/native/src/usb_service.cpp:1546-1583 | The own row goes, else the default one, else an error; unknown devices are an error and unreadable tokens change nothing |
| UsbService.UsbService.EnterName | services/native/src/usb_service.cpp:794-797 | The service's locked part of an attachment: a new name is entered, a known one kept as it is |
| UsbService.UsbService.DropName | services/native/src/usb_service.cpp:825-833 | The service's locked part of a detachment |
| UsbService.UsbService.AddDevice | services/native/src/usb_service.cpp:773-806 | A device that cannot be read changes nothing; another is entered if its name is absent and then inserted in the registry |
| UsbService.UsbService.DelDevice | services/native/src/usb_service.cpp:808-836 | Temporary rights on the device go, the table is tidied, and the device leaves both maps |
| CallerRights.UnpluggingKeepsExactly | services/native/src/usb_service.cpp:821-823 | Unplugging drops exactly the temporary rows on the device; of the others, those that the whole tidy-up keeps stay |
| CallerRights.RemovalDeletesOneRow | services/native/src/usb_service.cpp:1546-1583 | In a reachable table a removal succeeds exactly when one of the caller's two rows exists, and deletes exactly one row: the own one if there is one, and otherwise the default one |
| CallerRights.TwoRemovalsEndTheRight | services/native/src/usb_service.cpp:1478-1583 | After two removals the caller has no right, whatever the table and the clocks |
| CallerRights.OneRemovalSuffices | services/native/src/usb_service.cpp:1546-1583 | One removal leaves no row exactly when the caller did not hold both |
| ServiceLaws.RunIsHeld | services/native/src/usb_service.cpp:773-836 | In every run, for any interleaving of the two locked halves of attachments and detachments, both maps hold for each name exactly what two independent registers hold |
| ServiceLaws.AgreeExactly | services/native/src/usb_service.cpp:773-836 | So the service and the registry agree on a name and its device exactly when the registers are equal |
| ServiceLaws.UniqueNameTells | services/native/src/usb_service.cpp:791-793 | Devices have the same vendor-product-serial name exactly when all three are the same |
| ServiceLaws.SameNamesExactly | services/native/src/usb_service.cpp:773-836 | In every run, overlaps or not, a name is known to both or to neither exactly when its last step is an attachment on both sides or on neither |
| ServiceLaws.AttachmentAgreesExactly | services/native/src/usb_service.cpp:789-799 | After any run, a whole attachment, with anything on other names in between, ends in agreement exactly when the service did not hold the name or held it for the same vendor, product and serial |
| ServiceLaws.DetachmentAgrees | services/native/src/usb_service.cpp:805-836 | After any run, a whole detachment leaves the name unknown to both |
| ServiceLaws.RenamingRun | services/native/src/usb_service.cpp:789-799 | A run from the start after which they name different devices |
| ServiceLaws.OverlappingRun | services/native/src/usb_service.cpp:794-835 | A run from the start in which an overlap leaves a registered device that the service does not know |
| DeviceNames.DecimalInjective | services/native/src/usb_host_manager.cpp:1173 | Printing a number loses nothing |
| DeviceNames.NameInjective | services/native/src/usb_host_manager.cpp:1173 | Two bus-address pairs have one printed name exactly when they are equal |
| DeviceNames.NameReadsBack | services/native/src/usb_host_manager.cpp:1173 | A name is the bus number in decimal digits, a dash and the address in decimal digits |
| DeviceNames.DecimalReadsBack | services/native/src/usb_host_manager.cpp:1173 | A number is printed in decimal digits without leading zeros |
| TypeTables.AscendingIsDisjoint | interfaces/innerkits/native/include/usb_interface_type.h:131-225 | A table in class order, with explicit patterns within a class, hits no class twice |
| TypeTables.TablesAreDisjoint | interfaces/innerkits/native/include/usb_interface_type.h:131-225 | In both tables every declared class is hit by at most one entry |
| TypeCoverage.DeviceTableCovers | interfaces/innerkits/native/include/usb_interface_type.h:131-225 | Two triples share an entry of the device table exactly when both are of base class 2 or 255, or they are one and the same triple of a closed-form list |
| TypeCoverage.InterfaceTableCovers | interfaces/innerkits/native/include/usb_interface_type.h:131-225 | The same for the interface table, with the base classes 1, 2, 3, 5, 7, 8, 10, 11, 14, 15 and 255 covered whole |
| HostManager.UsbHostManager.GetTargetDevice | services/native/src/usb_host_manager.cpp:1123-1134 | The scan over all devices equals looking the printed name up |
| HostManager.UsbHostManager.AddUsbSerialDevice | services/native/src/usb_host_manager.cpp:2091-2118 | A device with a serial port is entered once; an unavailable serial manager changes nothing |
| HostManager.UsbHostManager.InsertDevice | services/native/src/usb_host_manager.cpp:1206-1232 | The device replaces any of its name, as newly arrived, with no broadcast |
| HostManager.UsbHostManager.PublishDevice | services/native/src/usb_host_manager.cpp:1237-1253 | A device that is still there and not disabled is enabled and announced |
| HostManager.UsbHostManager.DelDevice | services/native/src/usb_host_manager.cpp:1171-1204 | The device leaves both collections, and DETACHED is sent only if it was enabled |
| HostManager.UsbHostManager.RemoveSerialDevice | services/native/src/usb_host_manager.cpp:1193-1198 | The first entry of the address goes |
| HostManager.UsbHostManager.UsbDeviceAuthorize | services/native/src/usb_host_manager.cpp:1535-1578 | The status changes only when needed and accepted, and the change is broadcast unless the device is newly arrived |
| HostManager.UsbHostManager.ManageOneDevice | services/native/src/usb_host_manager.cpp:2058-2077 | One device gets what its class pattern asks for, unless the serial policy owns it or it does not open |
| HostManager.UsbHostManager.ManageDeviceTypeImpl | services/native/src/usb_host_manager.cpp:2050-2080 | Exactly the devices of the pattern are asked, in any order |
| HostManager.UsbHostManager.ManageUsbSerialDevice | services/native/src/usb_host_manager.cpp:2130-2143 | Exactly the serial devices are asked |
| HostManager.UsbHostManager.ManageDeviceImpl | services/native/src/usb_host_manager.cpp:1976-1998 | The devices of one vendor and product are asked in the order of their names, hubs exempt, up to the first that does not open; success exactly when all of them open |
| HostPolicies.IdPassExactly | services/native/src/usb_host_manager.cpp:1976-1998 | Device by device, in terms of vendor, product and base class: exactly the devices of the pass are asked, and respond by status and broadcast; all else is as it was |
| HostPolicies.IdPassDone | services/native/src/usb_host_manager.cpp:1976-1998 | After a whole pass with an accepting driver each such device is disabled, or if the pass enables no longer disabled |
| HostPolicies.SerialPassExactly | services/native/src/usb_host_manager.cpp:2130-2143 | The serial policy asks exactly the devices whose address is in the serial list |
| HostManager.UsbHostManager.ManageOneDeviceInterfaces | services/native/src/usb_host_manager.cpp:2008-2045 | The active configuration's matching interfaces get the flag; hubs, disabled devices and unreadable or out-of-range configurations are left; the index wraps at zero |
| HostManager.UsbHostManager.ManageInterfaceTypeImpl | services/native/src/usb_host_manager.cpp:2000-2048 | The same for every device, in any order |
| HostManager.FindMatchingTypes | services/native/src/usb_host_manager.cpp:1909-1931 | Exactly the entries that hold a type of the list, although each search stops at its first hit |
| HostManager.UsbHostManager.ExecuteManageDeviceType | services/native/src/usb_host_manager.cpp:1886-1907 | A whole table, entry by entry in any order, is one pass whose condition mentions no order |
| HostManager.UsbHostManager.ExecuteManageInterfaceType | services/native/src/usb_host_manager.cpp:1626-1646 | The whole type policy does to each device exactly what the pointwise specification says, and broadcasts accordingly |
| HostModel.ManagedJoin | services/native/src/usb_host_manager.cpp:1886-1907 | Passes that do not contradict each other are together one pass, broadcasts included |
| HostManager.TypeOneMore | services/native/src/usb_host_manager.cpp:1886-1907 | Adding one entry's pass to the passes of other entries, because no class is hit twice |
| HostRuns.RunKeepsRegistry | services/native/src/usb_host_manager.cpp:1171-1258 | In every reachable state keys are printed addresses and serial devices are distinct registered devices |
| HostRuns.StepIsMove | services/native/src/usb_host_manager.cpp:1171-1258 | Every step moves the status and broadcasts of each name by one small machine |
| HostRuns.RunIsTruthful | services/native/src/usb_host_manager.cpp:1171-1258 | In every reachable state, for any interleaving, an enabled device was announced last and every DETACHED directly follows an ATTACHED |
| HostRuns.SilentWhileNotEnabled | services/native/src/usb_host_manager.cpp:1535-1578 | A name is never broadcast while its device is not enabled |
| HostRuns.StepKeepsExactness | services/native/src/usb_host_manager.cpp:1206-1258 | A step keeps "announced last exactly while enabled" unless it inserts over an enabled device |
| HostRuns.RunIsExact | services/native/src/usb_host_manager.cpp:1171-1258 | So it holds in every run without such insertions |
| HostRuns.ReplacedThenDisabledStaysAnnounced | services/native/src/usb_host_manager.cpp:1219-1231 | After such an insertion, disabling the device sends no DETACHED |
| HostRuns.ReplacedRun | services/native/src/usb_host_manager.cpp:1206-1258 | A run from the start that ends with a disabled device announced |
| HostRegisters.RunIsHistory | services/native/src/usb_host_manager.cpp:1171-1578 | In every run each name's status and all its broadcasts are exactly those of a register over the steps |
| HostRegisters.RunIsRegistered | services/native/src/usb_host_manager.cpp:1171-1232 | In every run a name's device is the one inserted last and not deleted since, up to its status and its interfaces' flags |
| HostRegisters.RunIsSerial | services/native/src/usb_host_manager.cpp:2091-2118 | In every run the serial devices are exactly those for which an insertion found a port since they were last deleted |
| HostPolicies.StatusUnderPolicy | services/native/src/usb_host_manager.cpp:1626-1646 | For any list, either direction and any driver: exactly the devices that open, that the serial policy does not own and whose class the device table covers are asked, the listed for one thing and the others for the opposite, and respond by status and broadcast |
| HostPolicies.FlagUnderPolicy | services/native/src/usb_host_manager.cpp:2000-2048 | For any list and either direction: exactly the interfaces of covered class in the active configuration of a device that is no hub and not disabled get a new flag, the listed one and the others the opposite; nothing else of a device changes but its status |
| HostPolicies.WholeClassIsUnauthorised | services/native/src/usb_host_manager.cpp:2000-2048 | Disabling any type of a base class covered whole unauthorises every active interface of that base class |
| HostPolicies.PolicyIsTwoSteps | services/native/src/usb_host_manager.cpp:1626-1646 | The whole policy is two steps of a run, requests and then flags |
| HostPolicies.SecondPolicyChangesNothing | services/native/src/usb_host_manager.cpp:1626-1646 | A second identical run changes no device and broadcasts nothing, whatever the driver answers, provided it answers the same both times |
| AccessoryManager.UsbAccessoryManager.HandleEvent | services/native/src/usb_accessory_manager.cpp:324-375 | Plugging events are delayed, all others act at once and cancel a delayed one |
| AccessoryManager.UsbAccessoryManager.ProcessHandle | services/native/src/usb_accessory_manager.cpp:377-404 | Starting cancels the fallback and reads the functions; stopping is ignored while configuring |
| AccessoryManager.UsbAccessoryManager.ProcessAccessoryStart | services/native/src/usb_accessory_manager.cpp:211-252 | The accessory starts with a broadcast, or is asked for with the old functions saved and the fallback armed |
| AccessoryManager.UsbAccessoryManager.ProcessAccessoryStop | services/native/src/usb_accessory_manager.cpp:254-278 | A started accessory ends, asks for the saved functions and is announced as gone |
| AccessoryManager.UsbAccessoryManager.ProcessAccessorySend | services/native/src/usb_accessory_manager.cpp:280-322 | Sending announces the data unless it cannot be printed |
| AccessoryManager.UsbAccessoryManager.OnAntiShakeTimer | services/native/src/usb_accessory_manager.cpp:342-348 | The anti-shake task handles the stored event at once |
| AccessoryManager.UsbAccessoryManager.OnFallbackTimer | services/native/src/usb_accessory_manager.cpp:236-243 | The fallback task stops and asks for the saved functions |
| AccessoryRuns.RunIsOk | services/native/src/usb_accessory_manager.cpp:211-404 | In every run a started accessory has no fallback pending, the saved functions never include the accessory, a pending anti-shake task holds a plugging event, and each DETACHED directly follows an ATTACHED |
| AccessoryRuns.BurstActsAsLast | services/native/src/usb_accessory_manager.cpp:336-350 | However many plugging events precede the timer, only the last has any effect |
| AccessoryRuns.StopEndsExactly | services/native/src/usb_accessory_manager.cpp:254-278 | In every reachable state, SEND and CONFIGURING included, a stop event ends and announces exactly a started accessory whose functions read last include it, and otherwise does nothing |
| AccessoryRuns.UnstoppableExactly | services/native/src/usb_accessory_manager.cpp:211-404 | Exactly these steps cost a stoppable accessory its announced end: sending data, and an accessory-up event that reads functions without the accessory, accepted or not |
| AccessoryRuns.StaysStoppableExactly | services/native/src/usb_accessory_manager.cpp:211-404 | Over a stretch of a run without a stop or a new start, it stays stoppable exactly when there was no such step |
| AccessoryPhases.RunIsPhase | services/native/src/usb_accessory_manager.cpp:211-404 | In every run, however starts, losses, stops and refusals follow each other, the events and the driver's answers alone tell whether the accessory is stoppable and whether it is configuring with or without a fallback |
| AccessoryPhases.StopAnnouncesExactly | services/native/src/usb_accessory_manager.cpp:254-278 | So in every run a stop event announces the end exactly when the run says that the accessory is started |
| AccessoryPhases.StrandsExactly | services/native/src/usb_accessory_manager.cpp:377-394 | In every run, exactly these steps leave an accessory that waits for its fallback configuring without one: a handled up or accessory-up event with unreadable functions, an up event without the accessory, a refused accessory-up event |
| AccessoryPhases.StrandedStays | services/native/src/usb_accessory_manager.cpp:352-404 | From then on nothing but an up, accessory-up or send event changes the status, the functions or the requests |
| AccessoryPhases.StrandedRun | services/native/src/usb_accessory_manager.cpp:229-246 | A run from the start that gets there, after which the old functions are not asked for in any such steps |
| AccessoryRuns.SendRun | services/native/src/usb_accessory_manager.cpp:280-322 | Start, send, down: announced twice, never as gone, and no functions given back |
| AccessoryRuns.ReconfigureRun | services/native/src/usb_accessory_manager.cpp:211-252 | Start, up without the accessory bit, down: never announced as gone, whether or not the driver accepts |
| AccessoryRuns.AsksExactly | services/native/src/usb_accessory_manager.cpp:211-278 | In every run the driver is asked for the accessory exactly by such up events, and for the functions the last accepted one replaced exactly by the fallback timer and by the stop of a stoppable accessory |
| AccessoryPhases.StepExactly | services/native/src/usb_accessory_manager.cpp:211-404 | In every run, exactly what each step announces, and what it makes of the status, the fallback and the functions read last |
| AccessoryRuns.FallbackGivesBack | services/native/src/usb_accessory_manager.cpp:229-246 | Where no up event comes in between: an accepted accessory-up event, any number of unpluggings and the fallback timer ask for the accessory and then for the functions found before |
| DeviceManager.UsbDeviceManager.HandleEvent | services/native/src/usb_device_manager.cpp:349-396 | Nothing happens without a driver; else the pending task is cancelled, and one is registered exactly when the event differs from the connection, with its delay |
| DeviceManager.UsbDeviceManager.ProcessStatus | services/native/src/usb_device_manager.cpp:318-340 | Only up means connected; only up and down move the gadget's state |
| DeviceManager.UsbDeviceManager.OnTimer | services/native/src/usb_device_manager.cpp:357-383 | The pending task runs, if there is one |
| DeviceManager.UsbDeviceManager.OnConnect | services/native/src/usb_device_manager.cpp:357-362 | A connect reads the functions, broadcasts and notifies |
| DeviceManager.UsbDeviceManager.OnDisconnect | services/native/src/usb_device_manager.cpp:365-383 | A disconnect clears MTP and PTP or devmode_auth, asks the driver for what is left if so, broadcasts and notifies |
| DeviceManager.PrintBits | services/native/src/usb_device_manager.cpp:481-492 | The loop over bits ends and collects exactly the printed names of the set bits |
| DeviceManager.UsbDeviceManager.BroadcastFuncChange | services/native/src/usb_device_manager.cpp:473-498 | The sticky broadcast carries the connection and those names |
| DeviceManager.UsbDeviceManager.UpdateFunctions | services/native/src/usb_device_manager.cpp:295-311 | A change is stored, notified, and broadcast unless the gadget is up and not yet connected |
| DeviceManager.UsbDeviceManager.UserChangeProcess | services/native/src/usb_device_manager.cpp:448-471 | With MTP or PTP the driver is asked for the rest, which is taken over if it accepts; failure is reported otherwise |
| DeviceManager.UsbDeviceManager.ProcessFunctionNotifier | services/native/src/usb_device_manager.cpp:518-549 | The HDC notification is brought in line with connection and functions by at most one call |
| DeviceRuns.RunIsOk | services/native/src/usb_device_manager.cpp:318-549 | In every run a pending connect means disconnected and a pending disconnect connected, executed tasks strictly alternate, the HDC notification is shown exactly while connected with HDC, and its calls strictly alternate |
| DeviceRuns.FiringFlipsConnection | services/native/src/usb_device_manager.cpp:357-396 | A task that fires always changes the connection |
| DeviceRuns.SettlesExactly | services/native/src/usb_device_manager.cpp:318-396 | A run ends with "connection equals gadget state exactly when nothing is pending" if and only if its last device event was up or down, or came while the gadget was not connected, or there was none |
| DeviceRuns.FiringSettlesExactly | services/native/src/usb_device_manager.cpp:318-396 | Once the timer has run out they are equal exactly in the same runs |
| DeviceRuns.BouncesActAsLast | services/native/src/usb_device_manager.cpp:349-396 | After any run whatever, once the timer has run out the connection is what the last up or down event said |
| DeviceRuns.ForeignEventRun | services/native/src/usb_device_manager.cpp:329-339 | Up, connected, then an accessory's event: the timer disconnects a gadget that is up |
| FunctionNameLaws.BitNameTells | services/native/src/usb_device_manager.cpp:275-293 | The name a single bit is printed as reads back as that bit if it is settable, and as no bit otherwise |
| DeviceRuns.RunShows | services/native/src/usb_device_manager.cpp:473-498 | In every run the sticky broadcast tells the connection and carries the names of the functions at the last broadcast |
| DeviceRuns.PublishedExactly | services/native/src/usb_device_manager.cpp:481-492 | Exactly the printed names of the set bits are published |
| DeviceRuns.PublishedTellsExactly | services/native/src/usb_device_manager.cpp:473-498 | The names published for one mask tell another exactly when the other is its settable part |
| DeviceRuns.StickyTellsExactly | services/native/src/usb_device_manager.cpp:473-498 | In every run the broadcast tells the current functions exactly when they are the settable part of those last broadcast |
| DeviceRuns.StepTellsFunctionsExactly | services/native/src/usb_device_manager.cpp:295-311 | From an up-to-date broadcast, a step leaves one that tells the functions exactly when all of them are settable; after an update while the gadget is up but not connected, exactly when it was to the settable part of the old ones |
| DeviceRuns.SilentUpdateRun | services/native/src/usb_device_manager.cpp:303-306 | A run after which the broadcast tells functions that are gone |
| DeviceRuns.UnnamedFunctionRun | services/native/src/usb_device_manager.cpp:481-492 | A run after which it tells no function although there is one |
| DeviceRuns.NeverAsksForMedia | services/native/src/usb_device_manager.cpp:369-381 | In every run, what is asked of the driver includes neither MTP nor PTP |
| DeviceRuns.MediaNeverSurvives | services/native/src/usb_device_manager.cpp:369-381 | Unplugging clears exactly MTP and PTP, leaves storage when nothing else is left, and keeps HDC |
| DeviceRuns.StorageOnlyInstead | services/native/src/usb_device_manager.cpp:369-376 | Storage takes their place exactly when there was no other function |
| DeviceRegisters.RunIsTask | services/native/src/usb_device_manager.cpp:318-396 | In every run the connection and the pending task, with its delay of 1000, 1400 or 2800 milliseconds, are exactly those of registers over the steps |
| DeviceRegisters.RunIsFunctions | services/native/src/usb_device_manager.cpp:295-470 | In every run the current functions and all requests to the driver are exactly those of registers over the steps |
| DeviceRegisters.DisconnectionKeepsExactly | services/native/src/usb_device_manager.cpp:365-383 | For every mask and bit, what a disconnection leaves of the functions, and that it asks the driver exactly when MTP, PTP or devmode_auth was among them |
| Parcels.MarshalEndpoint | interfaces/innerkits/native/include/usb_endpoint.h:52-60 | Five cells in order |
| Parcels.UnmarshalEndpoint | interfaces/innerkits/native/include/usb_endpoint.h:62-74 | Reads what the cell layout says at the position |
| Parcels.MarshalInterface | interfaces/innerkits/native/include/usb_interface.h:74-91 | The fields, the full count and at most 128 endpoints |
| Parcels.UnmarshalInterface | interfaces/innerkits/native/include/usb_interface.h:93-118 | Reads at most 128 endpoints; the authorise flag is the default |
| Parcels.MarshalConfig | interfaces/innerkits/native/include/usb_config.h:70-85 | The fields, the full count and at most 128 interfaces |
| Parcels.UnmarshalConfig | interfaces/innerkits/native/include/usb_config.h:87-112 | Reads at most 128 interfaces |
| Parcels.MarshalDevice | interfaces/innerkits/native/include/usb_device.h:59-86 | The numbers, the strings, the full count and at most 128 configurations |
| Parcels.UnmarshalDevice | interfaces/innerkits/native/include/usb_device.h:88-125 | Reads at most 128 configurations; the configuration count and status are defaults |
| Parcels.MarshalIsoVec | utils/native/src/struct_parcel.cpp:49-70 | The count and every packet, uncapped |
| Parcels.UnmarshalIsoVec | utils/native/src/struct_parcel.cpp:72-101 | A missing count, a count above 15000 or a missing packet gives nothing |
| ParcelRoundTrip.DeviceRoundTrip | interfaces/innerkits/native/include/usb_device.h:59-125 | A written device, surrounded by anything, reads back cut to 128 children at each of three levels and leaves exactly the tail |
| ParcelRoundTrip.ConfigReadsBack | interfaces/innerkits/native/include/usb_config.h:70-112 | The same for a configuration |
| ParcelRoundTrip.InterfaceReadsBack | interfaces/innerkits/native/include/usb_interface.h:74-118 | The same for an interface |
| ParcelRoundTrip.EndpointReadsBack | interfaces/innerkits/native/include/usb_endpoint.h:52-74 | An endpoint reads back whole |
| ParcelRoundTrip.SurvivesExactly | interfaces/innerkits/native/include/usb_device.h:59-125 | A device survives unchanged exactly when no level exceeds its cap and the fields that are not written are defaults |
| ParcelRoundTrip.IsoVecRoundTrip | utils/native/src/struct_parcel.cpp:49-101 | The list reads back, leaving the tail, exactly when it has at most 15000 entries; longer ones are refused |
| ParcelLaws.DeviceComesBackExactly | interfaces/innerkits/native/include/usb_device.h:59-125 | Child by child and field by field: exactly the first 128 children of each level come back, each with all its fields |
| ParcelLaws.EndpointsReadAt | interfaces/innerkits/native/include/usb_endpoint.h:62-75 | Off any cells, endpoint k is read from the five cells at its place |
| ParcelLaws.NothingReadsAsZeros | interfaces/innerkits/native/include/usb_device.h:88-125 | Past its end a parcel reads as a device of zeros and empty strings |
| ParcelLaws.IsoVecReadsExactly | utils/native/src/struct_parcel.cpp:72-101 | Off any cells, a packet list is read exactly when there is a count of at most 15000 and every packet is present, and then packet by packet |
| ParcelLaws.DeviceHeadLies | interfaces/innerkits/native/include/usb_device.h:59-84 | The order of the 19 cells of a device before its configurations |
| ParcelLaws.ConfigHeadLies | interfaces/innerkits/native/include/usb_config.h:70-84 | The order of the 6 cells of a configuration before its interfaces |
| ParcelLaws.InterfaceHeadLies | interfaces/innerkits/native/include/usb_interface.h:74-90 | The order of the 8 cells of an interface before its endpoints |
| ParcelLaws.EndpointLiesAt | interfaces/innerkits/native/include/usb_endpoint.h:52-60 | Endpoint k is written as five cells, in this order, at its place |
| ParcelLaws.IsoLiesAt | utils/native/src/struct_parcel.cpp:21-34 | Packet k is written as its mark and three cells, in this order, at its place |

## Left out

- The older single-descriptor parsers (usb_descriptor_parser.cpp:193-351): nothing shown calls them.
- Driver calls, transfers, shared memory, IPC proxies and stubs, service start and stop: plumbing, seen here as answers.
- Dialogs, the function switch window, what notifications say, and the flag that disables the dialog: user interface.
- Fetching the device policy and its timing: the policy is an input. `ExecuteStrategy`, the global policy and the loop over
  the trust list only choose which of the modelled passes to run.
- String descriptors, JSON, serial-number hashes and iconv: libraries that are not part of this model.
- The SQL engine, its failures and roll-backs: a query or deletion is atomic and succeeds. Error codes have names but no
  numbers, because the base they add to is not part of this model.
- Serial port ownership, port roles and the endpoint's mask getters: small updates and expressions.
- Interleavings inside a handler: a handler is one step, and a timer that has fired does not wait for a lock. For the host
  policies and the publication, which change devices under a shared lock (usb_host_manager.cpp:1241, 1603, 1628, 2133), this is
  an assumption: two of them could overlap.
- Parcel writes that fail, and parcels of the wrong shape: a read past the end or of the wrong kind takes the default and
  moves on. The marker that precedes a parcelable belongs to the parcel library, which is not part of this model.
- Clock readings before 1970 or beyond 63 bits: times are whole seconds in that range.
- HostManager.UsbHostManager.ManageInterfaceTypeImpl: does not model the report of a disabled interface, nor the driver's answer per interface, because the flag is set whatever it is.
- HostManager.UsbHostManager.ExecuteManageInterfaceType: the driver answers each device the same way throughout one pass, because each device is asked at most once for its status.
- HostManager.UsbHostManager.ManageUsbSerialDevice: does not model the policy run that follows enabling, because the policy is an input.
- HostModel.ManagedJoin: broadcasts are kept per name, so their order across names within one pass, which depends on the map, is not modelled.
- RightManager.UsbRightManager.TidyUpRight: the counts and result codes of the clean-ups are only logged, so they are not modelled.
- UsbService.UsbService.AddDevice: stops at the end of the registry's first locked part; the policy and the publication that follow are steps of their own, in HostRuns.
- UsbService.UsbService.RemoveRight: the managers are never null here, so the branches for missing ones are not modelled.
- Base64.Base64Decode: strings of 2^31 characters or more are excluded, because the code counts with an int.
- DeviceDescriptor.ReadDescriptors: does not model the string descriptors that are read afterwards, because they come from a library that is not part of this model.
- HostManager.UsbHostManager.ManageOneDeviceInterfaces: does not model the driver's request and report for each interface, because neither affects the flag.
- DeviceManager.UsbDeviceManager.ProcessFunctionNotifier: only the HDC notification is modelled, because the others have no state.
