# Kudzu: a verified model of its algorithms

Kudzu probes a Linux machine's hardware, compares what it finds with what it found last time, and
configures what is new. This project models the parts of it that compute rather than probe, and proves
what they promise:

- `PnpCom`, `PnpTheory`: the parser of the identifier strings that serial Plug and Play devices send,
  in a 7-bit or a 6-bit encoding with a checksum. An encoder is the specification: the parser undoes
  it in both encodings, accepts exactly the lengths that have room and the right checksum and, where
  there is one, detects every changed byte that neither was nor becomes a delimiter where it stands.
- `Devices`, `ListDiff`, `ListDiffTheory`, `NetSort`, `NetSortTheory`, `NetSortOrder`: two algorithms that
  relink lists of devices in place, the diff of two lists and the grouping of network devices by driver.
- `NetNames`, `NetNamesTheory`, `NetNumberTheory`, `NetKeepTheory`: the passes that give network devices
  their interface names, when they end, which names they leave, and who keeps a name.
- `HwConf`, `HwConfFiles`, `HwConfText`, `HwConfTheory`: the hwconf file, its text line by line, and what is
  read back of it.
- `ModLines`, `ModLinesText`, `ModLinesTheory`: the lines of modprobe.conf as a map from aliases to modules, and the
  search for a numbered alias.
- `RealMem`, `RealMemTheory`: the first-fit allocator of real-mode memory.
- `Bits`, `X86`, `Chains`, `AddSub`, `Branch`, `Rotate`, `Bcd`, `MulDiv`: arithmetic of the x86 emulator
  that runs the video BIOS. The reference is the Intel 64 and IA-32 Architectures Software Developer's
  Manual ("SDM"): volume 1, section 3.4.3.1 for the status flags, and volume 2 for the instructions.
- `Common`, `Text`, `Numerals`, `Numbering`: an option type, the printf and strto* conversions with their
  round trips, what a printed number is, and names made of a prefix and a number in a buffer of fixed size.

Each algorithm that changes state step by step is a method over arrays, linked objects or fields, proved
equal to a specification function; what the source promises is proved of that function. The theorems name
the bytes, lengths, keys and letters themselves, not the functions of the program. Words of the emulator
are natural numbers with recursive bitwise operators, so that the chain theorems hold at every width.

## Where the code and its documentation part

- `div_long`, the loop used without a 64-bit type, misses a quotient overflow for dividends from 2^32 to
  2^33 divisors, and the branch with a 64-bit type never reports one: `PortableMeetsSdmIff`,
  `OverflowIsMissed`, `WideMeetsSdmIff`, `BranchesAgreeIff`.
- `das_byte` tests the byte after its first subtraction where the SDM tests the byte before:
  `DasMeetsSdmIff`, `DasDiffersAtZero`. On differences of decimal numbers the two agree:
  `DasAgreesOnDecimals`.
- JNL and SETNL (0x8d, 0x9d) have the condition of JL and SETL, so after a comparison they hold exactly
  when their relation fails: `ConditionIs`, `CompareAndJump`, `CompareAndSet`.
- modules.h promises that `isAliased` returns 2 for the one line `alias eth2 tulip`; the search gives up
  at the first missing number from 1 on: `LoneNumberIsMissed`, `NumberIsFoundIff`. With a name that fills
  its buffer the search need not end: `SearchEndsIff`, `LongAliasNeverEnds`.
- `addAlias` without a flag takes effect only if no later line binds the name differently:
  `PlainAddAlias`, `OlderLineWins`.
- Network devices can end with equal or generic names, and a configured device without its name.
  `MatchingIsCompleteIff` says when all end with different names of their own, and
  `GenericNamesAreCompleted` that they do if all start with generic names. `NameIsKeptIff` says, for every
  network device, when it ends with the name configured for its address or, without one, the name it was
  found with. `ConfiguredNameIsLost` and `ConfiguredNamesAreSwapped` are cases where it does not: the name
  is numbered to another device, or two devices of one driver get each other's.
- A numbering loop of the network names ends exactly if a number that the buffer holds whole is free:
  `NumberingEndsIff`, and for the whole pass `NumberableIff`. Up to 10000 configurations and devices all do:
  `FewDevicesEnd`.
- `compareDevice` lets a generic device name match any name and an absent driver any driver, so the diff
  depends on the order of the lists and can leave devices that could have been paired off:
  `GenericNameMissesAPairing`, `AbsentDriverMissesAPairing`. It pairs off all it can exactly when the
  comparison is rectangular, `PairsAllItCanIff`, which it is on devices that know the same things about
  themselves: `AlikeAreDiffed`, `DeviceListsAgreeIff`.
- An allocation request whose stored 20-bit size is not positive, or not below its block, breaks the
  table: `AllocCanonicalIff`, `EmptyRequestSpoils`.
- A device without a description comes back from hwconf described as "(null)", and other fields are lost
  in the cases `RoundTripIsExactIff` excludes. Where a long has 32 bits, negative USB identifiers are
  lost too: `NarrowLongKeepsIff`.

## Model

| member | source | states |
|---|---|---|
| PnpTheory.ScanFindsDelimiter | serial.c:751-754 | strpbrk finds the first of the bytes 0x29, 0x09, 0x5c, 0x3c or the terminating NUL, and behind the fields the first of 0x29, 0x09 or the NUL |
| PnpCom.FindBlockIs | serial.c:683-713 | of each kind the first begin byte counts, if an end byte of the kind follows it; the block found is the nearer one, and there is none exactly if neither kind opens one |
| PnpCom.TranslateInPlace | serial.c:721-730 | the loop adds 0x20, in place, to every byte from the begin byte through the first 6-bit end byte except the two revision bytes |
| PnpCom.ReadExtensions | serial.c:746-793 | the loop over cursors takes exactly the fields the recursive specification takes, or rejects, or leaves the buffer where that does |
| PnpCom.Checksum | serial.c:807-817 | the 16-bit accumulator holds the sum of the block's bytes as transmitted, without the two checksum bytes |
| PnpCom.CheckBlock | serial.c:800-824 | accepts exactly when there is no extension or the two bytes are the upper-case hex checksum |
| PnpCom.ParseFields | serial.c:736-824 | fields, extensions and checksum of a found block, with every rejection and every read past the buffer |
| PnpCom.ParsePnpString | serial.c:653-825 | the parser on any byte string: result, rejection, or read outside the buffer |
| PnpTheory.TranslateUndoesLower | serial.c:716-731 | translating a 6-bit block gives the 7-bit block of the same content and leaves the bytes outside it |
| PnpTheory.ExtensionsAreRead | serial.c:746-793 | up to four fields free of delimiters are stored in order and the loop stops at the checksum, if the first has 8 bytes or none, the second at most 33 and the others at most 41; else it rejects |
| PnpTheory.EitherDelimiterServes | serial.c:747-754 | the delimiters and end bytes of the two encodings serve alike: with those of the 6-bit one replaced the loop takes the same fields |
| PnpTheory.NoRoomForChecksum | serial.c:755-793 | a field with less than two bytes in front of the end byte is rejected as serial number, and as a later field copied over the end of its buffer |
| PnpTheory.UnendedIsRejected | serial.c:749-752 | a field without an end is rejected |
| PnpTheory.FifthFieldIsSkipped | serial.c:761-793 | of a fifth field nothing but the delimiter is read |
| PnpTheory.ShortBlockOverruns | serial.c:708-745 | a block behind more than 17 bytes is rejected; one of less than ten bytes is read over the end of the string |
| PnpTheory.WeightsAreTransmitted | serial.c:805-817 | the sum computed over the translated buffer is, modulo 256, the sum of the bytes transmitted, in both encodings |
| PnpTheory.FrameIsParsed | serial.c:678-824 | a framed identifier with up to four clean fields, followed by anything, is accepted exactly when its prefix has at most 17 bytes, its fields have the lengths above and its checksum is the sum in upper-case hex; it is then recovered field by field |
| PnpTheory.RoundTrip | serial.c:678-824 | parsing an encoded identifier, in either encoding, recovers it |
| PnpTheory.EncodingsAgree | serial.c:715-734 | the 7-bit and the 6-bit encoding of an identifier parse to the same fields |
| PnpTheory.SingleByteErrorIsDetected | serial.c:801-821 | with at least one extension, changing any one byte inside the block that is no delimiter is rejected, unless it becomes the 6-bit end byte of a 6-bit block, or, behind the base fields, a byte that reads as a delimiter in this encoding |
| ListDiff.Link | kudzu.c:1165-1171 | the array becomes the null-terminated list of its elements |
| ListDiff.Scan | kudzu.c:1176-1193 | the inner loop stops at the first equal node with its predecessor; its flag keeps its old value when list 2 is empty |
| ListDiff.RemovePair | kudzu.c:1180-1187 | both nodes are unlinked, at the head or in the middle, and the node of list 1 keeps its own link |
| ListDiff.CompareOne | kudzu.c:1176-1196 | one turn of the outer loop, in spite of the stale flag |
| ListDiff.UnlinkMatches | kudzu.c:1172-1197 | both lists end as the diff's leftovers |
| ListDiff.Collect | kudzu.c:1199-1210 | the array of a list |
| ListDiff.ListCompare | kudzu.c:1158-1227 | both results are the leftovers of the diff, still linked, and the return value says whether there are any |
| ListDiffTheory.LeftoversKeepOrder | kudzu.c:1158-1227 | the results are sublists of the inputs, for any compare function |
| ListDiffTheory.RemovedArePaired | kudzu.c:1158-1227 | the removed devices pair off one to one, equal in each pair, and with the leftovers make up the inputs |
| ListDiffTheory.NoMatchIsLeft | kudzu.c:1158-1227 | no leftover of one list equals a leftover of the other |
| ListDiffTheory.OneMoreDevice | kudzu.c:1172-1197 | a device more in list 1 is paired with the first that equals it of what the others leave of list 2, or is left: with the empty list 1 this determines every diff |
| ListDiffTheory.SurplusIsLeft | kudzu.c:1158-1227 | for a compare function of classes, exactly the surplus of each class is left, on the side that has it; `AlikeAreByClass` says when compareDevice is one |
| ListDiffTheory.NoDifferenceIff | kudzu.c:1223-1226 | for such a function, no difference is reported exactly when every class is equally frequent, in whatever order |
| ListDiffTheory.CompareIs | kudzu.c:234-262 | when compareDevice gives 2, 0 and 1, exactly: 2 if only known drivers differ, 0 also for two network devices with one address and different names |
| ListDiffTheory.CompareIsSymmetric | kudzu.c:234-262 | it does not matter which device comes first |
| ListDiffTheory.NamelessCompare | kudzu.c:239-250 | if either name is absent or generic the names do not matter, but for two network devices with one address |
| ListDiffTheory.DriverlessCompare | kudzu.c:255 | if either driver is absent the drivers do not matter |
| ListDiffTheory.FirstMatchIsBest | kudzu.c:1172-1197 | with a rectangular comparison no pairing of equal devices has more pairs than the diff takes off |
| ListDiffTheory.PairsAllItCanIff | kudzu.c:1172-1197 | for all parts of two lists in every order the diff pairs off all it can, exactly when the comparison on the two lists is rectangular |
| ListDiffTheory.AlikeAreByClass | kudzu.c:234-262 | on devices that know the same things about themselves compareDevice compares by class, bus, and address or name and driver |
| ListDiffTheory.AlikeAreDiffed | kudzu.c:234-262 | so of such devices the diff leaves exactly the surplus of each class, pairs off all it can, and leaves nothing exactly when every class is equally frequent |
| ListDiffTheory.DeviceListsAgreeIff | kudzu.c:1223-1226 | and listCompare of two such lists reports no difference exactly then |
| ListDiffTheory.GenericNameMissesAPairing | kudzu.c:246-250 | a generic name breaks this: four devices that could pair off leave two |
| ListDiffTheory.AbsentDriverMissesAPairing | kudzu.c:255 | so does an absent driver |
| NetSort.Relink | kudzu.c:299-302 | the three assignments move one node behind the current one in the chain |
| NetSort.PullOne | kudzu.c:298-305 | one turn of the inner loop, which restarts behind a moved node |
| NetSort.PullInPlace | kudzu.c:296-306 | the inner loop on links does what the specification does on the sequence, and ends |
| NetSort.GroupInPlace | kudzu.c:292-309 | the outer loop, for the links of any list |
| NetSort.SortNetDevices | kudzu.c:284-311 | the relinked list is the specified reordering of the same nodes under the same head |
| NetSortTheory.SortGroups | kudzu.c:284-311 | every device outside the first run of network devices and the run's first stay in place, the rest is permuted, and equal drivers end adjacent |
| NetSortTheory.ContiguousIsGrouped | kudzu.c:284-311 | when the network devices are contiguous, all of the list with one driver end adjacent |
| NetSortOrder.GroupIs | kudzu.c:292-309 | the run in its new order, exactly: a device with a later one of its driver behind its neighbour is followed by that one, then by the neighbour if it has the driver, then by the others in list order; without one nothing moves |
| NetSortOrder.SortedIs | kudzu.c:284-311 | this is done to the first run of network devices, and all others stay |
| NetSortOrder.HeadsKeepOrder | kudzu.c:292-309 | the first devices of all drivers and the devices of unknown driver keep their order |
| NetNames.InList | kudzu.c:902-911 | whether the name is recorded |
| NetNames.RemoveMatchingDevices | kudzu.c:913-934 | every other network device with the name gets its generic name, and nothing else changes |
| NetNamesTheory.GenericIs | kudzu.c:921-931 | the generic name is tr or fddi for names that start so, and eth for all others |
| NetNamesTheory.TakeIs | kudzu.c:1009-1012 | giving a name changes that device, the other network devices that had the name, and the record, and nothing else |
| NetNames.PassOne | kudzu.c:1001-1015 | names by hardware address |
| NetNames.PassTwo | kudzu.c:1016-1030 | names by driver, each configured name once |
| NetNames.FindFree | kudzu.c:1038-1045 | where some number gives a free name, the loop ends at the first from the counter on |
| NetNames.NumberDevice | kudzu.c:1034-1080 | one device of pass 4, its counter moved past the number taken, where the loop ends |
| NetNames.PassFour | kudzu.c:1031-1081 | numbers for all generic names, where every loop ends |
| NetNames.Free | kudzu.c:1040-1045 | the number is the first from the counter on whose name is not recorded, among those the buffer holds whole |
| NetNames.NumberingEndsIff | kudzu.c:1038-1075 | a numbering loop of eth, tr or fddi ends exactly when a number that the buffer holds whole gives a name that is not recorded, and then at the first such number |
| NetNamesTheory.NumberLimits | kudzu.c:1040-1075 | the buffer holds the numbers below 100000 of eth, 1000000 of tr and 10000 of fddi whole |
| NetNamesTheory.NumbersAreLeast | kudzu.c:1031-1081 | each device of pass 4 takes the least number whose name is not recorded; the counters only save time |
| NetNamesTheory.Pigeonhole | kudzu.c:1040-1045 | n numbered names in the list need n different entries |
| NetNames.MatchNetDevices | kudzu.c:1001-1081 | all passes, from the configuration read on, for every input on which pass 4 ends |
| NetNamesTheory.MatchedNamesAreUnique | kudzu.c:1001-1081 | after all passes, for any configurations, at most one network device holds a recorded name that is not generic |
| NetNamesTheory.NumberingSparesHolders | kudzu.c:1031-1081 | pass 4 never takes a recorded name from its holder |
| NetNamesTheory.FewDevicesEnd | kudzu.c:1001-1081 | with at most 10000 configurations and devices every loop ends |
| NetNamesTheory.NumbersRunOut | kudzu.c:1070-1075 | once all numbers that the buffer of nine bytes holds whole are recorded, every number gives a recorded name |
| NetNumberTheory.NumberableIff | kudzu.c:1031-1081 | pass 4 ends exactly when for every device that takes a number there is one from its counter on, short enough for the buffer and with a name not recorded before |
| NetNumberTheory.PassFourNames | kudzu.c:1031-1081 | the name of every network device after pass 4, from the state before it: its number where it is generic or was handed out to an earlier device, the generic name where a later one got its name, else its own |
| NetNumberTheory.NumberingIsCompleteIff | kudzu.c:1031-1081 | pass 4 leaves all network devices with different names that are not generic exactly when, of those that take no number, none has a name that is handed out later and no two have the same |
| NetNumberTheory.MatchingIsCompleteIff | kudzu.c:1001-1081 | over all passes that is so exactly when it holds of the state before pass 4 |
| NetNumberTheory.GenericNamesAreCompleted | kudzu.c:1001-1081 | all network devices end with different names that are not generic if every network device starts with a generic name |
| NetNumberTheory.NumberingKeepsIff | kudzu.c:1031-1081 | a device with a name of its own keeps it in pass 4 exactly when the name is not handed out |
| NetKeepTheory.RecordedIsKeptIff | kudzu.c:1016-1081 | a device whose name pass 1 recorded keeps it through passes 2 and 4 exactly when pass 2 guesses no other for it |
| NetKeepTheory.NameIsKeptIff | kudzu.c:1001-1081 | every network device, unless its own name (configured for its address, else the one it was found with) is generic, ends with that name exactly when nobody takes it by address, after its turn if it is configured itself; pass 2 guesses it that name (or a generic one whose number makes that name), or nothing for it and the name for nobody; and, where it is guessed nothing, pass 4 hands it to nobody |
| NetKeepTheory.TakersAreClaimants | kudzu.c:1001-1015 | if the device was found with another name, or alone with its own, somebody takes that by address exactly when a device is configured for it, after its turn if it is configured itself |
| NetKeepTheory.RenamedIsKeptIff | kudzu.c:1001-1081 | so a device configured for a name and found with another ends with the configured one exactly when no later device is configured for it and pass 2 guesses nothing |
| NetKeepTheory.MatchesIff | kudzu.c:1006-1008 | a configuration matches an address of equal length with the same characters, letters A to Z in either case |
| NetKeepTheory.CaseDoesNotMatter | kudzu.c:1001-1081 | rewriting the letters of configured addresses in the other case changes no name |
| NetKeepTheory.ConfiguredNameIsLost | kudzu.c:1006-1014 | a device found with its configured name is not recorded by pass 1, and pass 4 gives the name to another |
| NetKeepTheory.ConfiguredNamesAreSwapped | kudzu.c:1006-1029 | two devices of one driver, each found with its configured name, end with their names swapped |
| HwConfFiles.Output.WriteDevice | kudzu.c:199-232 | a separator and the common lines, in order |
| HwConfFiles.Output.PciWriteDevice | pci.c:65-69 | the nine PCI lines behind the common ones, padded as printed |
| HwConfFiles.Output.UsbWriteDevice | usb.c:36-49 | the USB lines, the two strings only if present |
| HwConfFiles.Output.ScsiWriteDevice | scsi.c:29-33 | the SCSI lines, unsigned words printed as signed ones |
| HwConfFiles.Output.WriteModes | ddc.c:53-58 | one line for each width and height up to the zero |
| HwConfFiles.Output.DdcWriteDevice | ddc.c:33-61 | the monitor lines, zero fields left out |
| HwConfFiles.WriteDevices | kudzu.c:735-747 | the file's text is the lines of all devices in order, and there is none for an empty list |
| HwConfFiles.Input.FGets | kudzu.c:353 | the next line with its newline, or as much of it as fits the buffer |
| HwConfFiles.Input.ReadDevice | kudzu.c:341-539 | consumes lines up to a separator or the end, and gives the record they make, or none |
| HwConfFiles.Input.FindSeparator | kudzu.c:710-713 | skips to behind the first separator, over lines of any length |
| HwConfFiles.Input.ReadDevs | kudzu.c:700-721 | all records behind the first separator in order, or NULL without one |
| Text.IntRoundTrip | kudzu.c:383 | atoi gives back any integer printed with %d, whatever follows that is no digit |
| Text.HexRoundTrip | kudzu.c:403 | strtoul gives back any number printed in hex, padded with zeros or with spaces |
| Numerals.PrintIntIs | kudzu.c:219 | %d prints a sign if negative and the decimal digits without a leading zero |
| Numerals.PrintHexIs | pci.c:68 | %04x, %4x and %2x print lower-case digits without a leading zero behind as many pad characters as fill the width |
| Numerals.NumeralIsUnique | pci.c:68 | there is one such text for each number |
| Numerals.AtoiIs | kudzu.c:383 | atoi reads white space, a sign and digits up to any other text |
| Numerals.StrtolIs | kudzu.c:403 | strtoul and strtol read the same in base 16, digits in either case, with or without 0x |
| HwConfText.Hex4Is | pci.c:68 | an identifier below 0x10000 is written with exactly four lower-case digits |
| HwConfText.CommonLines | kudzu.c:219-231 | the lines every device has, their keys, values and order |
| HwConfText.PciLines | pci.c:68-69 | the nine PCI lines, with the padding of each |
| HwConfText.UsbLines | usb.c:38-49 | the USB lines |
| HwConfText.ScsiLines | scsi.c:31-32 | the SCSI lines, words as signed integers |
| HwConfText.DdcLines | ddc.c:36-61 | the monitor lines, zero values left out |
| HwConfText.GeneralClassNames | kudzu.c:86-107 | names of the class table |
| HwConfText.DiskClassNames | kudzu.c:86-107 | names of the class table |
| HwConfText.MediaClassNames | kudzu.c:86-107 | names of the class table |
| HwConfText.SlotBusNames | kudzu.c:112-142 | names of the bus table |
| HwConfText.CableBusNames | kudzu.c:112-142 | names of the bus table |
| HwConfText.OtherBusNames | kudzu.c:112-142 | names of the bus table |
| HwConfText.ValueOnLine | kudzu.c:382-399 | the value of a line is what follows the colon and one more character |
| HwConfText.FgetsTakes | kudzu.c:353 | a read takes a line with its newline, the rest of the text, or 511 characters |
| HwConfText.UnknownNames | kudzu.c:363-379 | a class that is not in the table is read as OTHER, and a bus that is not in it is none of it |
| HwConfText.BusLineIs | pci.c:83-105 | a bus line keeps the common fields except the private string, and the fields of the bus only if it is the same (not said of DDC); else they start at zero, the PCI subvendor at 0xffff |
| HwConfText.DescIs | kudzu.c:386-392 | a description is what stands between the first and the last quote, or the rest of a line with less than two |
| HwConfText.EmptyRecordEnds | kudzu.c:715-721 | a separator right behind another one ends the reading |
| HwConfTheory.KeyMatch | kudzu.c:362-399 | a line written under one key is read under that key and no other, and its value comes back whole |
| HwConfTheory.CommonIs | kudzu.c:362-399 | what each common line does to a record, for any value |
| HwConfTheory.PciIs | kudzu.c:401-420 | what each PCI line does |
| HwConfTheory.UsbIs | kudzu.c:502-525 | what each USB line does |
| HwConfTheory.ScsiIs | kudzu.c:461-470 | what each SCSI line does |
| HwConfTheory.DdcIs | kudzu.c:477-501 | what each monitor line does |
| HwConfTheory.NamesRoundTrip | kudzu.c:362-379 | the printed names of class and bus are read as that class and bus |
| HwConfTheory.DescRoundTrip | kudzu.c:386-392 | a description comes back whole, inner quotes included |
| HwConfTheory.ModeRoundTrip | kudzu.c:488-498 | a mode line gives back width and height |
| HwConfTheory.CommonIsRead | kudzu.c:362-399 | the common lines make a blank record of the bus with the common fields |
| HwConfTheory.PciIsRead | kudzu.c:401-420 | the PCI lines make the PCI fields |
| HwConfTheory.ScsiIsRead | kudzu.c:461-470 | the SCSI lines make the SCSI fields |
| HwConfTheory.UsbIsRead | kudzu.c:502-525 | the USB lines make the USB fields, identifiers of either sign included |
| HwConfTheory.NarrowLongKeepsIff | kudzu.c:517-520 | where a long has 32 bits an identifier comes back exactly if it is not negative |
| HwConfTheory.ModesAreRead | kudzu.c:488-498 | the mode lines rebuild the array, overwriting its end each time |
| HwConfTheory.DdcIsRead | kudzu.c:477-501 | the monitor lines make the monitor fields |
| HwConfTheory.RoundTrip | kudzu.c:341-539 | any nonempty list of devices on the modelled buses comes back from its lines in order, each normalized |
| HwConfTheory.SeparatorFound | kudzu.c:710-713 | on a readable text the separator that the buffered reads find is the first line that is one |
| HwConfTheory.TextRoundTrip | kudzu.c:700-721 | the same for the text of the file, read through the buffer, if its lines are clean: without newline or NUL, and short enough |
| HwConfTheory.RoundTripIsExactIff | kudzu.c:341-721 | the devices read back from that text are those written, unchanged, exactly if every one has a description, no private string that no line is written for, and no empty mode array |
| ModLines.ConfModules.RemoveLine | modules.c:229-247 | every equal line is dropped or commented |
| ModLines.ConfModules.RemoveAlias | modules.c:249-272 | every line that defines the alias is dropped or commented |
| ModLines.ConfModules.AddLine | modules.c:182-198 | the line goes to the first free slot or the end |
| ModLines.ConfModules.AddAlias | modules.c:201-213 | the alias line is added, after removal if a flag asks for it |
| ModLines.ConfModules.GetAlias | modules.c:299-319 | the definition on the last line that defines the alias |
| ModLinesText.DefinesIff | modules.c:306-316 | a line binds a word to a definition exactly when it is "alias ", white space, the word, white space and the definition |
| ModLinesText.RemoveAliasText | modules.c:249-272 | the lines that define the alias become free or get a "#" in front, and all others stay as they are |
| ModLinesText.AddAliasText | modules.c:182-213 | the same for an addition with a flag, and the new line goes to the first slot then free or to the end |
| ModLines.ConfModules.IsAliased | modules.c:321-340 | where the search ends: 0 on an exact hit, else the first number bound to the module before the first missing one from 1 on, else -1 |
| ModLinesTheory.Pigeonhole | modules.c:330-338 | bound numbers need as many lines |
| ModLinesTheory.OneNumber | modules.c:330-338 | a line binds at most one number |
| ModLinesTheory.AddAliasIsUpdate | modules.c:201-213 | with replace or comment, the name gets the new definition and no other name changes, whichever slot is reused |
| ModLinesTheory.PlainAddAlias | modules.c:201-213 | without a flag, others are untouched, and the definition takes effect exactly when no later line gives another one |
| ModLinesTheory.OlderLineWins | modules.c:182-213 | it does not when a slot in front of an older line is free |
| ModLinesTheory.ChangeIsUpdate | modules.c:182-272 | each such change of the lines is the change of the map |
| ModLinesTheory.StoreRefinesMap | modules.c:182-319 | over any run of removals, flagged additions, and plain additions that no later line overrides, lookups are those of the updated map |
| ModLinesTheory.AnswerIsUnique | modules.c:321-340 | the specification of the search admits one answer |
| ModLinesTheory.NumberIsFoundIff | modules.c:321-340 | a bound number is the answer exactly when the bare name does not hit, no smaller number does, and none from 1 on is missing |
| ModLinesTheory.SearchEndsIff | modules.c:323-338 | for a name that leaves room for d digits in the buffer the search ends exactly when some number below 10^d ends it; for a longer one exactly when the cut name is unbound or bound to the module |
| ModLinesTheory.SearchEndsWithinLines | modules.c:330-338 | if the numbers up to one more than there are lines fit, it ends by then |
| ModLinesTheory.LoneNumberIsMissed | modules.h:48-58 | the documented example fails when eth2 is the only alias |
| ModLinesTheory.LongAliasNeverEnds | modules.c:323-338 | a name of 128 bytes whose cut form is bound to another module: the search does not end |
| RealMem.RealMemory.Init | ddcprobe/x86-common.c:76-81 | one free block of the whole arena, unless already initialised |
| RealMem.RealMemory.InsertBlock | ddcprobe/x86-common.c:94-103 | shifts the blocks from i on up by one |
| RealMem.RealMemory.DeleteBlock | ddcprobe/x86-common.c:105-114 | closes the gap at i |
| RealMem.RealMemory.Alloc | ddcprobe/x86-common.c:116-145 | first fit with split, or nothing when not ready, full, or too large, for requests of any sign |
| RealMem.RealMemory.Free | ddcprobe/x86-common.c:148-176 | frees and merges with both neighbours; unknown addresses change nothing |
| RealMem.FirstFit | ddcprobe/x86-common.c:130-142 | the first free block strictly larger than the request |
| RealMemTheory.AllocKeepsCanonical | ddcprobe/x86-common.c:116-145 | sizes stay positive multiples of 16 that fill the arena, no two neighbours are free, the last block is free |
| RealMemTheory.AllocCanonicalIff | ddcprobe/x86-common.c:128-138 | for any request, exactly when that stays so |
| RealMemTheory.EmptyRequestSpoils | ddcprobe/x86-common.c:128-138 | a request of 0 bytes breaks it |
| RealMemTheory.AllocIsLowestCandidate | ddcprobe/x86-common.c:125-144 | fails exactly when the table is full or no gap is large enough, and otherwise returns the lowest address, in terms of the live extents alone |
| RealMemTheory.LiveExtentsAreSafe | ddcprobe/x86-common.c:116-176 | live extents are aligned, inside the arena and disjoint |
| RealMemTheory.CanonicalIsUnique | ddcprobe/x86-common.c:94-176 | the table is determined by the set of live extents |
| RealMemTheory.FreeKeepsCanonical | ddcprobe/x86-common.c:165-175 | freeing keeps the table canonical |
| RealMemTheory.FreeLive | ddcprobe/x86-common.c:148-176 | freeing a live address removes exactly its extent |
| RealMemTheory.FreeOther | ddcprobe/x86-common.c:157-163 | freeing any other address changes nothing |
| RealMemTheory.FreeUndoesAlloc | ddcprobe/x86-common.c:116-176 | freeing what was just allocated restores the exact table |
| RealMemTheory.RunKeepsCanonical | ddcprobe/x86-common.c:116-176 | every run of allocations and frees keeps the table canonical |
| RealMemTheory.FreeingAllIsInitial | ddcprobe/x86-common.c:148-176 | freeing all live addresses, in any order, gives back the initial block |
| X86.TableIsParity | ddcprobe/x86emu/prim_ops.c:107-121 | the table macro says whether a byte has an even number of ones |
| Chains.CarryChainIs | ddcprobe/x86emu/prim_ops.c:51-69 | bit i of the carry formula is the carry out of bit i, for any width and carry in |
| Chains.BorrowChainIs | ddcprobe/x86emu/prim_ops.c:73-96 | bit i of the borrow formula is the borrow into the bits above |
| Chains.OtherBracketing | ddcprobe/x86emu/prim_ops.c:626 | the formula of inc_byte has the same bits |
| Chains.NegChain | ddcprobe/x86emu/prim_ops.c:745-750 | the formula of neg is the borrow chain of 0 - s |
| Chains.CarryOverflow | ddcprobe/x86emu/prim_ops.c:42-44 | the two top carries differ exactly when the signed sum does not fit |
| Chains.BorrowOverflow | ddcprobe/x86emu/prim_ops.c:42-44 | the same for borrows and the signed difference |
| AddSub.SplitCarry | ddcprobe/x86emu/prim_ops.c:280-290 | the carry of the split 16-bit sums is the carry of the 32-bit sum |
| AddSub.AddNarrow | ddcprobe/x86emu/prim_ops.c:306-345 | 8- and 16-bit sum with all flags by their meaning |
| AddSub.AdcNarrow | ddcprobe/x86emu/prim_ops.c:221-268 | the same with carry in |
| AddSub.AddLong | ddcprobe/x86emu/prim_ops.c:350-373 | 32-bit sum and flags |
| AddSub.AdcLong | ddcprobe/x86emu/prim_ops.c:273-300 | the same with carry in |
| AddSub.IncByte | ddcprobe/x86emu/prim_ops.c:615-630 | increment and flags; the carry flag stays |
| AddSub.Inc | ddcprobe/x86emu/prim_ops.c:636-673 | the same for 16 and 32 bits |
| AddSub.Sub | ddcprobe/x86emu/prim_ops.c:1873-1934 | difference and flags at all widths |
| AddSub.Sbb | ddcprobe/x86emu/prim_ops.c:1798-1868 | the same with borrow in |
| AddSub.SbbUndoesAdc | ddcprobe/x86emu/prim_ops.c:221-1868 | subtracting with the same carry gives back the operand, and borrows exactly when the addition carried |
| AddSub.Cmp | ddcprobe/x86emu/prim_ops.c:438-500 | flags of the difference; the operand comes back |
| AddSub.Dec | ddcprobe/x86emu/prim_ops.c:546-610 | decrement and flags; the carry flag stays |
| AddSub.Neg | ddcprobe/x86emu/prim_ops.c:735-805 | negation and flags |
| Branch.LongJump | ddcprobe/x86emu/ops2.c:70-156 | a taken jump goes to the signed displacement behind the instruction, modulo 2^16, and otherwise to the next instruction |
| Branch.SetByte | ddcprobe/x86emu/ops2.c:162-266 | stores 1 or 0, by the condition, in the register or memory byte that is its destination, and nothing else |
| Branch.ConditionIs | ddcprobe/x86emu/ops2.c:78-145 | after a comparison every condition holds exactly when its unsigned or signed relation does, except 0xd, which holds exactly when it fails |
| Branch.CompareAndJump | ddcprobe/x86emu/ops2.c:70-156 | a comparison and a jump branch by the relation, at every width |
| Branch.CompareAndSet | ddcprobe/x86emu/ops2.c:162-266 | a comparison and a byte set store whether the relation holds, and 0x9d whether it fails |
| Rotate.Rcl | ddcprobe/x86emu/prim_ops.c:839-931 | the carry flag and the word take s single steps to the left, for any count |
| Rotate.Rcr | ddcprobe/x86emu/prim_ops.c:960-1071 | they take s single steps to the right |
| Rotate.RcrUndoesRcl | ddcprobe/x86emu/prim_ops.c:839-1071 | the same count to the right restores word and carry flag |
| Rotate.Rol | ddcprobe/x86emu/prim_ops.c:1109-1203 | the word takes s steps to the left, at 8, 16 and 32 bits, with both flags |
| Rotate.Ror | ddcprobe/x86emu/prim_ops.c:1208-1296 | s steps to the right |
| Rotate.RightUndoesLeft | ddcprobe/x86emu/prim_ops.c:1109-1296 | as many steps to the right undo steps to the left |
| Rotate.LeftModulo | ddcprobe/x86emu/prim_ops.c:856-858 | only the count modulo the width matters |
| Rotate.LeftBit | ddcprobe/x86emu/prim_ops.c:863-867 | where each bit goes |
| Bcd.Daa | ddcprobe/x86emu/prim_ops.c:505-521 | DAA as the SDM has it, for every byte and flags |
| Bcd.Das | ddcprobe/x86emu/prim_ops.c:526-541 | the byte and flags as the code computes them, related to DAS by `DasMeetsSdmIff` |
| Bcd.DasMeetsSdmIff | ddcprobe/x86emu/prim_ops.c:526-536 | when das_byte is DAS, exactly |
| Bcd.DasDiffersAtZero | ddcprobe/x86emu/prim_ops.c:526-536 | they differ on AL = 0 with the adjust flag set |
| Bcd.DasAgreesOnDecimals | ddcprobe/x86emu/prim_ops.c:526-536 | on differences of decimal bytes it is |
| Bcd.DaaCorrects | ddcprobe/x86emu/prim_ops.c:505-516 | after adding decimal bytes and a carry, the decimal sum and its carry |
| Bcd.DasCorrects | ddcprobe/x86emu/prim_ops.c:526-536 | after subtracting, the decimal difference and its borrow |
| Bcd.AddDecimal | ddcprobe/x86emu/prim_ops.c:221-241 | carry threaded through any number of bytes: the exact decimal sum and carry |
| Bcd.SubDecimal | ddcprobe/x86emu/prim_ops.c:1798-1817 | borrow threaded through any number of bytes: the exact decimal difference and borrow |
| MulDiv.MulMagnitudes | ddcprobe/x86emu/prim_ops.c:2100-2110 | the product from 16-bit halves is exact for magnitudes up to 2^31 |
| MulDiv.CrossTermsFit | ddcprobe/x86emu/prim_ops.c:2107 | the cross terms and the carry fit a word |
| MulDiv.Negate | ddcprobe/x86emu/prim_ops.c:2111-2116 | two's complement of a double word by its halves |
| MulDiv.ImulLongDirect | ddcprobe/x86emu/prim_ops.c:2094-2116 | the exact 64-bit signed product for all operands |
| MulDiv.Step | ddcprobe/x86emu/prim_ops.c:2422-2437 | one step takes the shifted divisor off when it fits, in two words |
| MulDiv.Iteration | ddcprobe/x86emu/prim_ops.c:2421-2439 | one turn keeps dividend = quotient * shifted divisor + remainder |
| MulDiv.DivLoop | ddcprobe/x86emu/prim_ops.c:2408-2439 | after 33 steps: the quotient of the division as far as 33 bits hold it, and what is left of the dividend |
| MulDiv.DivLong | ddcprobe/x86emu/prim_ops.c:2407-2454 | registers, flags and interrupt for every dividend and divisor |
| MulDiv.PortableMeetsSdmIff | ddcprobe/x86emu/prim_ops.c:2408-2445 | when the loop is the DIV of the SDM, exactly; always when the quotient fits |
| MulDiv.OverflowIsMissed | ddcprobe/x86emu/prim_ops.c:2408-2445 | a dividend of 2^32 divisors overflows, and the loop does not report it |
| MulDiv.WideMeetsSdmIff | ddcprobe/x86emu/prim_ops.c:2393-2406 | the branch with a 64-bit type is the DIV of the SDM exactly when the quotient fits or the divisor is 0; it reports no overflow |
| MulDiv.BranchesAgreeIff | ddcprobe/x86emu/prim_ops.c:2393-2446 | when the loop and the 64-bit branch agree, exactly |

## Left out

- NetNames.MatchNetDevices: asks that pass 4 ends, since Dafny methods must; names are never NULL. When it ends is `NumberableIff`.
- ModLines.ConfModules.IsAliased: asks that the search ends, which `SearchEndsIff` decides.
- NetNames.NumberingEndsIff: counts without bound; the counters of the program are ints, so a loop that does not end here runs there into their overflow, which C leaves undefined, after 2^31 turns.
- NetNamesTheory.NumbersRunOut: likewise speaks of every number, beyond those an int holds.
- ModLinesTheory.SearchEndsIff: likewise counts without bound where the program has an int.
- PnpCom.ParsePnpString: keeps each field as the bytes copied into it. A class name of 33 bytes, which the length test admits, fills its buffer without a terminating NUL, so that read as a C string it runs on into the driver name.
- HwConfFiles.Input.ReadDevice: reads no fields of the PCMCIA, parallel, serial, SBUS, IDE and ISAPNP buses.
- HwConfFiles.WriteDevices: leaves out the buses with fields of their own other than PCI, USB, SCSI and DDC.
- HwConfFiles.Input.ReadDevs: asks that the lines behind the separator end, fit the buffer of 512 bytes and hold no NUL; on others the program crashes. The sort and the numbering behind the loop are not modelled; the sort subtracts pointers.
- HwConfTheory.RoundTrip: takes a long of 64 bits (for 32 see `NarrowLongKeepsIff`), without the range checks of atoi and strtol; a second bus line for the bus DDC, which copies the mode array short, is left out.
- Branch.SetByte: takes its destination as given, without the decoding of the ModR/M byte.
- RealMem.RealMemory.Alloc: leaves out requests whose rounding overflows an int.
- MulDiv.DivLong: the shift by the negative counter in the last step is undefined in C; its result is not used.
- A bus line UNSPEC or OTHER, which calls a constructor that is NULL or misses an argument; a mode line without an x, which the program does not survive.
- printf of a NULL string as "(null)" is what the GNU C library does.
- The strings made from identifier fields (the revision as text), and the bytes of `other_id` behind its length.
- The comparison functions of the single buses, which add fields of their own to `compareDevice`; what is proved for any comparison holds for them.
- Options lines of modprobe.conf, reading and writing that file, `configMenu`, and inittab.
- The initialisation of the arena by mmap, and its release.
- The branches of the emulator with a 64-bit type (only the division's is stated, as `Wide`), `mul_long`, `idiv_long`, the flag tests of `imul_word` and `imul_long`, shifts, `rcl_long` and `rcr_long`, string instructions.
- Unmodelled: probing through sysfs, proc, ioctl and ports, running the BIOS, process control, language bindings, memory management of C strings.
