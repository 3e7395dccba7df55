# usbutils, modelled and proved

A model in Dafny of the parts of usbutils whose correctness is not obvious from one
function: the descriptor interpreter, the device tree of `lsusb -t`, the transfer protocol
of `usbhid-dump`, the walkers over length-prefixed descriptors, the path normaliser and the
intrusive list. `dafny verify dfyconfig.toml` verifies all of it.

The C code that changes things in place is modelled as methods on classes and arrays; each
is proved against a function, and the lemmas say what that function means.

## Parts

**Descriptor interpreter** (`DescTable`, `DescCount`, `DescDump`, `DescConservation`,
`DescLayout`, `DescInferred`, `DescShown`, `DescRegular`, `DescDefs`, `DescLookups`).
`DescTable` and `DescCount` look values, sizes and counts up; `DescDump` shows the fields.
Output is a sequence of events, each with the bytes it stands for; `exit` is an outcome. A
buffer is a sequence as long as the descriptor, so an index inside it is an index below
`buf_len`. `unsigned int` arithmetic is modulo 2^32; offsets are `size_t` and do not wrap.
Two properties hold under conditions only. A lookup looks where the dump shows the field
if every array in front of it has one entry; if none of these arrays is empty, it does so
only then (or if the entries take no bytes), while an empty array can make up for one of
two entries. Five of the shipped definitions look behind an array, and there one entry is
the exact condition. And all bytes are printed if and only if every number is shown whole,
as those of at most eight bytes are. A field of type BCD or string index reads a byte
whatever its size, so the methods that read bytes ask for a definition that gives it a
fixed size, as every shipped one does.

**Device tree** (`UsbObjects`, `BusList`, `CStrings`, `UsbNames`, `Connect`,
`ConnectInterfaces`, `ConnectDevices`, `Forest`, `NameOwners`, `StableSort`, `DeviceList`,
`InterfaceSort`, `DeviceTree`, `DeviceSort`, `ForestMeaning`, `PrintTree`, `LsusbTree`,
`TreeLayout`, `TreeLines`, `TreeShown`). Who owns a device or an interface is a function of
names and numbers; the linked lists are proved to be the selections it makes, the forest they
form to be the one it defines, and the sorts to leave exactly the stable order at every depth.
`LsusbTree.ShowTree` puts it all together, and `TreeShown.ShowPluggedIn` says what a reader
of the lines learns: from the indentation alone, on which bus and on which hub each device
hangs, and from the lines of a device its interfaces. `sort_dev_interfaces` loops for ever on
lists whose two keys are opposed; it ends if and only if they are not.

**Stream protocol** (`StreamProtocol`, `StreamDump`, `UhdIface`). Everything outside the
program is a script: what the library answers, which callbacks it makes while it handles
events, when signals arrive. Callbacks happen only while events are handled, and only for a
transfer the library holds, which it lets go of before it calls. A run whose script ends
inside an event loop is blocked there; since every beginning of an infinite run is such a
script, the safety proved holds wherever a run stands. All allocations of transfers succeed;
those of buffers may fail.

**Interfaces of usbhid-dump** (`IfaceList`, `IfaceScan`, `IfaceRun`). Building and filtering
the list, detaching, claiming, and giving everything back. Two ghost fields of an interface
stand for the library's side, whether it has taken the kernel driver away and whether it
holds the interface claimed; only library calls change them.

**Path normaliser** (`AbsolutePath`, `PathMeaning`, `PathConditions`, `PathCut`). A path leads
where its names lead except in two cases, a dot component at its end and a second slash behind
one; `PathConditions` says exactly when these do harm, `PathCut` what a small buffer leaves.

**Walkers** (`Chains`, `IppPrinter`, `HidItems`), **circular list** (`CcanList`),
**hexadecimal body** (`HexDump`).

`Words` holds machine words and little-endian numbers.

## Where code and comments differ

- `usbhid-dump/iface.h:146` says that an interface is released if it was claimed before;
  the code always asks the library. The model follows the code.
- `desc-dump.c:432-445` means to end the program on a definition with two arrays of inferred
  length. Such an array gets 0xffffffff entries instead, or 0 when the fields before the other
  one already exceed the descriptor, and the dump ends as too short
  (`DescInferred.SecondInferred`, `DescInferred.TwoInferredStop`); the program ends only when a
  counted array has 0xffffffff entries. The model follows the code.
- `desc-dump.c:466-471` promises room for the largest index of an array; there is room for
  three digits at most (`DescCount.IndexFits`). The model follows the code.

## Model

| member | source | states |
|---|---|---|
| `DescTable.GetNBytesAsUll` | desc-dump.c:82-106 | Reads the little-endian number in at most eight of the bytes given, each of them inside the buffer. |
| `DescTable.GetValueFromField` | desc-dump.c:135-161 | The number at the offset that one entry of every earlier field gives, 0 when the descriptor ends before it; the process exits exactly when some field before the one looked up has neither a size nor a size field. Ends for every definition whose size fields stand before the fields they size. |
| `DescTable.GetEntrySize` | desc-dump.c:357-377 | The fixed size, or the looked-up size truncated to 32 bits; exits as the lookup does, or for a field of size 0. |
| `DescCount.GetArrayEntryCount` | desc-dump.c:394-464 | One count, a product of two modulo 2^32, bits rounded up to bytes, or what all other fields leave; 0xffffffff for a second array of inferred length, 0 when the others alone do not fit, and the two exits. |
| `DescCount.GetCounted` | desc-dump.c:404-423 | The counted case: one field or the 32-bit product of two, in entries or in bits. |
| `DescCount.InferCount` | desc-dump.c:424-463 | The inferred case: the scan subtracts each other field and divides what is left. |
| `DescCount.FieldLength` | desc-dump.c:540-551 | The column of names is the least width of at least 18 that keeps every name's padding from being negative; no name with its index outgrows it but those of entries from 1000 on; the process exits exactly when some array's length cannot be found. |
| `DescCount.IndexFits` | desc-dump.c:466-487 | The room kept is that of the largest index in brackets if and only if there are at most 1000 entries, and suffices for an index if and only if it is below 1000. |
| `DescDump.FieldRender` | desc-dump.c:496-515 | The text printed: the name, an array's with its index, and spaces. A single field fills the column; an entry fills it if and only if its index in brackets is as wide as the room kept for the largest one, and exceeds it if and only if it is entry 1000 or a later one. |
| `DescDump.BcdBytes` | desc-dump.c:256-264 | A binary-coded decimal prints each of its bytes once, the last one first. |
| `DescDump.RenderField` | desc-dump.c:221-354 | Shows the field's own bytes, all for a decimal and at most eight for a number, without reading outside the buffer; the event lists them in the order of the descriptor. |
| `DescDump.RenderExtension` | desc-dump.c:322-346 | Dumps the rest of the buffer with the definition the selector picks, or as junk when none does; the lookup of the selector may exit. |
| `DescDump.FindExtension` | desc-dump.c:328-341 | Entry by entry: the definition of the first entry whose selector is the one looked for; the undefined descriptor if no entry has it. |
| `DescDump.SelectIsListed` | desc-dump.c:328-341 | Whatever is picked is one of the listed definitions or has no fields. |
| `DescDump.SelectIs` | desc-dump.c:328-341 | The extension picked is that of the first entry with the selector, and there is none exactly if no entry has it. |
| `DescShown.ExtensionDump` | desc-dump.c:322-346 | The dump of a definition that ends in an extension: every entry of the fields before it at its place, then the dump of the rest with the first definition listed for the value of the type field, or junk if none is listed; the insufficient length if the descriptor ends before it. |
| `DescLookups.ProcessingUnitDump` | desc-defs.c:428-602 | In any descriptor of a processing unit, of any of the three versions, that reaches its extension: the rest is dumped with the definition that this version has for the type in bytes 1 and 2 (1 and 2, in version 3 also 3), and as junk for any other type; every field before it stands at its place. |
| `DescDump.DumpEntries` | desc-dump.c:564-596 | Entry by entry, each tested against the end of the buffer before it is shown; an extension consumes the rest. |
| `DescDump.DescDump` | desc-dump.c:517-609 | The events of the dump, which `Dump` gives and the lemmas below are about; every byte it reads has an index below the buffer's length. |
| `DescDump.DescDumpOuter` | desc-dump.c:532-536 | With the sentinel length the first field says how many bytes the dump is about. |
| `DescConservation.EveryByteOnce` | desc-dump.c:553-608 | Conservation: for every well-formed definition and every buffer, the ranges shown as fields, nested dumps included, and as insufficient or junk bytes tile the descriptor from first to last byte exactly once and in order; a dump that exits tiles a front of it. |
| `DescConservation.DumpAccounts` | desc-dump.c:322-346 | The same for a dump nested at any offset of an outer one. |
| `DescConservation.PrintedIsTiled` | desc-dump.c:82-106 | Printed bytes never exceed the bytes they stand for, and are these, in the order of the descriptor, if and only if every event prints its whole range. |
| `DescConservation.PrintedIsDescriptor` | desc-dump.c:82-106 | The printed bytes, each event's put in the order they have in the descriptor (numbers and decimals are printed last byte first), make up the descriptor if and only if every event prints its whole range, which holds whenever no field is wider than eight bytes. |
| `DescLayout.EntryAt` | desc-dump.c:564-596 | Entry `e` of an array is shown `e` sizes behind the first one, under its own index, with its own bytes: all of a decimal, at most eight of anything else. |
| `DescLayout.FieldsReach` | desc-dump.c:553-596 | While the buffer lasts, the dump of the fields before `k` is exactly every entry at the place that sizes times counts give it. |
| `DescLayout.DumpFollowsLayout` | desc-dump.c:553-608 | Without extensions: 'Length insufficient' is shown if and only if the sizes times counts of all fields add up to more than the buffer; the events are the layout computed from sizes and counts alone, then the junk, or the layout cut at the one entry in which the buffer ends. |
| `DescInferred.ScanSubtracts` | desc-dump.c:428-460 | As long as no product of size and count reaches 2^32, the scan for an inferred length subtracts exactly the bytes of the other fields. |
| `DescInferred.InferredCount` | desc-dump.c:424-463 | An array of inferred length gets as many whole entries as fit beside all other fields, and none if these alone do not fit. |
| `DescInferred.InferredArrayFills` | desc-dump.c:424-463 | One inferred array: 'Length insufficient' is shown if and only if the other fields alone exceed the buffer; otherwise what is left over is smaller than one entry. |
| `DescInferred.SecondInferred` | desc-dump.c:432-460 | An array of inferred length that meets another one in its scan gets 0 entries when the fields before the other one alone exceed the buffer, and else 0xffffffff. |
| `DescInferred.TwoInferredStop` | desc-dump.c:432-460 | With two arrays of inferred length, one of them with entries of some bytes, the dump of every descriptor ends in 'Length insufficient'. |
| `DescInferred.LookupOffsetIsStart` | desc-dump.c:147-158 | A lookup looks where the dump shows the field when every earlier array has one entry; when no earlier array is empty, if and only if each has one entry or entries of no bytes. |
| `DescRegular.CountIsMeant` | desc-dump.c:404-423 | With one-byte length fields counts are exact products, at most 65025, in whole bytes if counted in bits. |
| `DescRegular.RegularIsMeasured` | desc-dump.c:394-464 | With one-byte length fields no product of size and count wraps, and no count is mistaken for the mark of an inferred length. |
| `DescRegular.NeverExits` | desc-dump.c:371-374 | No descriptor, however malformed, makes the dump of a regular definition exit, nested definitions included. |
| `DescRegular.RegularDump` | desc-dump.c:394-608 | Exact layout for regular definitions without extensions: exact counts, the two conditions for 'Length insufficient', the bound on what is left over, and the events themselves. |
| `DescShown.NextFieldShown` | desc-dump.c:553-596 | In any well-formed definition whose first pass does not exit: what the dump shows once everything before a field has been shown is the field's first entry at its place, or the insufficient length. |
| `DescShown.LookupReadsWhatIsShown` | desc-dump.c:147-158 | When every earlier array has one entry, the value that lookups of a field use is the value shown for it; if the descriptor ends before it, the lookup yields 0 and the dump stops there. No regularity is asked for, only sizes and counts that can be found. |
| `DescRegular.RegularLookup` | desc-dump.c:147-158 | In a regular definition nothing but the single entries before the field is asked for. |
| `DescRegular.SafeLookupsAgree` | desc-dump.c:147-158 | In a definition that refers only to fields in front of its arrays, every length and selector looked up is the one shown, for every descriptor. |
| `DescRegular.ArrayDisplaces` | desc-dump.c:147-158 | One array among the fields before `k` moves the field away from where lookups expect it by all its entries but one. |
| `DescRegular.DisplacedLookup` | desc-dump.c:147-158 | Behind an array counted by one byte, lookup and dump agree on the place of a field if and only if the count is 1. |
| `DescDefs.ShippedIsRegular` | desc-defs.c:22-1223 | Each of the 55 definitions is well-formed: size fields stand earlier, sizes are positive, length fields are single bytes, at most one length is inferred, and so for the definitions of its extensions. |
| `DescDefs.LinkedDefsAreRegular` | desc-defs.c:271-1223 | The definitions with sizes, counts or extensions given by other fields, one by one. |
| `DescLookups.SafeDefsLookUpFirst` | desc-defs.c:271-1223 | Of the definitions that look lengths up, 19 refer only to fields in front of all their arrays. |
| `DescLookups.SafeDefsAgree` | desc-defs.c:271-1223 | So in these 19 every length and selector that is looked up is the one shown, for every descriptor. |
| `DescLookups.LengthsBehindArrays` | desc-defs.c:305-1200 | The other five, two mixer units, the UAC1 processing and extension units and the MIDI element: the length behind the array is looked up where it is shown if and only if the byte that counts the array is 1. |
| `DescLookups.LateValuesAgree` | desc-defs.c:305-1200 | In these five, for each count of the array: the length looked up is the length shown in every descriptor with that count that goes on to it, if and only if the count is 1. |
| `DescLookups.MixerCountsTheWrongByte` | desc-defs.c:305-320 | A UAC1 mixer unit (section 4.3.2.3 of USB Audio 1.0) with two sources: 2 is shown for `bNrChannels`, and 4, the second source, is used for it. |
| `StableSort.SortIsTheStableSort` | lsusb-t.c:678-702 | The reference order: a sequence is `Sort(s, key)` if and only if it is sorted and holds, key by key, the elements of `s` in their old order. |
| `StableSort.SortSorts` | lsusb-t.c:678-702 | The reference order is sorted. |
| `StableSort.SortPermutes` | lsusb-t.c:678-702 | The reference order is a permutation. |
| `StableSort.SortIsStable` | lsusb-t.c:678-702 | Elements with equal keys keep their relative order. |
| `StableSort.ExchangeInversions` | lsusb-t.c:678-702 | Exchanging two neighbours that are out of order removes exactly one inversion. |
| `StableSort.WholePass` | lsusb-t.c:678-702 | A pass keeps the stable order, lowers the inversion count if it swaps, and leaves the list as it was, and sorted, if it does not. |
| `StableSort.SortAbsorbsSuffix` | lsusb-t.c:638-666 | Sorting a tail first does not change what the whole sorts to. |
| `DeviceList.SortDeviceList` | lsusb.c:3908-3931 | Terminates for every array, the empty one and single elements included, and leaves the stable sort by bus and address. |
| `DeviceList.SortedByBusThenAddress` | lsusb.c:3908-3931 | That order is by bus number first and address second, with every device still there as often as before. |
| `BusList.BusTable.AppendBusnode` | lsusb-t.c:323-332 | Links the bus behind all others; the list is the old one and the new bus. |
| `BusList.BusTable.SwapWithNext` | lsusb-t.c:684-694 | Exchanges two neighbours of the linked list by rewriting `next` and the link before them. |
| `BusList.BusTable.Pass` | lsusb-t.c:683-700 | One pass through `**pp` is one bubble pass on the sequence of busses. |
| `BusList.BusTable.SortBusses` | lsusb-t.c:678-702 | Terminates for every list of busses and leaves the stable sort by bus number, in place, no bus lost. |
| `InterfaceSort.EndsExactlyOnCompatibleKeys` | lsusb-t.c:605-636 | The swap loop ends if and only if no interface has a smaller configuration and a larger number than another. |
| `InterfaceSort.IncompatiblePairCycles` | lsusb-t.c:605-636 | Two interfaces with opposed keys are swapped in every pass, for ever. |
| `InterfaceSort.SortedByBothKeys` | lsusb-t.c:605-636 | The order it ends in is sorted by configuration and by number at once, and a permutation. |
| `InterfaceSort.Pass` | lsusb-t.c:611-634 | One pass over the linked list is one pass on the sequence, both comparisons included. |
| `InterfaceSort.SortDevInterfaces` | lsusb-t.c:605-636 | On compatible keys it terminates and leaves the list sorted by configuration and number, in place. |
| `DeviceTree.SortForestTwice` | lsusb-t.c:638-666 | Sorting a sorted forest changes nothing. |
| `DeviceTree.SortForestAbsorbsTail` | lsusb-t.c:648-656 | The recursion into `&p->next` inside the loop does not change what the siblings sort to. |
| `DeviceTree.SortForestKeeps` | lsusb-t.c:638-666 | Sorting keeps every device and every interface, each as often as before. |
| `DeviceSort.StepKeepsSort` | lsusb-t.c:648-662 | Settling a tree, sorting the rest and comparing neighbours keeps what the whole list sorts to. |
| `DeviceSort.FrontOrder` | lsusb-t.c:648-662 | Why one pass suffices behind the recursion: what has been passed is in order with everything behind it. |
| `DeviceSort.SwapSiblings` | lsusb-t.c:655-661 | Exchanges two neighbouring siblings with everything that hangs below them. |
| `DeviceSort.Pass` | lsusb-t.c:645-665 | One pass of the swap loop, with its recursion into children and the rest of the list, on the heap. |
| `DeviceSort.SortDevSiblings` | lsusb-t.c:638-666 | The recursive in-place sort terminates for every forest and leaves in the heap exactly the forest sorted at every depth; interface lists too. |
| `ForestMeaning.SortedAtEveryDepth` | lsusb-t.c:638-666 | Every sibling list at every depth is sorted by port, every interface list by configuration and number. |
| `ForestMeaning.SortingKeepsLinks` | lsusb-t.c:638-666 | Sorting changes no parent, child or interface relation. |
| `ForestMeaning.SiblingsStable` | lsusb-t.c:638-666 | The roots, and the children of any device, are rearranged stably: sorted by port and in the old order where ports agree. |
| `ForestMeaning.SiblingsInOrder` | lsusb-t.c:605-666 | By the numbers: among siblings no later one has a smaller port, in an interface list no later one has a smaller configuration, nor a smaller number in the same one. |
| `CStrings.StrtoulReadsDecimal` | lsusb-t.c:396-405 | Reading back a printed number, in any surroundings that do not go on with a digit. |
| `UsbNames.GetSysfsName` | sysfs.c:29-57 | The buffer holds the device's name cut to what fits; the length returned is that of the name without the ports that do not fit whole, or -1 when not even the bus fits or the path is too deep. |
| `UsbNames.DeviceNameIs` | sysfs.c:45-54 | The name is the bus, a dash, and the ports with dots between them. |
| `UsbNames.AddUsbDeviceNumbers` | lsusb-t.c:393-409 | The three numbers that the loop over the name reads. |
| `UsbNames.NameRoundTrip` | sysfs.c:29-57 | Parsing a printed name gives back its bus, its last port and its second-last port, 0 if there is none. |
| `UsbNames.CutAtLastDot` | lsusb-t.c:536-541 | Cutting a printed name at its last dot gives the name of the hub; a device on a root hub has no dot. |
| `UsbNames.PrefilterKeepsParent` | lsusb-t.c:534-544 | The numeric test before the comparison of names never rejects the true parent. |
| `UsbNames.NamesAreUnique` | sysfs.c:29-57 | Different port paths have different names. |
| `Connect.KidsAre` | lsusb-t.c:515-554 | The list of an owner holds exactly the devices it owns. |
| `Connect.KidsInOrder` | lsusb-t.c:292-297 | They stand there in the order of the flat list, each once. |
| `Connect.IsParentIs` | lsusb-t.c:529-548 | One device passes the tests for another's parent if and only if it is another one on the same bus, its port is the parent port of the other, and the other's name is its name, a dot, and something without a dot. |
| `Connect.OwnerIs` | lsusb-t.c:515-554 | A device without parent port belongs to its bus; any other to the first device that passes the tests, or to nobody. |
| `Connect.AppendDevSibling` | lsusb-t.c:292-297 | Walks to the end of the list and links the device there. |
| `Connect.AttachToHub` | lsusb-t.c:544-550 | Linking a device below a hub extends the hub's list and leaves every other list as it was. |
| `Connect.AttachToBus` | lsusb-t.c:518-524 | Linking a device below a bus extends the bus's list and leaves every other list as it was. |
| `Connect.AssignDevToParent` | lsusb-t.c:529-554 | The device is linked below the first device that passes both tests, behind the devices already there, and gets it as its parent; nowhere if there is none. |
| `Connect.AssignDevToBus` | lsusb-t.c:515-527 | The device is linked below the bus of its number, if there is one. |
| `ConnectInterfaces.OwnedAre` | lsusb-t.c:556-585 | The list of an owner holds exactly the interfaces it owns. |
| `ConnectInterfaces.OwnedInOrder` | lsusb-t.c:280-290 | They stand there in the order of the flat list, each once. |
| `ConnectInterfaces.TestsTell` | lsusb-t.c:556-585 | What the tests on an interface's name say about its owner, and that one that is still to be linked is in no list. |
| `ConnectInterfaces.AppendDevInterface` | lsusb-t.c:280-290 | Walks the list and links the interface at its end unless it is already in it. |
| `ConnectInterfaces.AppendBusinterface` | lsusb-t.c:299-321 | Links a root hub's interface once, however often it is offered. |
| `ConnectInterfaces.AssignInterfaceToParent` | lsusb-t.c:556-585 | One offer of an interface to a device or a root hub extends exactly the list of its owner. |
| `ConnectDevices.ConnectAll` | lsusb-t.c:587-603 | From unlinked objects: every bus and device heads exactly the devices it owns, every owner exactly its interfaces, in the order of the flat lists, each once; every device has its hub as parent, and every interface the device that owns it. |
| `Forest.GrownDescend` | lsusb-t.c:587-603 | Whatever is found below a device descends from it by ownership. |
| `Forest.GrownUnique` | lsusb-t.c:587-603 | No device is reached twice: the lists form a forest. |
| `Forest.GrownInterfacesUnique` | lsusb-t.c:587-603 | No interface is in two lists. |
| `Forest.BusForestIsTidy` | lsusb-t.c:587-603 | Below each bus hangs an acyclic forest that can be sorted. |
| `Forest.BusForestsApart` | lsusb-t.c:587-603 | Nothing hangs below two busses. |
| `Forest.ListsFormForest` | lsusb-t.c:587-603 | The `next` and `first_child` pointers trace exactly the forest that ownership gives. |
| `Forest.BusHoldsForest` | lsusb-t.c:587-603 | So it is below every bus. |
| `NameOwners.ParentIsUp` | lsusb-t.c:534-544 | Among devices named after their ports, one passes the tests for another's parent if and only if its path is the other's without the last port. |
| `NameOwners.OwnedByName` | lsusb-t.c:529-554 | Each device is owned by the root hub of its bus or by the one device whose name is its own without the last port; by nobody if that is missing. |
| `NameOwners.OwnedByDeviceName` | lsusb-t.c:556-585 | If names are distinct and without colons, an interface belongs to a device if and only if its name is the device's, a colon, and something. |
| `NameOwners.OwnedByRootHub` | lsusb-t.c:565-580 | An interface called `bus-0:...` belongs to the root hub of that bus. |
| `NameOwners.PluggedInIsNoRootHub` | lsusb-t.c:565-574 | A device with a well-formed name is never taken for a root hub. |
| `NameOwners.EveryDeviceHangs` | lsusb-t.c:587-603 | With all parents present every device is in the forest of its bus. |
| `NameOwners.HangsExactly` | lsusb-t.c:587-603 | A device is in the forest of a bus if and only if the bus is its own and every hub on its path is among the devices. |
| `TreeShown.LinksOfGrown` | lsusb-t.c:587-603 | What hangs on a device in the forest are exactly the devices it owns. |
| `PrintTree.Screen.PrintTreeDevInterface` | lsusb-t.c:704-714 | One line per interface, the k-th line for the k-th interface of the list, or one line without interface if the list is empty; three columns in. |
| `PrintTree.Screen.PrintTreeDevChildren` | lsusb-t.c:715-724 | Prints the siblings and what hangs below them in preorder, four columns deeper per level, and restores the indentation. |
| `PrintTree.Screen.PrintTree` | lsusb-t.c:726-735 | Bus by bus, each with the preorder of its forest. |
| `PrintTree.DeviceLinesShow` | lsusb-t.c:704-714 | Line `k` of a device shows its interface `k`; a device without any has one line that shows none. |
| `PrintTree.PreorderShowsEveryDevice` | lsusb-t.c:704-735 | A device is shown if and only if it is in the forest. |
| `PrintTree.PreorderLength` | lsusb-t.c:704-735 | There are as many lines as the devices' interfaces, one for a device without any. |
| `TreeLayout.LinesShowParents` | lsusb-t.c:704-735 | The indentation tells the tree: a device hangs on another if and only if a line of that one is the nearest above one of its own that is indented less, namely by four columns. |
| `TreeLayout.LinesAreByPort` | lsusb-t.c:704-735 | In the lines of a sorted forest the devices on one level, with nothing less indented between them, come in the order of their ports. |
| `TreeLines.ForestIndented` | lsusb-t.c:704-735 | Each device is printed four columns deeper for every port on its path but the first. |
| `TreeLines.SheetShowsOwn` | lsusb-t.c:704-714 | The sorted list of a device is what its lines are to show: each interface named after it, once, by configuration and number; or one line without any. |
| `LsusbTree.SortDevices` | lsusb-t.c:668-676 | Sorts below every bus and disturbs none of the others. |
| `LsusbTree.ShowTree` | lsusb-t.c:759-773 | The whole of `lsusb -t` from unlinked objects to the lines: busses by number; below each, sorted by port at every depth and in preorder, exactly the devices whose names put them there; the indentation is restored. |
| `TreeShown.LinesTellTree` | lsusb-t.c:587-735 | For devices named after their ports: a device is shown below a bus if and only if the bus has the number in its name and every hub on its path is among the devices; it is shown on another device if and only if that is the one at its path without the last port, and the bus and all hubs are there; its indentation is three columns and four more for every port on its path; levels come in the order of the ports. |
| `TreeShown.LinesShowInterfaces` | lsusb-t.c:556-735 | On the lines of each device that is shown stand exactly the interfaces whose name before the colon is its name, each on one line, by configuration and number; one line without any if there is none; a device that is not shown has no line. |
| `TreeShown.ShowPluggedIn` | lsusb-t.c:759-773 | The whole of `lsusb -t` on such devices, from unlinked objects to lines that tell that tree and show these interfaces, one heading for each bus in the order of their numbers; no condition on names like root hubs is left. |
| `StreamProtocol.StreamIsSafe` | usbhid-dump/usbhid-dump.c:189-486 | For any answers, completions, resubmission failures and signals: marked transfers are in flight; one in flight without its mark is one whose cancelling failed; freed in flight only if the library refused to cancel it; kept only if in flight and after the library failed to handle events; success only after a signal or with nothing to dump. |
| `StreamProtocol.SucceedsExactly` | usbhid-dump/usbhid-dump.c:189-486 | A run that returns has succeeded if and only if everything was granted and every first submission accepted, and there was nothing to dump or, after some rounds none of which failed, a signal had come while some transfer had been completed and accepted again in all its callbacks. With no failure, no signal and such a transfer the stream goes on. |
| `StreamProtocol.HandleIs` | usbhid-dump/usbhid-dump.c:87-241 | What events do, by the events alone: a transfer stays marked if and only if every callback for it completed and was accepted again; a signal is known of if and only if there was one. |
| `StreamProtocol.LoopRuns` | usbhid-dump/usbhid-dump.c:380-401 | Each event loop has handled the events of some number of rounds, of which only the last can have failed, and ended at the first moment at which nothing was marked or a signal it heeds had been caught; or it waits. |
| `StreamProtocol.FirstIsKept` | usbhid-dump/usbhid-dump.c:89-94 | The number kept is that of the first signal. |
| `StreamProtocol.HandleKeepsSafe` | usbhid-dump/usbhid-dump.c:189-241 | Any sequence of callbacks and signals keeps that invariant. |
| `StreamProtocol.LoopKeepsSafe` | usbhid-dump/usbhid-dump.c:380-401 | Both event loops keep it, and end only for the reasons they may. |
| `StreamProtocol.CancelKeepsSafe` | usbhid-dump/usbhid-dump.c:411-436 | Cancelling takes no transfer out of flight and unmarks exactly those the library refuses. |
| `StreamProtocol.RefusedCancelFreesInFlight` | usbhid-dump/usbhid-dump.c:411-483 | For each transfer and any answers to cancellations: no script of completions, failures and signals ends in freeing it while the library holds it, if and only if the library agrees to cancel it. |
| `StreamProtocol.NoneFreedInFlight` | usbhid-dump/usbhid-dump.c:411-483 | So the clean-up never frees a transfer in flight, whatever happens, if and only if the library agrees to every cancellation. |
| `StreamDump.StreamCb` | usbhid-dump/usbhid-dump.c:189-241 | The flag is set after the callback if and only if the transfer completed and was accepted again, and then the library holds it. |
| `StreamDump.Dumper.constructor` | usbhid-dump/usbhid-dump.c:87 | At the start no signal has been caught. |
| `StreamDump.Dumper.ExitSighandler` | usbhid-dump/usbhid-dump.c:89-94 | Only the first signal is kept. |
| `StreamDump.Dumper.HandleEvents` | usbhid-dump/usbhid-dump.c:189-241 | What a batch of callbacks and signals makes of flags and transfers. |
| `StreamDump.Dumper.EventLoop` | usbhid-dump/usbhid-dump.c:380-401 | The event loops on the flags are the loops of the protocol. |
| `StreamDump.Dumper.SubmitAll` | usbhid-dump/usbhid-dump.c:369-378 | Submits until the first refusal and marks exactly the accepted ones. |
| `StreamDump.Dumper.CancelAll` | usbhid-dump/usbhid-dump.c:411-436 | Cancels what is marked, unmarks what is refused, and says whether anything is left to wait for. |
| `StreamDump.Dumper.FreeAll` | usbhid-dump/usbhid-dump.c:463-483 | Frees exactly the transfers whose interface is not marked. |
| `StreamDump.Dumper.CleanUpAll` | usbhid-dump/usbhid-dump.c:408-485 | Everything behind the label `cleanup`. |
| `StreamDump.Dumper.DumpIfaceListStream` | usbhid-dump/usbhid-dump.c:284-486 | The function with its set-up and every way out is the run of the protocol, result included, so what is proved of that above, safety and when it succeeds, holds of it. |
| `UhdIface.Iface.constructor` | usbhid-dump/iface.c:23-61 | A new interface is linked nowhere, has no flag set, and nothing has been asked of the library for it. |
| `UhdIface.Iface.Detach` | usbhid-dump/iface.c:76-90 | The library takes the driver away if it says so, and the flag says what it did; having no driver is no error. |
| `UhdIface.Iface.Attach` | usbhid-dump/iface.c:93-110 | Asks the library only for a driver that was detached; if that fails, the driver stays away and the flag set. |
| `UhdIface.Iface.Claim` | usbhid-dump/iface.c:113-127 | The library holds the interface if it says so, and the flag says what it did. |
| `UhdIface.Iface.Release` | usbhid-dump/iface.c:130-144 | Asks the library whether or not the interface was claimed; if that fails, the claim and the flag stay. |
| `UhdIface.ListLen` | usbhid-dump/iface_list.c:25-34 | The number of interfaces linked. |
| `IfaceList.FltrByNum` | usbhid-dump/iface_list.c:193-220 | Unlinks in place: exactly the interfaces with the number stay, in order. |
| `IfaceList.NumberedIsFilter` | usbhid-dump/iface_list.c:193-220 | That sublist holds exactly the interfaces with the number, none twice. |
| `IfaceScan.ReadReportLength` | usbhid-dump/iface_list.c:102-131 | The length in the first report entry that lies inside the descriptor and inside the extra bytes, else 4096. |
| `IfaceScan.ReportLengthIs` | usbhid-dump/iface_list.c:102-131 | Byte by byte: the two bytes, lower first, of the first entry of type 0x22 that lies inside the descriptor and the extra bytes; 4096 if there is none or no HID descriptor. |
| `IfaceScan.WrittenReportLength` | usbhid-dump/iface_list.c:102-131 | A HID descriptor (section 6.2.1 of HID 1.11) written with any entries, and anything behind it, gives the length in its first report entry. |
| `IfaceScan.WantedIs` | usbhid-dump/iface_list.c:84-160 | An interface is listed if and only if it has one setting, class 3, a number other than 255 and an interrupt endpoint into the host; the first such endpoint, by its attributes and address, is recorded. |
| `IfaceScan.AddInterface` | usbhid-dump/iface_list.c:84-167 | An interface is added, at the head of the list and with all flags down, exactly if it has one setting, is a HID interface with a usable number and has an interrupt IN endpoint; the first such endpoint is taken. |
| `IfaceScan.ListNew` | usbhid-dump/iface_list.c:50-190 | The list is everything wanted on all devices, last found first, all flags down; nothing if some configuration cannot be read. |
| `IfaceScan.ReversedAt` | usbhid-dump/iface_list.c:162-163 | Head insertion reverses the order of finding. |
| `IfaceScan.FoundInOrder` | usbhid-dump/iface_list.c:83-168 | Within a device, interfaces are found in order, each wanted one once. |
| `IfaceScan.DevicesInOrder` | usbhid-dump/iface_list.c:71-175 | Devices are gone through in order. |
| `IfaceRun.TakeAll` | usbhid-dump/usbhid-dump.c:528-535 | Detaches and claims in order and stops at the first refusal: which drivers the library has taken away and which interfaces it holds then; the flags agree with it. |
| `IfaceRun.TakenUpTo` | usbhid-dump/usbhid-dump.c:528-535 | A driver is taken away if and only if the library answers so and grants everything before; an interface is claimed if and only if it grants everything up to it: a detaching that finds no driver counts as granted. |
| `IfaceRun.GiveBack` | usbhid-dump/usbhid-dump.c:546-556 | Whatever fails, every driver the library had taken away is back unless attaching it failed, and every interface it held is released unless that failed; the flags agree with it. |
| `IfaceRun.DumpDescriptors` | usbhid-dump/usbhid-dump.c:152-186 | Succeeds exactly if every report descriptor fits the buffer and can be read. |
| `IfaceRun.WithNumberInOrder` | usbhid-dump/usbhid-dump.c:521-523 | The interfaces with the requested number are all kept, in order. |
| `IfaceRun.Run` | usbhid-dump/usbhid-dump.c:489-570 | The run works on exactly the interfaces with the requested number, in order; on every way out the kernel is without a driver, or the library holds an interface, if and only if the run took it and the call that gives it back failed; while the stream goes on all are taken. The exit code is 0 if and only if there were interfaces, all were granted, the report descriptors asked for have at most 4096 bytes and were all read, and the stream asked for succeeded; else 1. |
| `HexDump.DumpBody` | usbhid-dump/usbhid-dump.c:135-146 | The body is the lines of the bytes and one empty line. |
| `HexDump.LinesAreFull` | usbhid-dump/usbhid-dump.c:135-146 | Every line but the last holds sixteen bytes, the last at least one; there are as few as that takes, none for no bytes. |
| `HexDump.BodyRoundTrip` | usbhid-dump/usbhid-dump.c:135-146 | Reading the body, with anything behind it, gives back the bytes and what is behind, for every length. |
| `Chains.Walk` | lsusb.c:481-513 | The walk over extra descriptors of a configuration, a setting or an endpoint, or with a least length of 3 over device capabilities: the records met, and a complaint exactly when bytes for another record remain. |
| `Chains.WalkOfConcatenation` | lsusb.c:549-688 | A concatenation of descriptors with true lengths (section 9.5 of USB 2.0) is walked record by record to its end. |
| `Chains.WalkMeetsAll` | lsusb.c:776-858 | The same wherever such descriptors stand in a chain. |
| `Chains.RecordsAreTrue` | lsusb.c:3775-3822 | On any input the records met have true lengths and make up the front of the chain. |
| `Chains.WalkIsLongest` | lsusb.c:481-513 | No list of descriptors with true lengths reaches further than the walk. |
| `Chains.FindOtg` | lsusb.c:3267-3280 | Finds the first OTG descriptor among the very records the walk meets. |
| `Chains.FirstOtgIsFirst` | lsusb.c:3267-3280 | None before it is one; nothing is found if and only if no record is one. |
| `Chains.DoOtg` | lsusb.c:3282-3308 | The guarded loop nest finds nothing if and only if no record of the configuration, of a setting or of an endpoint is an OTG descriptor, and else what a flat search finds. |
| `Chains.OtgIsFirstInConfig` | lsusb.c:3282-3308 | What is found is the first OTG descriptor: one in the configuration's own bytes before all others, then interface by interface and setting by setting, a setting's own bytes before its endpoints, these in order. |
| `IppPrinter.DumpPrinterDevice` | lsusb.c:2565-2637 | The capabilities shown and whether the descriptor is reported as too short. |
| `IppPrinter.EncodedAreShown` | lsusb.c:2591-2636 | Capabilities written one after the other are all shown as written. |
| `IppPrinter.ShownAreEncoded` | lsusb.c:2591-2636 | On any descriptor the capabilities shown, written one after the other, are its bytes as far as they were read; it is reported as too short if and only if fewer are shown than announced, and then no further one can be read. |
| `HidItems.DumpReportDesc` | lsusb.c:2451-2563 | The items read and what is said about each, as `Parse` gives it; the page and data are kept from item to item. |
| `HidItems.ReadData` | lsusb.c:2479-2484 | The bytes of an item added up with shifts are their little-endian number. |
| `HidItems.RoundTrip` | lsusb.c:2451-2563 | Any list of short items (section 6.2.2.2 of HID 1.11), written and read, gives the same tags and bytes, nothing truncated. |
| `HidItems.ItemsAreReadBack` | lsusb.c:2451-2563 | The same for items in front of anything else. |
| `HidItems.ItemsAreWhole` | lsusb.c:2464-2470 | On any input whole items are read from the front; it is truncated if and only if bytes remain, fewer than the next item announces. |
| `HidItems.ReadsLongestFront` | lsusb.c:2464-2470 | No list of short items with which the descriptor begins is longer than what is read. |
| `HidItems.ParseAnnotates` | lsusb.c:2451-2563 | On any input, what is said about the items read depends on these items alone. |
| `HidItems.NotesAre` | lsusb.c:2485-2543 | What is said about an item follows from its own value and that of the latest Usage Page item; the value of an item without data is that of the nearest item before that has some. |
| `HidItems.UsageUnderLatestPage` | lsusb.c:2491-2500 | In any descriptor, an item of tag 0x08, 0x18 or 0x28 with value `v` is looked up as `page * 0x10000 + v` modulo 2^32, the page in the upper half and the usage in the lower; an item of tag 0x04 selects its own value as the page, and any other shows its value. |
| `HidItems.LatestPageIs` | lsusb.c:2485-2500 | The page in force is the value of the nearest item of tag 0x04 before; 0xffff if there is none. |
| `HidItems.ValueIs` | lsusb.c:2474-2484 | The value of an item with one, two or four bytes is the number they spell, the lowest byte first; an item without any has that of the nearest item before that has some. |
| `AbsolutePath.GetAbsolutePath` | usbmisc.c:71-127 | For every buffer size: terminated inside the buffer, failing only with `getcwd`, and holding the path resolved on a stack of components as far as there is room. |
| `AbsolutePath.Step` | usbmisc.c:96-121 | Each case of the loop is one case of the resolution; what is written and what is left always make up the buffer. |
| `AbsolutePath.GoUp` | usbmisc.c:108-113 | Backing up to the previous slash drops one component and never leaves the root. |
| `PathCut.CutToRoom` | usbmisc.c:96-122 | The answer never exceeds the room. It is that of the whole path in a buffer of any larger size, or of a front of the path and then fills the room exactly. |
| `PathCut.DotlessIsCut` | usbmisc.c:96-122 | Without dots in the path, what is left is the first characters of the answer. |
| `PathConditions.AbsoluteMeaning` | usbmisc.c:71-127 | An absolute path that fits, without a slash right behind `./` or `../`, resolves to the directory that walking its names from the root leads to, if and only if it does not end in a dot component. |
| `PathConditions.RelativeMeaning` | usbmisc.c:82-93 | Such a relative path resolves to where its names lead from the working directory, if and only if it does not end in a dot component. |
| `PathConditions.PlainText` | usbmisc.c:71-127 | The text itself of a plain path, absolute or read from a working directory that is not the root: a slash, the names of the directory meant with single slashes between them, and a slash at the end if and only if the path has one. |
| `PathMeaning.ResolveWalks` | usbmisc.c:96-121 | From any point behind a slash the rest of a path without those traps walks its names. |
| `PathMeaning.NamesOfText` | usbmisc.c:96-121 | The names in the buffer are the components on the stack. |
| `PathConditions.ResolveSplit` | usbmisc.c:96-121 | Behind a slash the rest of a path is resolved by itself: resolving `a` and then `b` is resolving both together. |
| `PathConditions.SlashBehindDot` | usbmisc.c:97-121 | A second slash behind a dot component does no harm, whatever plain path follows, if and only if the dot component leads to the root; elsewhere the slash counts as a component, which a following `../` removes instead of the directory. |
| `PathConditions.DotsAtTheEnd` | usbmisc.c:103-121 | Every path that ends in a dot component, with whatever slashes in it, resolves to a text that ends in it, which is not the directory meant. |
| `CcanList.ListIsUnique` | ccan/list/list.h:28-31 | The pointers determine the entries and their order. |
| `CcanList.ListIs` | ccan/list/list.h:28-31 | A list pointer by pointer: `next` leads from the head through the entries back to the head, `prev` back, and no node occurs twice. |
| `CcanList.ListNode.constructor` | ccan/list/list.h:147-162 | A node or head initialised is a ring of one. |
| `CcanList.AddAfter` | ccan/list/list.h:182-191 | The ring with the node in behind `p`. |
| `CcanList.AddBefore` | ccan/list/list.h:231-240 | The ring with the node in before `p`, at the end if `p` is the head. |
| `CcanList.Add` | ccan/list/list.h:208-213 | The list with the node at the front. |
| `CcanList.AddTail` | ccan/list/list.h:254-259 | The list with the node at the end. |
| `CcanList.Del` | ccan/list/list.h:328-337 | The ring without the node. |
| `CcanList.Swap` | ccan/list/list.h:409-421 | The ring with one node in the place of another. |
| `CcanList.Empty` | ccan/list/list.h:271-275 | Empty if and only if there are no entries. |
| `CcanList.Entries` | ccan/list/list.h:695-700 | Iteration visits every entry once, in order. |
| `CcanList.AppendList` | ccan/list/list.h:644-660 | The entries of `from` behind those of `to`, and `from` empty, whichever of them is empty. |
| `CcanList.PrependList` | ccan/list/list.h:676-692 | The entries of `from` before those of `to`, and `from` empty, whichever of them is empty. |

## Left out

- Exact text of the output other than the hexadecimal body and device names; string
  descriptors, name tables, `bmControls` texts and the snowflake functions of `desc-defs.c`.
- The per-class dump functions of `lsusb.c`: which of them is called for a record is not
  modelled, only which records are met.
- `sysfs` and `udev` reading, iconv, option parsing, opening of devices and signal
  installation: their results are parameters.
- Failure of `libusb_alloc_transfer` and of the allocation of an interface: the clean-up of
  the stream reads through every entry of the transfer list.
- That cancellation ends: a callback that completes resubmits, so it need not.
- A `size_t` of 32 bits: offsets are unbounded numbers.
- Lists of transfers, busses and flat lists are sequences of objects where the C code
  never changes them after building.
- An interface name whose part before the colon is all digits, or does not fit the buffer: for
  the first the C code reads one byte behind the terminator, and the model takes it for no root
  hub; the second it compares as an empty name.
- Long HID items, and Push and Pop, which the code does not implement.
- The reading of the path of a device and its symbolic links in `usbmisc.c`; `getcwd` is a
  parameter and yields a path that starts with a slash.
- `usbhid-dump/dev*.c` and `usbreset.c`, which only wrap library and system calls, and the
  scripts `usb-devices` and `lsusb.py`, which are not C.
- The switch that falls through in `get_n_bytes_as_ull` is a loop with one turn for each case.
- ConnectInterfaces.AssignInterfaceToParent: requires that no device is called like a root hub, which NameOwners.PluggedInIsNoRootHub shows for every device with a well-formed name.
- InterfaceSort.SortDevInterfaces: requires compatible keys, because the loop does not end on others (InterfaceSort.EndsExactlyOnCompatibleKeys).
- PathConditions.SlashBehindDot: is about one slash of that kind behind a plain path; a path with
  several of them can come back to the directory meant by being stopped at the root.
