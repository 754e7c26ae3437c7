# A verified model of a USB host and device stack

This project models six parts of a small USB stack written in C and proves what they are for. The
stack is built without an operating system (`USB_OS_EN` is 0), so every call runs to its end.

| part | files | what is modelled |
|---|---|---|
| Configuration descriptors | `Descriptors`, `UsbdConfig`, `UsbdRuns`, `UsbdIntent`, `UsbdBuilder`, `UsbdDescriptor` (device); `ConfigParser`, `ConfigGrammar`, `ConfigWalk`, `FunctionGroups`, `CfgParse` (host); `RoundTrip`, `RoundTripGroups`, `EndToEnd` (both) | a device keeps a configuration with cached counters and writes it out as one byte string; a host walks that string, nests endpoints and class-specific bytes under interfaces, and groups interfaces into functions |
| SCSI over Bulk-Only | `ByteOrder`, `ScsiSpec`, `ScsiBus`, `ScsiDevice`, `ScsiReplies`, `ScsiHost`, `ScsiSession` | command and status wrappers, the command table, chunked READ and WRITE through a bounded buffer, residue and sense data; the host's command blocks, and the host setting a unit up |
| UTF-8 and UTF-16 | `Utf8Spec`, `Transcode`, `TranscodeStrings` | table-driven decoding and encoding, surrogate pairs, bounded output, against the definitions of RFC 3629 and RFC 2781 |
| Heap structures | `RingBuffer`, `LinkedList`, `DeviceList`, `Pool` | a ring buffer, an intrusive doubly linked list with a device registry on top, a pool of fixed blocks |
| Report descriptors | `HidSpec`, `HidFacts`, `HidMeaning`, `HidParser` | item framing, global and local state, the collection stack with its growing table |
| State machines | `EndpointZero`, `HostDevices` | control transfers on endpoint 0 of a device; addresses, references, attach and detach of devices on a host |

Where the C code changes something in place, the Dafny code does too: classes with the fields of the
structures, arrays for buffers, loops where the source loops. Such a method is proved equal to, or
in a stated relation with, a function of its inputs and the old state; the lemmas then speak about
these functions, over all inputs and over whole runs.

## Main results

1. *Device to host.* After any run of calls the cached counters are exact exactly under conditions
   stated over the calls (`UsbdConfig.CountersExactly`). After proper calls the host gets all that the
   device writes, and reads back the same interfaces in order, each with its own class-specific bytes
   and its own pipes in list order, exactly when it is fewer than 65536 bytes
   (`RoundTripGroups.RunReadBack`); the associations come back as functions
   (`RoundTripGroups.GroupsRecovered`). The two loops, run one after the other, end with these
   functions (`EndToEnd.Enumerated`): every interface and association that a call asked for is there
   with the numbers, class codes and class-specific bytes of that call, and each pipe of an address
   of its own stands in the endpoint table of its direction under its number.
2. *Parsing and grouping.* Bytes are parsed as given items exactly when the items are legal by a
   grammar of descriptors and the bytes are theirs (`ConfigGrammar.ParsedExactly`). For any parsed
   configuration no number is owned by two functions, and every function holds exactly the
   interfaces of the numbers it owns exactly when no interface arrives while an entry before its own
   has a multiple of 256; then each interface lies in exactly one function exactly when there is an
   entry for each number. In every case no interface is lost exactly when no scan for a place fails,
   which depends on the numbers only (`FunctionGroups.OwnedPartition`).
3. *Mass storage.* Every reported status carries the tag of the command just taken and is PASS or
   FAIL; residue, bytes moved and blocks read but not sent make up the announced length
   (`ScsiDevice.Conserved`), so that the residue is right exactly when each call of the read callback
   gave all or nothing (`ScsiDevice.Ms.Process`). A chunked READ or WRITE is a block copy, and what
   was written is read back (`ScsiHost.WriteThenRead`). For every other command the bytes sent, the
   residue, the status and the sense data kept are stated in numbers (`ScsiReplies`), and the host's
   initialisation, run against the device, always succeeds, knows the block size, and does not learn
   whether the unit can be written (`ScsiSession.HostUnit.Init`).
4. *Text.* The decoder accepts exactly the well-formed sequences; both directions are inverse on
   well-formed text without NUL; and for any input and any output limit the output is well formed.
5. *Structures.* The ring buffer is first in, first out over a run of calls exactly when no put
   overfills it (`RingBuffer.PerformAll`); list operations are the operations on sequences; pool
   items are disjoint and never lost.
6. *Reports.* A report descriptor is accepted exactly when it is the bytes of items that go through
   and leave nothing open; a pop restores the state of its push; collections form a forest. What each
   item does is stated in numbers (`HidMeaning`), and the usage table between two main items is what
   a reader of the items alone would write down (`HidMeaning.UsagesRead`).
7. *Control transfers and devices.* With a host that waits and a driver that accepts each start, a run
   keeps to SETUP, DATA, STATUS exactly when no request handler halts endpoint 0
   (`EndpointZero.RunSeen`), with data transfers of exactly the bytes supplied; and all that is seen of
   such a run is what a reference of phases and owed callbacks says (`EndpointZero.RunFollows`). References add up, a
   release comes once, with the last reference, no address is given to two devices, and a device is
   attached with one exactly when a SET_ADDRESS request went through (`HostDevices.Host.Connect`).

Several properties one would expect turned out not to hold of the code. Each has a lemma that shows
it and, where one can be stated, the exact condition under which the code meets the property:

- Automatic endpoint numbers are fresh exactly when the numbers below the lowest unused one stand in
  ascending order in the pipe list (`UsbdRuns.AutoNumFresh`, `UsbdRuns.AutoNumTaken`).
- `usbd_dev_func_assoc_add` can report success without an association
  (`UsbdRuns.SuccessWithoutAssociation`); all interfaces are added exactly when enough string indices
  are left (`UsbdRuns.AllOrNot`).
- WRITE chunks are not clipped: all calls lie inside the unit exactly when the blocks do or a chunk
  stops at the end (`ScsiDevice.CallsInside`, `ScsiDevice.CallOutside`).
- A READ lowers the residue by blocks it never sends exactly when a call of the read callback delivers
  some of the blocks but not all (`ScsiDevice.Ms.Process`, with a command run from wrapper to status
  in `ScsiHost.HalfRead`).
- The 32-bit counter of a WRITE starts again at block 0, so that its calls do not follow one another,
  exactly when the first chunk boundary past the end of the unit does not fit 32 bits, is reached, and
  stands for a block of the unit (`ScsiDevice.CallsStraight`, `ScsiDevice.CallTurns`).
- A READ inside the unit gets no status at all exactly when it asks for zero blocks (`ScsiHost.EmptyRead`).
- READ CAPACITY sends the number of blocks where the host expects the last block
  (`ScsiHost.CapacityReadBack`), and the host never compares the tag of a status
  (`ScsiHost.AnyStatusAccepted`).
- The host asks MODE SENSE for page 1Ch, which the device refuses for every unit, so that the mark of
  write protection never comes across (`ScsiSession.HostUnit.ModeSense`); it would for the caching page
  or all pages (`ScsiReplies.ProtectionSeen`).
- A SET_ADDRESS request that goes through takes an address for good even when the rest of the
  enumeration fails and the device is tried again (`HostDevices.OutcomeExactly`).
- The host's 16-bit count and 32-bit length lose information exactly outside `ScsiHost.Fits`
  (`ScsiHost.ReadDecoded`, `ScsiHost.WriteDecoded`).
- A ring put that overfills the stretch before the read position stores one byte too many and empties
  the buffer (`RingBuffer.Ring.Put`, `RingBuffer.NotTame`); bytes get lost exactly in runs with such a
  put (`RingBuffer.PerformAll`).
- After calls that announce class-specific bytes without giving them, or that give 65536 and more, the
  total length is wrong (`UsbdRuns.BareSize`, `UsbdRuns.LongSpec`): it is exact exactly when the
  recount is below 65536 and the bytes announced and not given come to a multiple of 65536. A failed
  call leaves the number of functions raised (`UsbdRuns.CountedOnly`): it is exact exactly when such
  calls are a multiple of 256; and an endpoint count is exact exactly for at most 255 pipes
  (`UsbdConfig.CountersExactly`).
- An interface lands in the function of another number exactly when it arrives while an entry before
  its own has a multiple of 256 interfaces, as the count has eight bits (`FunctionGroups.PlaceAllGroups`,
  with a conforming descriptor in `FunctionGroups.Crowded`), which also leaves a function empty. Of a
  conforming descriptor an interface can be lost (`FunctionGroups.Homeless`), exactly when some scan
  for a place fails (`FunctionGroups.NothingLost`), and a function is empty exactly when the scans do
  not use every entry (`FunctionGroups.ConformingPartition`).
- A range of usages is expanded exactly when the table has room for it and it ends before the last
  usage there is, as its counter has 32 bits (`HidFacts.RangeExactly`, `HidFacts.LastUsage`).
- A device is attached with address 0 exactly when its port stays connected through four failed
  attempts and no SET_ADDRESS request goes through, as the port check overwrites the error
  (`HostDevices.NoAddressExactly`, with two such devices in `HostDevices.Host.AttachSilent`).
- SET_FEATURE(ENDPOINT_HALT) for endpoint 0 marks it as halted for good: the request's own status
  stage and every later transfer in that direction are refused (`EndpointZero.HaltsItself`). A
  transfer is as specified and leaves the endpoint idle exactly when its handler halts neither
  direction (`EndpointZero.DataTransfer`, `EndpointZero.EmptyTransfer`).
- A control transfer leaves a callback behind exactly when its handler registers one and then rejects
  the request or halts a direction (`EndpointZero.NothingLeft`); after a rejection a later transfer
  calls it (`EndpointZero.StaleCallback`). A start the driver refuses blocks its direction
  (`EndpointZero.RefusedStart`).
- The address 128, which does not fit seven bits, is handed out exactly when 1 to 127 are taken
  (`HostDevices.AddressFitsSevenBits`).

Comments in the code promise that `usb_hc_dev_addr_alloc` returns USB_OK on success; without an
operating system its result is then not set. The same holds for `usbd_dev_pipe_del`. Both are modelled
as returning 0.

## Model

| member | source | states |
|---|---|---|
| Descriptors.RunIsMaximal | core/source/host/core/usbh_dev_enum.c:27-58 | the search for the next descriptor of given types takes the maximal run of whole descriptors of other types |
| Descriptors.RunOver | core/source/host/core/usbh_dev_enum.c:27-58 | over bytes without the stop types, the search stops exactly at the first stop after them |
| ConfigWalk.NextDescGet | core/source/host/core/usbh_dev_enum.c:27-58 | returns the length of that run in the buffer |
| ConfigWalk.EpInit | core/source/host/core/usbh_dev_enum.c:208-258 | one endpoint with its extra bytes; rejected exactly when too short or numbered 0 |
| ConfigWalk.EpsParse | core/source/host/core/usbh_dev_enum.c:301-364 | the endpoint loop keeps at most the announced number and equals the recursive walk |
| ConfigWalk.IntfParse | core/source/host/core/usbh_dev_enum.c:274-365 | one interface: its extra bytes, its endpoints, and its endpoint count corrected in the buffer |
| ConfigWalk.IntfInit | core/source/host/core/usbh_dev_enum.c:370-402 | an interface that is too short is rejected, any other parsed |
| ConfigParser.EpsCover | core/source/host/core/usbh_dev_enum.c:301-364 | the endpoints kept, their extra bytes and the rest are the bytes walked over |
| ConfigParser.ItemsCover | core/source/host/core/usbh_dev_enum.c:473-504 | a successful parse accounts for every byte, in order |
| ConfigParser.ItemsGood | core/source/host/core/usbh_dev_enum.c:243-257 | every extra region holds no interface, endpoint or association descriptor, and every endpoint is numbered |
| ConfigParser.PatchedAssocs | core/source/host/core/usbh_dev_enum.c:533-582 | correcting the endpoint counts does not change which associations the second pass meets |
| ConfigGrammar.ItemsTaken | core/source/host/core/usbh_dev_enum.c:473-504 | every legal list of items is read back from its bytes: endpoints of seven bytes and more, numbered, at most 32 and no more than announced, with class-specific descriptors |
| ConfigGrammar.ItemsLegal | core/source/host/core/usbh_dev_enum.c:208-402 | whatever is read is legal |
| ConfigGrammar.ParsedExactly | core/source/host/core/usbh_dev_enum.c:473-504 | bytes are parsed as these items exactly when the items are legal and the bytes are theirs; parsing fails exactly when there are no such items |
| CfgParse.CollectInterfaces | core/source/host/core/usbh_dev_enum.c:473-504 | the first pass collects the interfaces in order and sums the association counts in eight bits; it fails exactly when the walk does |
| CfgParse.RegisterEndpoints | core/source/host/core/usbh_dev_enum.c:506-519 | the endpoint tables hold, per number and direction, the last endpoint of a setting 0, and nothing else changes |
| CfgParse.EntryIs | core/source/host/core/usbh_dev_enum.c:506-519 | by the address byte: the endpoint registered last for its direction and number stands in the table of its direction at its number |
| CfgParse.EntryIsOld | core/source/host/core/usbh_dev_enum.c:506-519 | an entry for which there is no endpoint is as before |
| CfgParse.MoveInRange | core/source/host/core/usbh_dev_enum.c:564-577 | one association takes exactly the interfaces in its range, in order, and leaves the others |
| CfgParse.PlaceInterface | core/source/host/core/usbh_dev_enum.c:583-612 | a left-over interface goes to the entry with its number, else opens the first free one, else finds no place |
| CfgParse.ClaimAssocs | core/source/host/core/usbh_dev_enum.c:533-582 | the associations, in order, fill the first entries while there is room |
| CfgParse.PlaceLeft | core/source/host/core/usbh_dev_enum.c:583-612 | all left-over interfaces are placed one after the other |
| CfgParse.GroupInterfaces | core/source/host/core/usbh_dev_enum.c:521-612 | the whole table equals the functions of FunctionGroups |
| CfgParse.UsbDevice.CfgParse | core/source/host/core/usbh_dev_enum.c:438-615 | fails exactly when some interface or endpoint is illegal, otherwise sets up extras, endpoint tables, buffer and functions for everything that was sent |
| FunctionGroups.PlaceAllGroups | core/source/host/core/usbh_dev_enum.c:583-612 | placing the left-over interfaces groups them by number, in order of first appearance, exactly when none arrives while an entry before its place has a multiple of 256 |
| FunctionGroups.PlaceFewGroups | core/source/host/core/usbh_dev_enum.c:583-612 | with at most 255 interfaces of each number every entry also has the class codes of its first interface |
| FunctionGroups.FewSteady | core/source/host/core/usbh_dev_enum.c:583-612 | with at most 255 interfaces of each number no interface is misplaced |
| FunctionGroups.OwnedPartition | core/source/host/core/usbh_dev_enum.c:521-612 | no number is owned twice; each function holds exactly the interfaces of the numbers it owns, in order, exactly when no left-over interface is misplaced by an eight-bit count, and then each interface lies in exactly one function exactly when there is an entry for each left-over number; in every case all interfaces are held exactly when no scan for a place fails |
| FunctionGroups.NothingLost | core/source/host/core/usbh_dev_enum.c:521-612 | the functions together hold all interfaces exactly when no scan for a place fails, and never more |
| FunctionGroups.FunctionsCoded | core/source/host/core/usbh_dev_enum.c:583-612 | a function that is no association is empty or has the number and class codes, byte by byte, of one of its interfaces |
| FunctionGroups.PlaceAllSeats | core/source/host/core/usbh_dev_enum.c:583-612 | whether a scan fails, and which entries end up used, depends on the interface numbers only |
| FunctionGroups.ConformingSize | core/source/host/core/usbh_dev_enum.c:521-531 | for a conforming descriptor the table has exactly one entry per association and per other number |
| FunctionGroups.ConformingPartition | core/source/host/core/usbh_dev_enum.c:521-612 | association j becomes function j with exactly the interfaces of its range; every other function owns one number; the functions hold exactly what they own exactly when no interface is misplaced by an eight-bit count, and then each interface lies in exactly one function and none is empty; in every case all are held exactly when no scan fails, and none is empty exactly when the scans use every entry |
| FunctionGroups.ConformingFew | core/source/host/core/usbh_dev_enum.c:521-612 | it is so with at most 255 interfaces for each number outside the associations |
| FunctionGroups.Crowded | core/source/host/core/usbh_dev_enum.c:589-594 | 256 interfaces of one number and one of another conform, and all end up in one function |
| FunctionGroups.Homeless | core/source/host/core/usbh_dev_enum.c:583-612 | a conforming descriptor of 259 interfaces of which one is lost although each number has an entry |
| UsbdConfig.StepAgrees | core/source/device/core/usbd_dev.c:95-182 | every call, successful or not, moves total length and function count as it moves the recount, and by its excess on top: bytes announced and not given, and interfaces counted and dropped |
| UsbdConfig.RunAgrees | core/source/device/core/usbd_dev.c:449-847 | after any run of calls the counters are, modulo their width, those of a recount and the excess of the calls |
| UsbdConfig.CountersExactly | core/source/device/core/usbd_dev.c:449-847 | after any run of calls on an empty configuration: the total length is exact exactly when the recount is below 65536 and the bytes announced and not given are a multiple of 65536; the function count exactly when the dropped interfaces are a multiple of 256; an endpoint count exactly for at most 255 pipes; the interface count always |
| UsbdConfig.AddFuncAgrees | core/source/device/core/usbd_dev.c:95-182 | adding an interface, with or without its association, moves the counters as the recount and by its excess |
| UsbdConfig.PipeAddAgrees | core/source/device/core/usbd_dev.c:538-555 | adding a pipe moves the counters as the recount |
| UsbdConfig.PipeDelAgrees | core/source/device/core/usbd_dev.c:640-676 | removing any pipe moves the counters as the recount |
| UsbdBuilder.StrTable.Alloc | core/source/device/core/usbd_dev.c:56-67 | the lowest free string index from 1 to 31, or none |
| UsbdBuilder.StrTable.Free | core/source/device/core/usbd_dev.c:72-77 | gives an index back, and ignores those above 31 |
| UsbdBuilder.Config.constructor | core/source/device/core/usbd_dev.c:977-990 | an empty configuration of nine bytes |
| UsbdBuilder.Config.FuncInit | core/source/device/core/usbd_dev.c:95-182 | carries out UsbdConfig.AddFunc in place; UsbdIntent.AddFuncExactly says in fields and numbers what that is |
| UsbdBuilder.Config.AssocCreate | core/source/device/core/usbd_dev.c:262-317 | carries out UsbdConfig.AddAssoc, giving the string index back when the interface fails |
| UsbdBuilder.Config.FuncAdd | core/source/device/core/usbd_dev.c:700-744 | one normal interface; UsbdIntent.RunStores says that it is kept with its fields |
| UsbdBuilder.Config.FuncAssocAdd | core/source/device/core/usbd_dev.c:772-847 | the checks and then every interface, the last result staying |
| UsbdBuilder.Config.AddPipe | core/source/device/core/usbd_dev.c:449-589 | a pipe at the end of the list, a clash, or the same pipe again without effect |
| UsbdBuilder.Config.DelPipe | core/source/device/core/usbd_dev.c:603-687 | the first pipe with the address and interface is removed |
| UsbdBuilder.WalkPipes | core/source/device/core/usbd_dev.c:485-502 | the number to ask for, and the first pipe that has the requested address |
| UsbdBuilder.WalkOwn | core/source/device/core/usbd_dev.c:640-650 | the first pipe with the address that belongs to the interface |
| UsbdRuns.AllOrNot | core/source/device/core/usbd_dev.c:820-838 | all interfaces of an association are stored, each with the number, setting, class codes and class-specific bytes asked for, exactly when string indices last, and then nothing else changes |
| UsbdRuns.SuccessWithoutAssociation | core/source/device/core/usbd_dev.c:820-838 | with one index left the association is lost and success reported |
| UsbdRuns.AssocAddSound | core/source/device/core/usbd_dev.c:772-847 | a proper association call stores all its interfaces and keeps every association whole |
| UsbdRuns.ProperRunSound | core/source/device/core/usbd_dev.c:449-847 | after any run of proper calls the counters are those of a recount modulo their width, with no excess, and associations are whole |
| UsbdRuns.ProperRunExactly | core/source/device/core/usbd_dev.c:449-847 | after a run of proper calls the total length is exact exactly when the recount is below 65536; interface and function counts are exact |
| UsbdRuns.BareSize | core/source/device/core/usbd_dev.c:130-170 | a size of nine given without bytes: success, total length 27, and 18 bytes to write |
| UsbdRuns.LongSpec | core/source/device/core/usbd_dev.c:168-170 | 65536 bytes given as announced: total length 18, and 65554 bytes to write |
| UsbdRuns.CountedOnly | core/source/device/core/usbd_dev.c:110-181 | without a free string index an interface is counted and dropped |
| UsbdRuns.AutoNumFresh | core/source/device/core/usbd_dev.c:485-502 | the automatic number is unused exactly when the numbers below the lowest unused one are in ascending list order |
| UsbdRuns.AutoNumTaken | core/source/device/core/usbd_dev.c:485-502 | with pipes 2 and 1 in this order the automatic number is 2 again |
| UsbdIntent.AddFuncRefused | core/source/device/core/usbd_dev.c:95-182 | an interface that is turned away, by every way that can happen, with the code and what is counted nevertheless |
| UsbdIntent.AddFuncExactly | core/source/device/core/usbd_dev.c:95-182 | an interface that is taken: every field of what is stored, the string index, and every counter |
| UsbdIntent.AddAssocExactly | core/source/device/core/usbd_dev.c:262-317 | the first interface of an association: the association takes the lowest unused string index, the interface the next one, 17 bytes and the class-specific ones are counted |
| UsbdIntent.AddAssocRefused | core/source/device/core/usbd_dev.c:262-317 | without an index for the association nothing happens; without one for the interface it is counted, and the index of the association is given back |
| UsbdIntent.AssocAddExactly | core/source/device/core/usbd_dev.c:772-838 | no gap before the association, and none of its interfaces there already, or nothing happens |
| UsbdIntent.PipeAddExactly | core/source/device/core/usbd_dev.c:449-589 | one pipe, by every way the call can end: the address wanted, the codes, and every field of what is stored and counted |
| UsbdIntent.GrantableExactly | core/source/device/core/usbd_dev.c:485-522 | the address the controller is asked for: direction and low four bits of the number given, or of the number found in the list |
| UsbdIntent.PipeDelNothing | core/source/device/core/usbd_dev.c:603-650 | no interface, or no pipe of it that has the address: nothing happens |
| UsbdIntent.PipeDelExactly | core/source/device/core/usbd_dev.c:640-676 | the first pipe of the interface that has the address goes, the others stay in order, and one endpoint and nine bytes are taken off |
| UsbdIntent.RunStores | core/source/device/core/usbd_dev.c:449-847 | over any run of proper calls every interface, association and pipe there is was asked for by a call, with the fields of that call, and every interface and association asked for is there and kept |
| UsbdDescriptor.SerializeLength | core/source/device/core/usbd_dev.c:1592-1721 | the bytes written are as many as the recount says |
| UsbdDescriptor.EpsFit | core/source/device/core/usbd_dev.c:1614-1631 | the pipes of an interface are written exactly when they all fit |
| UsbdDescriptor.IntfFits | core/source/device/core/usbd_dev.c:1592-1636 | what happens to an interface in a given room: complete, without its class-specific bytes, or too small |
| UsbdDescriptor.MakeFits | core/source/device/core/usbd_dev.c:1673-1721 | a buffer as long as the recount takes everything |
| UsbdDescriptor.IntfDescFill | core/source/device/core/usbd_dev.c:1592-1636 | writes exactly that at the position given and leaves what is before it |
| UsbdDescriptor.CfgDescMake | core/source/device/core/usbd_dev.c:1673-1721 | writes the configuration, or reports that the buffer is too small |
| RoundTrip.EpsRead | core/source/host/core/usbh_dev_enum.c:301-364 | the host's endpoint loop reads back the written pipes in list order and stops behind them |
| RoundTrip.HdrRead | core/source/host/core/usbh_dev_enum.c:473-504 | one written interface, with its association, is read back as such |
| RoundTrip.SerializeRead | core/source/host/core/usbh_dev_enum.c:473-504 | the walk over everything written finds the configuration descriptor and then what the device holds |
| RoundTrip.FieldsBack | core/source/device/core/usbd_dev.c:1592-1721 | every field of the three descriptors is recovered from its bytes |
| RoundTrip.BytesExactly | core/source/device/core/usbd_dev.c:977-984 | the configuration, interface, association and endpoint descriptors, byte by byte |
| RoundTrip.RoundTrips | core/source/device/core/usbd_dev.c:1592-1721 | the host recovers the interfaces, class-specific bytes, pipes and associations |
| RoundTripGroups.ConformingCfg | core/source/device/core/usbd_dev.c:772-847 | what a device with whole associations writes is a conforming descriptor |
| RoundTripGroups.GroupsRecovered | core/source/host/core/usbh_dev_enum.c:521-612 | the host's functions are the device's associations, in order, with their class codes, and then one function per other interface; each interface lies in exactly one, and none is empty |
| RoundTripGroups.HostAccepts | core/source/host/core/usbh_dev_enum.c:438-615 | what the device writes meets the parser's demands and is left unchanged |
| RoundTripGroups.RunReadBack | core/source/device/core/usbd_dev.c:449-847 | from the first proper call on the device: a buffer of the recounted size takes all, it reads back as what was built, and the host, asking for the announced length, gets and reads all of it exactly when it is below 65536 bytes |
| EndToEnd.Enumerated | core/source/host/core/usbh_dev_enum.c:617-690 | the device fills its buffer, the host asks for the announced length and parses it: success, with the functions, interfaces and pipes built; every interface and association a call asked for is seen with the fields of that call, and pipes of distinct addresses fill the endpoint tables, each at its direction and number, all other entries being as before |
| EndToEnd.SeenAll | core/source/host/core/usbh_dev_enum.c:438-615 | what the host has parsed holds every interface and association that a call on the device asked for, byte by byte |
| EndToEnd.TablesSeen | core/source/host/core/usbh_dev_enum.c:506-519 | pipe 80h + k is entry k of the IN table and pipe k of the OUT table, with its attributes, packet size and interval; the rest is as before |
| Utf8Spec.EncodeDecode | common/usb_common.c:114-206 | reference: decoding the shortest form of a scalar value gives it back |
| Utf8Spec.DecodeEncode | common/usb_common.c:114-206 | reference: every well-formed sequence is the encoding of its value |
| Transcode.Utf8ToUtf32 | common/usb_common.c:127-167 | accepts exactly the well-formed sequences, and yields value and length |
| Transcode.Utf32ToUtf8 | common/usb_common.c:172-206 | writes exactly the encoding of a scalar value that fits, and refuses everything else |
| Transcode.RowDecides | common/usb_common.c:114-167 | the first row of the table whose tests pass decides the sequence |
| TranscodeStrings.Utf16sToUtf8s | common/usb_common.c:218-271 | writes the greedy encoding of the units before the first NUL, within the limit and three bytes for each unit read; it stops early only when the output is full |
| TranscodeStrings.Utf8sToUtf16s | common/usb_common.c:282-315 | writes the units of the decoded text, within the limit |
| TranscodeStrings.AnyInputAnyLimit | common/usb_common.c:172-271 | any units, any limit: at most the limit, at most three bytes a unit even of the shortest part that yields the output, well formed, an in-order selection of the characters, none split |
| TranscodeStrings.RoundTrip16 | common/usb_common.c:218-315 | UTF-16 to UTF-8 and back is the identity exactly for well-formed text without NUL, given room |
| TranscodeStrings.RoundTrip8 | common/usb_common.c:218-315 | text that is well-formed up to its first NUL comes back from UTF-16 exactly when it holds no NUL and fits the output |
| TranscodeStrings.KnownChars | common/usb_common.c:172-206 | characters of one to four bytes, from both sides of each limit |
| TranscodeStrings.KnownText | common/usb_common.c:218-271 | the text of section 7 of RFC 3629 with a surrogate pair, ended by a NUL |
| TranscodeStrings.KnownGaps | common/usb_common.c:218-271 | a character too long for the room left is passed over for a shorter one behind it, and single surrogates are dropped |
| ByteOrder.StoreLoad | common/usb_common.c:384-451 | what is stored in either byte order is loaded again |
| ByteOrder.LoadStore | common/usb_common.c:384-451 | what is loaded is stored again as the same bytes |
| ByteOrder.Be32Store | common/usb_common.c:446-451 | four bytes in place, the others unchanged |
| ByteOrder.Le32Store | common/usb_common.c:433-438 | four bytes in place, the others unchanged |
| ByteOrder.Be16Store | common/usb_common.c:422-425 | two bytes in place, the others unchanged |
| ScsiSpec.Fixed | core/source/device/class/ms/usbd_ms_scsi_bbb.c:821-849 | every command without blocks asks for no more than announced, fills at most 36 bytes, keeps the geometry and forgets the previous failure unless it fails |
| ScsiSpec.ReadStart | core/source/device/class/ms/usbd_ms_scsi_bbb.c:297-332 | a READ starts inside the unit with cleared sense data, or leaves a refused command without a reply |
| ScsiSpec.WriteStart | core/source/device/class/ms/usbd_ms_scsi_bbb.c:426-472 | the same for a WRITE, which when refused never gets a status |
| ScsiSpec.SenseReported | core/source/device/class/ms/usbd_ms_scsi_bbb.c:159-199 | REQUEST SENSE reports what was recorded, once |
| ScsiSpec.CswFields | core/source/device/class/ms/usbd_ms_scsi_bbb.c:1134-1152 | signature, tag, residue and status are where the host looks for them |
| ScsiSpec.WholeBlocks | core/source/device/class/ms/usbd_ms_scsi_bbb.c:407-421 | a block count whose length fits 32 bits is counted back exactly |
| ScsiBus.PutGet | core/source/device/class/ms/usbd_ms_scsi_bbb.c:475-517 | blocks written are read back, and all others are as before |
| ScsiBus.PutJoin | core/source/device/class/ms/usbd_ms_scsi_bbb.c:475-517 | writing in two pieces is writing once |
| ScsiBus.Bus.Write | core/source/device/class/ms/usbd_ms.c:558-576 | a transfer longer than the buffer is refused, any other takes a prefix of the buffer to the host |
| ScsiBus.Bus.Read | core/source/device/class/ms/usbd_ms.c:528-546 | likewise from the host into the buffer |
| ScsiBus.Lu.BlkRead | core/include/device/class/ms/usbd_ms.h:44-48 | the contract of the read callback: it delivers at most what was asked for, and the answer is recorded |
| ScsiBus.Lu.BlkWrite | core/include/device/class/ms/usbd_ms.h:49-53 | the contract of the write callback |
| ScsiDevice.Ms.CmdGet | core/source/device/class/ms/usbd_ms_scsi_bbb.c:55-109 | takes a wrapper exactly when it is valid, halts the pipes otherwise, and selects the unit named |
| ScsiDevice.Ms.CmdCheck | core/source/device/class/ms/usbd_ms_scsi_bbb.c:114-144 | the checks common to all commands |
| ScsiDevice.Ms.UnitReady | core/source/device/class/ms/usbd_ms_scsi_bbb.c:149-157 | a command without data: the previous failure is forgotten, nothing is sent |
| ScsiDevice.Ms.RequestSense | core/source/device/class/ms/usbd_ms_scsi_bbb.c:159-199 | 18 bytes of sense data, of what was recorded before; the record is cleared |
| ScsiDevice.Ms.Inquiry | core/source/device/class/ms/usbd_ms_scsi_bbb.c:204-231 | 36 bytes with the device type and the removable bit of the unit |
| ScsiDevice.Ms.FormatCapacities | core/source/device/class/ms/usbd_ms_scsi_bbb.c:236-258 | 12 bytes with the number of blocks and the block size, whose top byte becomes the descriptor type |
| ScsiDevice.Ms.Capacity | core/source/device/class/ms/usbd_ms_scsi_bbb.c:263-292 | 8 bytes with the number of blocks and the block size; refused when an address comes without the partial-medium bit; ScsiReplies.CapacitySeen says that they are sent |
| ScsiDevice.Ms.PreventAllow | core/source/device/class/ms/usbd_ms_scsi_bbb.c:557-585 | locks or releases a removable unit; refused for other units and reserved bits |
| ScsiDevice.Ms.ModePages | core/source/device/class/ms/usbd_ms_scsi_bbb.c:587-668 | header with the write protection and the caching page, all zero when changeable values are asked for; saved values, other pages and reserved bits are refused |
| ScsiDevice.Ms.ModeSense6 | core/source/device/class/ms/usbd_ms_scsi_bbb.c:670-678 | the same behind the checks of a six-byte command |
| ScsiDevice.Ms.ModeSense10 | core/source/device/class/ms/usbd_ms_scsi_bbb.c:680-688 | the same behind the checks of a ten-byte command |
| ScsiDevice.Ms.StartStop | core/source/device/class/ms/usbd_ms_scsi_bbb.c:690-726 | accepted by removable units only, and without reserved bits |
| ScsiDevice.Ms.StoreCdromAddr | core/source/device/class/ms/usbd_ms_scsi_bbb.c:538-555 | minutes, seconds and frames, or the block number |
| ScsiDevice.Ms.Toc | core/source/device/class/ms/usbd_ms_scsi_bbb.c:728-763 | 20 bytes with first track and lead-out in the form of address asked for; without a status for a writable unit |
| ScsiDevice.Ms.Synchronize | core/source/device/class/ms/usbd_ms_scsi_bbb.c:765-775 | a command without data: the previous failure is forgotten, nothing is sent |
| ScsiDevice.Ms.Header | core/source/device/class/ms/usbd_ms_scsi_bbb.c:777-805 | 8 bytes with the address of a block inside the unit in the form asked for; refused for blocks outside |
| ScsiDevice.Ms.Unknown | core/source/device/class/ms/usbd_ms_scsi_bbb.c:807-818 | refused as an invalid command, whatever its length |
| ScsiDevice.Ms.Handle | core/source/device/class/ms/usbd_ms_scsi_bbb.c:821-849 | the table sends every command without blocks to its handler |
| ScsiDevice.Ms.ReadChunk | core/source/device/class/ms/usbd_ms_scsi_bbb.c:348-377 | one chunk: the residue falls by what was read; a short read records the failure, a full one is sent |
| ScsiDevice.Ms.ReadChunks | core/source/device/class/ms/usbd_ms_scsi_bbb.c:334-383 | passes only having sent exactly the blocks asked for; off the end, exactly those up to the end, the first missing block recorded; every transfer fits the buffer; what the callback was asked and delivered, call by call, and that the blocks read but not sent are those of its short answer |
| ScsiDevice.Ms.Read | core/source/device/class/ms/usbd_ms_scsi_bbb.c:297-383 | the READ after the checks: refused, or run |
| ScsiDevice.Ms.Read6 | core/source/device/class/ms/usbd_ms_scsi_bbb.c:388-402 | READ(6), where count 0 means 256 |
| ScsiDevice.Ms.Read10 | core/source/device/class/ms/usbd_ms_scsi_bbb.c:407-421 | READ(10), its length wrapped to 32 bits |
| ScsiDevice.Ms.WriteChunk | core/source/device/class/ms/usbd_ms_scsi_bbb.c:487-513 | one chunk from the host to the medium, with every error exit |
| ScsiDevice.Ms.WriteChunks | core/source/device/class/ms/usbd_ms_scsi_bbb.c:470-517 | succeeds only with each call having written its part of the data received, exactly the blocks asked for unless the 32-bit counter starts again; the calls made are the chunks, in order |
| ScsiDevice.Ms.Write | core/source/device/class/ms/usbd_ms_scsi_bbb.c:426-517 | the WRITE after the checks: refused, or run |
| ScsiDevice.Ms.Write10 | core/source/device/class/ms/usbd_ms_scsi_bbb.c:522-536 | WRITE(10), its length wrapped to 32 bits |
| ScsiDevice.CallsInside | core/source/device/class/ms/usbd_ms_scsi_bbb.c:475-498 | every write call lies inside the unit exactly when the blocks do or a chunk stops at the end |
| ScsiDevice.Ms.DataStage | core/source/device/class/ms/usbd_ms_scsi_bbb.c:1106-1124 | the reply goes out cut to both lengths and the residue falls by it, or the host is told to stop |
| ScsiDevice.Ms.Exec | core/source/device/class/ms/usbd_ms_scsi_bbb.c:1080-1127 | success means the command was carried out as specified; with dependable surroundings a READ or WRITE inside the unit passes |
| ScsiDevice.Ms.CmdSta | core/source/device/class/ms/usbd_ms_scsi_bbb.c:1134-1152 | one status wrapper for the command |
| ScsiDevice.Conserved | core/source/device/class/ms/usbd_ms_scsi_bbb.c:1080-1152 | over every command carried out: tag kept, status PASS or FAIL; residue, bytes moved and blocks read but not sent make up the announced length |
| ScsiBus.LostNone | core/source/device/class/ms/usbd_ms_scsi_bbb.c:354-365 | no block is read without being sent exactly when every call gave all or nothing |
| ScsiDevice.CallOutside | core/source/device/class/ms/usbd_ms_scsi_bbb.c:475-498 | a chunk of two blocks at the last block of a unit goes past its end |
| ScsiDevice.CallsStraight | core/source/device/class/ms/usbd_ms_scsi_bbb.c:470-511 | the write calls follow one another exactly when the 32-bit counter does not start again inside the unit |
| ScsiDevice.CallTurns | core/source/device/class/ms/usbd_ms_scsi_bbb.c:470-511 | at the largest block numbers the chunk after one past the end is written at block 0 |
| ScsiDevice.Ms.Process | core/source/device/class/ms/usbd_ms_scsi_bbb.c:1196-1241 | one command from wrapper to status; no phase error is ever reported; a READ that starts is reported when the pipes work; the residue is right exactly when each call of the read callback gave all or nothing, and short by what it gave otherwise |
| ScsiReplies.UnitReadySeen | core/source/device/class/ms/usbd_ms_scsi_bbb.c:149-157 | TEST UNIT READY passes without data, and the failure recorded is forgotten |
| ScsiReplies.SenseSeen | core/source/device/class/ms/usbd_ms_scsi_bbb.c:159-199 | REQUEST SENSE passes; the host gets as much as it asked for of 18 bytes, given one by one, and the record is cleared |
| ScsiReplies.InquirySeen | core/source/device/class/ms/usbd_ms_scsi_bbb.c:204-231 | INQUIRY passes; the host gets as much as it asked for of 36 bytes, with the device type and the removable bit |
| ScsiReplies.FormatCapacitiesSeen | core/source/device/class/ms/usbd_ms_scsi_bbb.c:236-258 | READ FORMAT CAPACITIES passes; 12 bytes with the number of blocks, a 2, and three bytes of the block size |
| ScsiReplies.CapacitySeen | core/source/device/class/ms/usbd_ms_scsi_bbb.c:263-292 | READ CAPACITY sends eight bytes, number of blocks and block size, or is refused as an invalid field; it needs eight bytes announced, towards the host |
| ScsiReplies.PreventAllowSeen | core/source/device/class/ms/usbd_ms_scsi_bbb.c:557-585 | PREVENT ALLOW locks or releases the unit, or is refused with code 052000h or 052400h |
| ScsiReplies.ModeSense6Seen | core/source/device/class/ms/usbd_ms_scsi_bbb.c:670-678 | MODE SENSE(6) sends as much as asked for of 16 bytes, header and caching page, or is refused with the code of the fault |
| ScsiReplies.ModeSense10Seen | core/source/device/class/ms/usbd_ms_scsi_bbb.c:680-688 | MODE SENSE(10) likewise of 20 bytes |
| ScsiReplies.ProtectionSeen | core/source/device/class/ms/usbd_ms_scsi_bbb.c:587-678 | MODE SENSE(6) announced and asked for with 16 bytes passes with nothing left over, and the high bit of the third byte is the write protection |
| ScsiReplies.StartStopSeen | core/source/device/class/ms/usbd_ms_scsi_bbb.c:690-726 | START STOP passes for removable units without reserved bits, and is refused otherwise |
| ScsiReplies.TocSeen | core/source/device/class/ms/usbd_ms_scsi_bbb.c:728-763 | READ TOC, for read-only units: as much as asked for of 20 bytes, in blocks or in minutes, seconds and frames |
| ScsiReplies.SynchronizeSeen | core/source/device/class/ms/usbd_ms_scsi_bbb.c:765-775 | SYNCHRONIZE CACHE passes without data |
| ScsiReplies.HeaderSeen | core/source/device/class/ms/usbd_ms_scsi_bbb.c:777-805 | READ HEADER: the address of a block inside the unit, or code 052100h for one outside |
| ScsiReplies.UnknownSeen | core/source/device/class/ms/usbd_ms_scsi_bbb.c:807-818 | every other command without blocks is refused with code 052000h |
| ScsiReplies.AnswerableExactly | core/source/device/class/ms/usbd_ms_scsi_bbb.c:114-144 | which commands without blocks get a status, by length of the block, length announced and direction |
| ScsiReplies.TakeExactly | core/source/device/class/ms/usbd_ms_scsi_bbb.c:55-109 | what is taken over from a wrapper, byte by byte, and which wrappers are refused with which code |
| ScsiReplies.CswExactly | core/source/device/class/ms/usbd_ms_scsi_bbb.c:1134-1152 | the status on the wire |
| ScsiReplies.Read6Exactly | core/source/device/class/ms/usbd_ms_scsi_bbb.c:388-402 | READ(6): 21 bits of block number, a count of 0 for 256, and every way it can end before it starts |
| ScsiReplies.Read10Exactly | core/source/device/class/ms/usbd_ms_scsi_bbb.c:407-421 | READ(10): block number and count, and every way it can end before it starts |
| ScsiReplies.Write10Exactly | core/source/device/class/ms/usbd_ms_scsi_bbb.c:426-472 | WRITE(10): likewise |
| ScsiHost.CdbFill | core/source/host/class/ms/usbh_ms_scsi_drv.c:161-210 | the ten bytes of READ(10) and WRITE(10) |
| ScsiHost.CbwFill | core/source/host/class/ms/usbh_ms_drv.c:436-446 | the 31 bytes of the command wrapper |
| ScsiHost.CbwExactly | core/source/host/class/ms/usbh_ms_drv.c:436-445 | the wrapper on the wire, byte by byte |
| ScsiHost.CdbExactly | core/source/host/class/ms/usbh_ms_scsi_drv.c:157-207 | READ(10) and WRITE(10) on the wire: block and count high byte first |
| ScsiHost.WrapperTaken | core/source/device/class/ms/usbd_ms_scsi_bbb.c:69-100 | the device takes every wrapper of the host, field by field |
| ScsiHost.ReadDecoded | core/source/host/class/ms/usbh_ms_scsi_drv.c:161-185 | a READ of the host starts at the same block for the same count exactly when count and length fit |
| ScsiHost.WriteDecoded | core/source/host/class/ms/usbh_ms_scsi_drv.c:187-210 | the same for a WRITE |
| ScsiHost.EmptyRead | core/source/device/class/ms/usbd_ms_scsi_bbb.c:324-326 | a READ inside the unit is refused without a status exactly when it asks for no blocks |
| ScsiHost.HalfRead | core/source/device/class/ms/usbd_ms_scsi_bbb.c:354-365 | a READ of two blocks, run from wrapper to status with a callback that gives one of them: nothing is sent and the residue reported is one byte short |
| ScsiHost.WriteThenRead | core/source/device/class/ms/usbd_ms_scsi_bbb.c:297-536 | a passed write changes exactly its blocks to the data, and a passed read of them returns it |
| ScsiHost.RunOffReported | core/source/device/class/ms/usbd_ms_scsi_bbb.c:334-346 | a READ off the end sends the blocks up to the end, and REQUEST SENSE then names the first missing one |
| ScsiHost.CapacityReadBack | core/source/host/class/ms/usbh_ms_scsi_drv.c:93-123 | READ CAPACITY, carried out, passes and sends eight bytes: the block size comes across, the number of blocks never does |
| ScsiHost.AnyStatusAccepted | core/source/host/class/ms/usbh_ms_drv.c:574-576 | the host accepts a status exactly when it is PASS or FAIL, whatever its tag |
| ScsiHost.StatusExactly | core/source/host/class/ms/usbh_ms_drv.c:574-577 | the host accepts a status exactly when it starts with the signature and says PASS or FAIL |
| ScsiSession.HostUnit.Transport | core/source/host/class/ms/usbh_ms_drv.c:411-590 | a command without blocks, run from the wrapper of the host over the data to the status: the host gets what ScsiReplies says exactly when the device answers such a command |
| ScsiSession.HostUnit.Inquiry | core/source/host/class/ms/usbh_ms_scsi_drv.c:36-52 | the host gets as many bytes as it asked for of 36: device type, removable bit, and the rest |
| ScsiSession.HostUnit.UnitReady | core/source/host/class/ms/usbh_ms_scsi_drv.c:57-70 | PASS, nothing left over |
| ScsiSession.HostUnit.RequestSense | core/source/host/class/ms/usbh_ms_scsi_drv.c:72-88 | 18 bytes: key, qualifiers and block of the last failure, which is then forgotten |
| ScsiSession.HostUnit.ReadCapacity | core/source/host/class/ms/usbh_ms_scsi_drv.c:93-123 | the block size comes across, and one block more than there is |
| ScsiSession.HostUnit.ModeSense | core/source/host/class/ms/usbh_ms_scsi_drv.c:125-155 | the device refuses the page asked for: FAIL, 192 bytes left over, write protection as before |
| ScsiSession.HostUnit.ModeReply | core/source/host/class/ms/usbh_ms_scsi_drv.c:144-154 | what the host makes of a reply: write protection is the high bit of the third byte |
| ScsiSession.HostUnit.Init | core/source/host/class/ms/usbh_ms_scsi_drv.c:215-267 | the six commands, run against the device: success for every unit, five statuses PASS with nothing left over and the last FAIL, block size right, number of blocks one too large, write protection not known |
| RingBuffer.Ring.Put | core/source/usb_lib.c:180-241 | appends as much as fits, except for the overfilling case, which empties the buffer |
| RingBuffer.Ring.Get | core/source/usb_lib.c:253-306 | takes out the oldest bytes, as many as asked for and stored |
| RingBuffer.Fifo | core/source/usb_lib.c:180-306 | over any run of the specification, bytes taken out followed by bytes stored are the bytes put in |
| RingBuffer.Perform | core/source/usb_lib.c:180-306 | each call on a ring follows the run: what the ring accepted was put in, what it returned was taken out |
| RingBuffer.PerformAll | core/source/usb_lib.c:180-306 | over any calls on a ring, returned and stored bytes are those accepted, in order, exactly when no put overfills; they are then those of RingBuffer.Steps, call by call |
| RingBuffer.NotTame | core/source/usb_lib.c:194-199 | a run of four calls whose last put overfills |
| LinkedList.HeadInit | common/list/usb_list.h:47-50 | the empty list |
| LinkedList.IsEmpty | common/list/usb_list.h:70-72 | true exactly for the empty list |
| LinkedList.IsSingular | common/list/usb_list.h:81-83 | true exactly for a list of one |
| LinkedList.AddBetween | common/list/usb_list.h:88-95 | inserts at any place of the ring |
| LinkedList.Add | common/list/usb_list.h:103-106 | prepends |
| LinkedList.AddTail | common/list/usb_list.h:114-118 | appends |
| LinkedList.Bridge | common/list/usb_list.h:123-127 | takes any node out of the ring |
| LinkedList.Del | common/list/usb_list.h:134-139 | removes the node and unlinks it |
| LinkedList.Move | common/list/usb_list.h:147-151 | from one list to the front of another |
| LinkedList.MoveTail | common/list/usb_list.h:159-163 | from one list to the end of another |
| LinkedList.MoveFront | common/list/usb_list.h:147-151 | to the front of its own list |
| LinkedList.MoveBack | common/list/usb_list.h:159-163 | to the end of its own list |
| LinkedList.Splice | common/list/usb_list.h:168-179 | all nodes of one list between two neighbours of another |
| LinkedList.SpliceFront | common/list/usb_list.h:187-194 | concatenation in front |
| LinkedList.SpliceTail | common/list/usb_list.h:202-206 | concatenation behind |
| LinkedList.ForEach | common/list/usb_list.h:214-217 | every node once, in order |
| LinkedList.ForEachSafe | common/list/usb_list.h:226-229 | every original node once, in order, while nodes are deleted; the others stay |
| DeviceList.Lib.DevAdd | core/source/usb_lib.c:476-503 | registers at the end |
| DeviceList.Lib.DevDel | core/source/usb_lib.c:513-536 | removes a device; a cursor elsewhere stays good |
| DeviceList.Lib.TraverseReset | core/source/usb_lib.c:543-568 | back to the start |
| DeviceList.Lib.Traverse | core/source/usb_lib.c:578-620 | the next device, or the end |
| DeviceList.Lib.VisitAll | core/source/usb_lib.c:543-620 | a traversal after a reset yields every device once, in the order of registration |
| Pool.Pool.Init | common/pool/usb_pool.c:38-113 | fails exactly when not one item fits; otherwise carves as many as fit, all free |
| Pool.Carved | common/pool/usb_pool.c:66-112 | the items are aligned, inside the memory, pairwise disjoint |
| Pool.Sizes | common/pool/usb_pool.c:66-103 | the start goes up to the next multiple of four, the item size to the next multiple that is not zero, and what is left over is less than an item |
| Pool.Pool.Thread | common/pool/usb_pool.c:93-103 | the carving loop links all items in order |
| Pool.Pool.Get | common/pool/usb_pool.c:122-151 | hands out a free item, or nothing exactly when there is none, keeping the partition and the low-water mark |
| Pool.Pool.Return | common/pool/usb_pool.c:161-197 | takes a held item back, refuses an address outside |
| Pool.Pool.Scribble | common/pool/usb_pool.c:122-197 | what clients write into items they hold does not matter |
| HidSpec.FetchBack | core/source/host/class/hid/usbh_hid_report.c:45-109 | every item is fetched back from its bytes, whatever follows |
| HidSpec.FetchCovers | core/source/host/class/hid/usbh_hid_report.c:45-109 | a fetched item is well formed, and its bytes and the rest are exactly what was there, for a long one up to the low bits in front |
| HidParser.ItemFetch | core/source/host/class/hid/usbh_hid_report.c:45-109 | each fetch consumes at least one byte and stays in bounds |
| HidParser.Parser.UsageAdd | core/source/host/class/hid/usbh_hid_report.c:114-124 | one usage with its collection, unless the table is full |
| HidParser.Parser.Grow | core/source/host/class/hid/usbh_hid_report.c:166-181 | the table doubles and its entries stay |
| HidParser.Parser.CollectionOpen | core/source/host/class/hid/usbh_hid_report.c:157-196 | carries out HidSpec.Open |
| HidParser.Parser.CollectionClose | core/source/host/class/hid/usbh_hid_report.c:201-208 | carries out HidSpec.Close |
| HidParser.Parser.MainItem | core/source/host/class/hid/usbh_hid_report.c:400-431 | carries out HidSpec.Main and clears the local state in every case |
| HidParser.Parser.GlobalItemProcess | core/source/host/class/hid/usbh_hid_report.c:437-539 | carries out HidSpec.GlobalItem |
| HidParser.Parser.UsageRange | core/source/host/class/hid/usbh_hid_report.c:602-609 | adds a range in order up to the size of the table, with a counter of 32 bits |
| HidParser.Parser.LocalItemProcess | core/source/host/class/hid/usbh_hid_report.c:544-620 | carries out HidSpec.LocalItem; HidMeaning.UsageAdded, RangeOpened, RangeClosed and Delimited say in numbers what that is |
| HidParser.Parser.ReportParse | core/source/host/class/hid/usbh_hid_report.c:688-754 | returns what HidSpec.Parse says of the descriptor and leaves its state |
| HidFacts.MatchingPop | core/source/host/class/hid/usbh_hid_report.c:442-462 | a pop restores exactly the global state its push saved, whatever came between |
| HidFacts.StepKeeps | core/source/host/class/hid/usbh_hid_report.c:157-208 | every item keeps the levels a forest listed parents first, open collections enclosing what follows, and the bounds |
| HidFacts.RunKeeps | core/source/host/class/hid/usbh_hid_report.c:723-749 | over any run: the forest, depth equal to begins minus ends, and entries kept |
| HidFacts.UsagesExpand | core/source/host/class/hid/usbh_hid_report.c:573-612 | the usage table is the in-order expansion of usages and ranges, within its size; HidMeaning.UsagesRead says of which values |
| HidFacts.RangeExactly | core/source/host/class/hid/usbh_hid_report.c:596-612 | a range goes through exactly when it fits the table and ends before the last usage there is; else the table is full |
| HidFacts.LastUsage | core/source/host/class/hid/usbh_hid_report.c:602-612 | a range of two usages up to FFFFFFFFh fills the table with usages counted from zero and is refused |
| HidFacts.AcceptedIsItems | core/source/host/class/hid/usbh_hid_report.c:723-754 | an accepted descriptor is the bytes of short items that go through and leave nothing open |
| HidFacts.ItemsAreAccepted | core/source/host/class/hid/usbh_hid_report.c:723-754 | and every such sequence of items is accepted |
| HidFacts.AcceptedBalanced | core/source/host/class/hid/usbh_hid_report.c:735-744 | an accepted descriptor ends as many collections as it begins |
| HidMeaning.UsageAdded | core/source/host/class/hid/usbh_hid_report.c:573-582 | one usage: the page times 65536 and the data for up to two bytes, the data alone for four, with the innermost open collection; a full table refuses it |
| HidMeaning.RangeOpened | core/source/host/class/hid/usbh_hid_report.c:584-594 | the lower end of a range, completed in the same way |
| HidMeaning.RangeClosed | core/source/host/class/hid/usbh_hid_report.c:596-612 | the upper end: all numbers between the ends go into the table exactly when there is room and the end is not FFFFFFFFh |
| HidMeaning.Delimited | core/source/host/class/hid/usbh_hid_report.c:552-571 | delimiters do not nest, and are counted |
| HidMeaning.PassedOver | core/source/host/class/hid/usbh_hid_report.c:573-577 | usages after a second delimiter, and unknown local items, have no effect |
| HidMeaning.GlobalSet | core/source/host/class/hid/usbh_hid_report.c:464-533 | each global item sets one value, signed or unsigned as the item and the minimum say, and the bounds that make it fail |
| HidMeaning.GlobalStack | core/source/host/class/hid/usbh_hid_report.c:442-462 | push and pop on a stack of four, and unknown items |
| HidMeaning.CollectionBegun | core/source/host/class/hid/usbh_hid_report.c:157-196 | a collection: its type, its usage, its level, and the count of applications |
| HidMeaning.OtherMain | core/source/host/class/hid/usbh_hid_report.c:400-431 | the end of a collection and the fields; the local state is cleared in every case |
| HidMeaning.Reserved | core/source/host/class/hid/usbh_hid_report.c:625-629 | items of the fourth type have no effect |
| HidMeaning.UsagesRead | core/source/host/class/hid/usbh_hid_report.c:573-612 | after any run of items without a main one the usage table is what a reader of the items writes down who only keeps the page, the pages pushed, the lower end and the delimiters in mind |
| HidMeaning.UsagesOfPage | core/source/host/class/hid/usbh_hid_report.c:464-466 | the same for a run that starts with a Usage Page item: nothing but the items decides what is in the table |
| HidMeaning.Mouse | core/source/host/class/hid/usbh_hid_report.c:688-754 | the first items of a mouse, from bytes to collections |
| EndpointZero.Controller.Ep0Req | core/source/device/core/usbd_core.c:578-611 | sets the length and registers the callback with the other direction |
| EndpointZero.Controller.Trans | core/source/device/core/usbd_core.c:633-689 | starts a transfer unless one is under way or the endpoint is halted |
| EndpointZero.Controller.OnSetup | core/source/device/core/usbd_core.c:762-821 | carries out EndpointZero.SetupHandle, with what the handler sets, requests and halts; EndpointZero.RunSeen says how long the transfer is |
| EndpointZero.Controller.OnComplete | core/source/device/core/usbd_core.c:423-453 | carries out EndpointZero.Complete |
| EndpointZero.Controller.OnBusReset | core/source/device/core/usbd_core.c:887-899 | the pending status stage is forgotten |
| EndpointZero.MoveSeen | core/source/device/core/usbd_core.c:423-453 | from any state of a phase, each allowed move that halts nothing does what the phase says, with as many bytes as the handler supplies, and leads to the next phase |
| EndpointZero.RunSeen | core/source/device/core/usbd_core.c:762-821 | a run keeps to SETUP, one data transfer of exactly the bytes supplied (those of the request, else the length set), one empty transfer the other way, and to its phases, exactly when no handler halts endpoint 0 |
| EndpointZero.RunFollows | core/source/device/core/usbd_core.c:423-453 | all that is seen of such a run, callbacks included, is what a reference says that keeps only the phase and the callbacks owed |
| EndpointZero.TransExactly | core/source/device/core/usbd_core.c:633-689 | both directions, by every way a start can end |
| EndpointZero.CompleteExactly | core/source/device/core/usbd_core.c:423-440 | the end of a data stage clears both lengths and starts the status stage the other way |
| EndpointZero.CompleteOther | core/source/device/core/usbd_core.c:441-453 | any other end calls what is registered, once, if the transfer was empty |
| EndpointZero.FiresAtMostOnce | core/source/device/core/usbd_core.c:443-450 | over any run a callback is called at most as often as it was registered |
| EndpointZero.Tally | core/source/device/core/usbd_core.c:443-450 | what counts as a call of the callback |
| EndpointZero.TallyAsked | core/source/device/core/usbd_core.c:578-611 | what counts as its registration: a request with bytes to transfer |
| EndpointZero.DataTransfer | core/source/device/core/usbd_core.c:423-453 | a transfer with data is two transfers, then its own callback, then idle, exactly when its handler halts neither direction |
| EndpointZero.LengthTransfer | core/source/device/core/usbd_core.c:762-821 | the same for a handler that only sets a length: a transfer of that many bytes, then an empty one |
| EndpointZero.EmptyTransfer | core/source/device/core/usbd_core.c:762-821 | a request without data is a single empty IN and then idle exactly when its handler halts neither direction |
| EndpointZero.HaltsItself | core/source/device/core/usbd_dev.c:2190-2199 | SET_FEATURE(ENDPOINT_HALT) for endpoint 0 IN is accepted and starts nothing; later IN transfers and status stages are refused |
| EndpointZero.StaleCallback | core/source/device/core/usbd_core.c:578-611 | a rejected request's callback is called by the next request |
| EndpointZero.NothingLeft | core/source/device/core/usbd_core.c:423-453 | a control transfer leaves no callback behind exactly when its handler does not register one and then reject the request or halt a direction |
| EndpointZero.RefusedStart | core/source/device/core/usbd_core.c:663-688 | after a start the driver refuses the direction turns everything away |
| EndpointZero.ResetDropsStatus | core/source/device/core/usbd_core.c:887-899 | after a reset the end of a data stage starts no status stage |
| HostDevices.AddrAlloc | core/source/host/core/usbh_core.c:846-888 | the lowest clear bit, or no memory exactly when none is clear |
| HostDevices.AddrFree | core/source/host/core/usbh_core.c:898-924 | clears exactly the bit of the address |
| HostDevices.AddressFitsSevenBits | core/source/host/core/usbh_core.c:859-872 | the address fits seven bits exactly when one of the first 127 bits is clear |
| HostDevices.Host.RefGet | core/source/host/core/usbh_dev.c:753-762 | succeeds exactly for attached devices |
| HostDevices.Host.Put | common/refcnt/usb_refcnt.c:110-157 | releases exactly at zero |
| HostDevices.Host.RefPut | core/source/host/core/usbh_dev.c:771-777 | a driver's put releases exactly when it was the last reference of a detached device |
| HostDevices.Host.Release | core/source/host/core/usbh_dev.c:732-744 | gives the address back and ends the device |
| HostDevices.GivenBackExactly | core/source/host/core/usbh_core.c:898-924 | exactly the bit of the address is clear afterwards; without an address nothing changes |
| HostDevices.Host.AddrSet | core/source/host/core/usbh_dev_enum.c:167-203 | the lowest free address and its bit, or nothing changed |
| HostDevices.Host.Enumerate | core/source/host/core/usbh_dev_enum.c:931-957 | up to three tries for an address, given up when the port is found empty, as specified |
| HostDevices.Host.TryAll | core/source/host/core/usbh_dev.c:1107-1129 | up to four attempts as specified; after the last failure the result is that of the port check |
| HostDevices.AddressExactly | core/source/host/core/usbh_dev.c:1107-1129 | the attempts end with an address exactly when a SET_ADDRESS request made went through and the map was not full |
| HostDevices.NoAddressExactly | core/source/host/core/usbh_dev.c:1107-1129 | they are reported as a success without an address exactly when the port is found connected after each failure and no request went through |
| HostDevices.OutcomeExactly | core/source/host/core/usbh_dev.c:1107-1129 | how the attempts end and how many addresses they take, by the number of free ones, the requests that go through, the rest of the enumeration and the port checks |
| HostDevices.AllClaimed | core/source/host/core/usbh_dev.c:1107-1129 | the address belonged to nobody before, and no bit of another is cleared |
| HostDevices.Host.Inject | core/source/host/core/usbh_dev.c:975-1017 | one reference for each function, then the device is listed, with or without an address |
| HostDevices.Host.Connect | core/source/host/core/usbh_dev.c:1082-1169 | attached or gone, as the attempts say; attached with an address, and then one of its own, exactly when a SET_ADDRESS request went through; all other devices keep theirs |
| HostDevices.Host.AttachSilent | core/source/host/core/usbh_dev.c:1107-1169 | two connected devices that answer nothing are both attached with address 0 |
| HostDevices.Host.TakeBack | core/source/host/core/usbh_dev.c:1051-1064 | taking the functions back never releases the device |
| HostDevices.Host.Disconnect | core/source/host/core/usbh_dev.c:1179-1214 | the device is released with the port's own put exactly if no driver holds on |

## Left out

- Mutexes, semaphores, delays, DMA mapping and printing: they do nothing visible without an operating system.
- Failure of memory allocation, null arguments, and the refusal of configuration calls while the controller runs.
- EHCI, UVC, network, serial and wireless drivers, and the thin device classes.
- Interfaces with several alternate settings on the device, and deletion of associations and configurations.
- UsbdConfig.AddFunc: interface number 10 and setting 10 pass the bound check of the source although its tables end at 9; they are excluded by `Sane`.
- UsbdDescriptor.CfgDescMake: requires that no interface descriptor is copied into fewer than nine bytes, which the source does not check behind an association descriptor; a buffer of the recounted length never comes to that.
- CfgParse.UsbDevice.CfgParse: requires whole descriptors of at least two bytes that add up to the buffer, association descriptors of at least eight bytes, and an interface or association somewhere, as a zero-length descriptor makes the loops of the source spin; the bandwidth of endpoints and the number of skipped descriptors are not modelled.
- ScsiDevice.Ms.WriteChunks: requires a buffer of at least one block, because with a smaller one the loop of the source makes no progress; a READ with such a buffer is modelled.
- ScsiDevice.Ms.Process: requires the buffer to hold 36 bytes, as the replies are written without a check, and to hold a block of every unit.
- ScsiBus.Lu.BlkWrite: what the callback does with blocks past the end of the unit is not modelled; they are not there.
- The deletion of logical units, and the host's retries and bulk resets around a transfer.
- ScsiSession.HostUnit.Transport: commands without blocks, over pipes that do not fail, so that the retries never start; READ and WRITE of the host are related to the device by ScsiHost.WriteThenRead.
- ScsiSession.HostUnit.Linked: the unit's number is below 16 and no other unit has it, and the host's buffer holds the 192 bytes asked for, which the source does not check.
- RingBuffer.Ring.Put: the position arithmetic is modelled without wrap-around, for buffers below 2^31 bytes.
- DeviceList.Lib.DevDel: a device is removed that is registered; a cursor standing on it is lost, as in the source.
- Pool.Pool.Return: a client returns what it holds or an address outside the pool; the source does not detect a second return or an address inside an item.
- HidSpec.Field: field registration and the report scan are not modelled; a list says which registrations succeed.
- EndpointZero.Controller.OnSetup: the request handlers are represented by what they do to endpoint 0; a callback that itself registers another one is not modelled.
- HostDevices.Host.Enumerate: only the address is modelled; a device whose enumeration is repeated after its address was set keeps the later address, and the earlier bit stays taken, so uniqueness is claimed and not exact conservation.
- The 32-bit words of the address map are modelled as 128 separate bits.
