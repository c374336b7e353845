# Hardware devices emulator: a verified model

The emulator is a kernel module that stands in for tty, i2c, net and spi devices: a request sent to
a device is looked up among configured request-response pairs, and timer pairs deliver their response
periodically. This project models its stateful and arithmetic cores and proves properties of them.
Verify with `dafny verify dfyconfig.toml`.

| part of the system | files | main results |
|---|---|---|
| Pair language (`kernel/hwe_utils.c`, `tests/kernel_utils.c`) | `Hex`, `Decimal`, `TimeText`, `TimeGrammar`, `TimePrint`, `PairCodec`, `PairBuffer` | the pointer scanner decides exactly a declared grammar (`ParserIsGrammar`); it undoes the printer (`RoundTrip`); canonical form (`Canonical`, `PrintsAlike`, `TimerPrints`); the time scanner agrees with the regular expression of the scripts exactly when no number wraps into range (`TimerLinesAgree`, `AgreeUnlessWrapped`) |
| Linked list (`tests/list.h`) | `LinkList` | every operation refines its effect on a sequence of nodes and keeps `next` and `prev` inverse |
| Registries (`kernel/hwe_sysfs.c`) | `Registry`, `ListTable`, `PairRegistry`, `Device`, `DeviceRegistry`, `Interface` | list and bitmap agree over every run (`AgreementOverRuns`, `DevicesOverRuns`) and together are a finite map (`StepRefinesMap`, `FindIsLookup`); over runs too (`RunRefinesMap`); an interface is a map of maps (`DevRunRefinesMap`), and the objects in memory go through the same values (`HweIface.Serve`); failures change nothing |
| Configuration replay (`tests/config_sysfs.py`, `control/hwectl.py`) | `ConfigReplay`, `SysfsWriter`, `Ini` | loading a configuration and reading it back gives its canonical form if and only if it is gap-free and loadable (`ConfigRoundTrip`); the INI validator and the module accept the same but for named keys (`ValidatorExact`); what passes it loads exactly when no section has more than 1000 pairs (`FileLoads`), pair by pair in file order (`FileReadsBack`) |
| Scheduler (`kernel/hwe_async.c`) | `Scheduler`, `Timer` | the wrapping clock decides as an unbounded one exactly when every tick is served (`ClockIsIdeal`); no drift (`NoDrift`); no firing is lost or doubled (`EveryFiringHappens`); the timer takes every pair through just these runs (`Ticks`) |
| Pending response (`kernel/hwe_i2c.c`, `kernel/hwe_spi.c`) | `Pending`, `I2c`, `Spi` | no torn responses, conservation of bytes, chunking is invisible, batches compose, a write forgets the past and leaves the response of the pair that answers it (`BatchMeans`, `TransferMeans`) |
| SMBus chip (`kernel/hwe_i2c.c`) | `Smbus`, `I2c` | over every run a read returns what was last written (`LastWriteWins`, `ReadsSeeLastWrites`) and the cursor is where it was last set plus the reads since (`CursorOverRuns`) |

Where the source changes things step by step, the model does too: `Device.HweDev`,
`Interface.HweIface`, `ListTable.Table`, `LinkList.ListHead`, `PairBuffer.HwePair`, `I2c.I2cPriv`,
`Spi.SpiPriv`, `Timer.TimedPair` and `SysfsWriter.Sysfs` are classes whose methods follow the C and
Python code. Each operation the outside can ask for is proved equal to a step of a state machine on
values, and the methods it is made of state the part they do. The results over all runs are lemmas
about those state machines.

Conventions. A C string is a Dafny `string` of one-byte characters; the position after its last
character reads NUL. Character classes are ASCII. A lock held for a whole operation makes that
operation one step. Outcomes of kernel calls (`kmalloc`, `sysfs_create_file`, `kobject_*`, the
`create` function of an interface) are parameters; in the replay of a configuration they all succeed,
because the question there is what the configuration itself decides. `simple_strtoull` reads the longest run of decimal
digits modulo 2^64; `find_first_zero_bit` and `bitmap_weight` are the least clear bit and the number of
set bits; `time_after_eq` is the signed comparison on a clock of W bits, with `half` = 2^(W-1).

Where the code and its documents differ, the model follows the code:

- README.md:139 nests the parts of a time (minutes only after hours, and so on) and requires `timer:`.
  The scanner takes any of the four parts in order, and a time without `timer:` (kernel/hwe_utils.c:201-204).
- tests/config_sysfs.py:70-91 is the documented meaning of a time key. It and the scanner differ on
  numbers of 2^64 or more; `AgreeUnlessWrapped` says exactly when, `WrappedHours` gives the inputs.
- The periodic delivery is meant to be drift-free, but a due time that is 0 on the clock reads as "not
  started": `ZeroRestarts` shows the pair firing again at the next tick, and `Served` in `ClockIsIdeal`
  is the exact condition.
- "invalid character in request string" (kernel/hwe_utils.c:192) cannot be returned: the request has
  already passed the digit test. `StrToPairInto` is proved against a function without that case.

## Model

| member | source | states |
|---|---|---|
| Hex.HexToBin | tests/kernel_utils.c:44-52 | the value is non-negative exactly for hexadecimal digits, and is then the number whose digit the character is, in either case |
| Hex.DecodeEncode | tests/kernel_utils.c:62-89 | decoding the digits printed for any byte string gives that byte string |
| Hex.EncodeDecode | tests/kernel_utils.c:62-89 | printing what a digit string decodes to gives that digit string in lowercase |
| Hex.IsHexStr | kernel/hwe_utils.c:46-55 | the loop answers whether all of the first `size` characters are hexadecimal digits |
| Hex.Hex2bin | tests/kernel_utils.c:62-74 | succeeds exactly on digit strings; the buffer holds the decoded pairs before the first bad one, and is otherwise unchanged |
| Hex.Bin2hex | tests/kernel_utils.c:82-89 | writes exactly the digits of the source at the given place, and nothing else |
| Hex.FindChar | tests/kernel_utils.c:100-109 | finds the first occurrence before any terminator, and nothing only if there is none |
| Hex.Strnchr | tests/kernel_utils.c:100-109 | the pointer loop finds that position within the given count |
| Decimal.DecVal | kernel/hwe_utils.c:148-158 | the decimal text of a number has the value of that number |
| Decimal.WrapValIs | kernel/hwe_utils.c:87 | reading digits into 64 bits gives their value modulo 2^64 |
| TimeText.HweStrToTime | kernel/hwe_utils.c:60-134 | the do-while scanner, with product and sum in 64 bits, returns value and end position of the scan on unbounded numbers; so nothing wraps |
| TimeText.FindUnit | kernel/hwe_utils.c:98-101 | the search in the unit table starts at the current row, so it only moves forward, and returns the first row whose unit stands there and does not continue as a longer word |
| TimeGrammar.ScanText | kernel/hwe_utils.c:60-134 | on every text of the grammar, in front of any separator, the scanner accepts exactly values within the unit limits and 32 bits in total, with the sum as result |
| TimeGrammar.ScanSound | kernel/hwe_utils.c:60-134 | whatever the scanner accepts is a non-empty text of the grammar followed by a separator |
| TimeGrammar.ScanIffDenotes | kernel/hwe_utils.c:196-207 | the scanner succeeds up to the first '=' with value t if and only if the text before it is a time text worth t |
| TimeGrammar.GroupsUnique | tests/config_sysfs.py:71 | a text matches the regular expression in at most one way |
| TimeGrammar.TimeLanguagesAgree | tests/config_sysfs.py:70-91 | for every text whose runs of digits are below 2^64, scanner and regular expression accept alike with the same milliseconds |
| TimeGrammar.AgreeUnlessWrapped | tests/config_sysfs.py:70-91 | scanner and regular expression agree on a text if and only if no number of it wraps at 2^64 into range; then the scanner takes it and the script does not |
| TimeGrammar.WrappedHours | kernel/hwe_utils.c:87-117 | the differing inputs: h hours plus any multiple of 2^64 is taken by the scanner as h hours and refused by the script |
| TimePrint.Parts | kernel/hwe_utils.c:142-146 | the four fields add up to the time and stay below their units |
| TimePrint.PrintDenotes | kernel/hwe_utils.c:138-161 | the text printed for every time from 1 to 2^32-1 ms is a time text worth that time |
| TimePrint.PrintChecks | kernel/hwe_utils.c:138-161 | the text printed for such a time passes the check of the scripts, which find that time in it |
| TimePrint.ScanUndoesPrint | kernel/hwe_utils.c:60-161 | scanning the printed text in front of any separator returns the time and stops at the separator |
| TimePrint.PrintLength | kernel/hwe_utils.c:138-161 | a printed 32-bit time has at most 16 characters |
| TimePrint.ConditionsArePrinted | kernel/hwe_utils.c:148-158 | the printer's conditions print exactly the fields from the first to the last non-zero one |
| TimePrint.HweTimeToStr | kernel/hwe_utils.c:138-161 | the printer appends exactly that text to the buffer and keeps what was there |
| PairCodec.ParserIsGrammar | kernel/hwe_utils.c:165-242 | `str_to_pair` accepts a text as a pair if and only if the text is a line of the grammar standing for that pair |
| PairCodec.PlainLine | kernel/hwe_utils.c:165-242 | a line of key and value is accepted as a pair if and only if the key stands for its request or period and the value for its response |
| PairCodec.TimerLinesAgree | tests/config_sysfs.py:70-91 | for a time whose runs of digits are below 2^64, `str_to_pair` makes a timer line a pair with period t if and only if the script finds t milliseconds in its key |
| PairCodec.RoundTrip | kernel/hwe_utils.c:165-273 | parsing the printed text of a well-formed pair, followed by nothing or a newline and anything, gives the pair back |
| PairCodec.AcceptedWellFormed | kernel/hwe_utils.c:165-242 | every accepted text gives 1..1023 request bytes or a period of 1..2^32-1 ms, and 1..1023 response bytes |
| PairCodec.RefusalsSayWhy | kernel/hwe_utils.c:165-242 | every error text is a true statement about the refused text: about the whole, its key, or, when the key is fine, its value |
| PairCodec.Canonical | kernel/hwe_utils.c:246-273 | the printed text of an accepted pair fits HWE_MAX_PAIR_STR and parses to the same pair |
| PairCodec.TimerPrints | kernel/hwe_utils.c:257-272 | a timer pair prints as `timer:`, a time the check of the scripts reads as its period, `=`, and lowercase digits that decode to its response |
| PairCodec.RequestPrints | kernel/hwe_utils.c:246-273 | a request-response pair prints as lowercase digits that decode to its request and response, with `=` between them |
| PairCodec.PrintsAlike | kernel/hwe_utils.c:246-273 | two accepted texts print alike if and only if they mean the same pair |
| PairCodec.CanonicalIsLowercase | kernel/hwe_utils.c:246-273 | the canonical text of a request-response line is the line in lowercase without what follows the newline |
| PairBuffer.StrToPairInto | kernel/hwe_utils.c:165-242 | the parser over the fixed buffers of `struct hwe_pair` fills in exactly the pair of the text, or returns exactly its error text |
| PairBuffer.ParseResponseInto | kernel/hwe_utils.c:216-241 | the same for the part after the '=' |
| PairBuffer.PairToStrInto | kernel/hwe_utils.c:246-273 | the printer stays inside its static buffer and leaves the NUL-terminated text of the pair, or returns a size error |
| LinkList.ListHead.constructor | tests/list.h:77-79 | an initialised head is a ring of itself |
| LinkList.ListInsert | tests/list.h:87-95 | inserting between neighbours puts the node between them in the ring |
| LinkList.ListAdd | tests/list.h:105-108 | the new entry becomes the first of the ring |
| LinkList.ListAddTail | tests/list.h:118-121 | the new entry becomes the last of the ring |
| LinkList.ListUnlink | tests/list.h:131-135 | linking the neighbours leaves the ring without the entry |
| LinkList.ListDel | tests/list.h:143-148 | the ring without the entry, whose own links reach no node any more |
| LinkList.ListMove | tests/list.h:167-171 | the entry leaves its ring and becomes the first of the target ring, which may be the same one |
| LinkList.ListMoveTail | tests/list.h:178-183 | the entry leaves its ring and becomes the last of the target ring, which may be the same one |
| LinkList.ListEmpty | tests/list.h:189-192 | true exactly for a ring of the head alone |
| LinkList.ListSplice | tests/list.h:213-217 | all entries of the list, in order, come before those of the target |
| LinkList.ListSpliceInit | tests/list.h:226-233 | the same, and the emptied list is a ring of its head |
| LinkList.DeleteAll | tests/list.h:282-284 | deleting inside `list_for_each_safe` visits every entry once, in order, and leaves the list empty |
| Registry.FirstZero | kernel/hwe_sysfs.c:744-745 | the least clear bit, or the size when all are set |
| Registry.Find | kernel/hwe_utils.c:289-299 | the first entry with the index, and none only if no entry has it |
| Registry.AddTailAgrees | kernel/hwe_sysfs.c:775-776 | taking the least free index and appending keeps list and bitmap in agreement |
| Registry.AddFrontAgrees | kernel/hwe_sysfs.c:261-264 | the same for an entry put in front |
| Registry.RemoveAgrees | kernel/hwe_sysfs.c:563-576 | giving the index back and unlinking keeps list and bitmap in agreement |
| Registry.LeastFree | kernel/hwe_sysfs.c:157-165 | the index handed out is the least one not in the map of listed entries |
| Registry.AddMaps | kernel/hwe_sysfs.c:744-776 | adding an entry at either end adds exactly the item at that index to the map |
| Registry.RemoveMaps | kernel/hwe_sysfs.c:563-576 | removing an entry removes exactly its index from the map |
| Registry.RemoveAllEmpties | kernel/hwe_sysfs.c:578-585 | deleting the entries one by one leaves an empty list and no set bit |
| Registry.MapSize | kernel/hwe_sysfs.c:621-633 | the map has as many entries as the list |
| ListTable.Table.Append | kernel/hwe_sysfs.c:775-776 | on bitmap and nodes: the registry with the new entry last |
| ListTable.Table.Prepend | kernel/hwe_sysfs.c:261-264 | on bitmap and nodes: the registry with the new entry first |
| ListTable.Table.Delete | kernel/hwe_sysfs.c:563-576 | on bitmap and nodes: the registry without the entry |
| PairRegistry.FindPair | kernel/hwe_utils.c:275-287 | the first synchronous pair with the request, and none only if there is none |
| PairRegistry.StepKeepsInv | kernel/hwe_sysfs.c:723-918 | every add, delete and clear keeps agreement, well-formed pairs and distinct requests |
| PairRegistry.RunKeepsInv | kernel/hwe_sysfs.c:723-918 | so does every run |
| PairRegistry.AgreementOverRuns | kernel/hwe_sysfs.c:563-585 | after every run bit i is set iff exactly one listed pair has index i, indexes are below 1000, and bitmap weight, list length and map size are equal |
| PairRegistry.StepRefinesMap | kernel/hwe_sysfs.c:723-918 | effect and return value of every operation are those of a finite map from index to pair; only a synchronous pair can be a duplicate |
| PairRegistry.RunRefinesMap | kernel/hwe_sysfs.c:723-918 | over every run, registry and map go through the same values and return the same values |
| PairRegistry.NextIsOne | kernel/hwe_sysfs.c:723-918 | the map allows an operation one effect and one return value |
| PairRegistry.RunsAlike | kernel/hwe_sysfs.c:723-918 | so two runs of the same operations from the same map end in the same map with the same return values, whatever the order of the lists |
| PairRegistry.FindIsLookup | kernel/hwe_sysfs.c:587-591 | the list search finds a pair if and only if it is the synchronous pair with that request in the map |
| PairRegistry.OrderIrrelevant | kernel/hwe_sysfs.c:587-591 | registries with the same map answer alike whatever the order of their lists |
| PairRegistry.LookupMeans | kernel/hwe_sysfs.c:587-591 | what a request finds is the response of the pair that answers it in the map, and nothing if none does |
| PairRegistry.ShowIsLookup | kernel/hwe_sysfs.c:680-692 | the file of a number shows the pair with that number in the map, and there is none without such a pair |
| PairRegistry.TimerNeverDuplicate | kernel/hwe_sysfs.c:749 | a timer pair is never refused as a duplicate |
| PairRegistry.FailureChangesNothing | kernel/hwe_sysfs.c:723-918 | an operation that reports an error leaves the registry as it was; one that succeeds reports what it consumed |
| Device.HweDev.FindPairNode | kernel/hwe_utils.c:275-287 | the loop over nodes returns the node of that pair |
| Device.HweDev.GetPairAtIndex | kernel/hwe_utils.c:289-299 | the loop over nodes returns the node of the first pair with the index |
| Device.HweDev.FindResponse | kernel/hwe_sysfs.c:587-591 | the answer is that of the registry |
| Device.HweDev.AddStore | kernel/hwe_sysfs.c:723-787 | new registry and return value are those of the add step, on all its error paths; the list gains at most a new node |
| Device.HweDev.DeleteStore | kernel/hwe_sysfs.c:850-880 | new registry and return value are those of the delete step; the list gains no node |
| Device.HweDev.ClearPairs | kernel/hwe_sysfs.c:578-585 | the loop leaves an empty registry and a ring of the head alone |
| Device.HweDev.ClearStore | kernel/hwe_sysfs.c:905-918 | new registry and return value are those of the clear step; the list gains no node, and is the head alone once cleared |
| Device.HweDev.CountShow | kernel/hwe_sysfs.c:621-633 | the reported count is the bitmap's weight and the length of the list |
| Device.HweDev.PairShow | kernel/hwe_sysfs.c:680-692 | the text shown is that of the pair with the number in the map |
| DeviceRegistry.DevStepKeepsInv | kernel/hwe_sysfs.c:253-344 | creations, removals and pair operations keep the devices' agreement and every device's invariant |
| DeviceRegistry.DevStepRefinesMap | kernel/hwe_sysfs.c:253-344 | effect and return value of every operation are those of a map from device numbers to maps of pairs: a creation takes the least free number, a removal takes that device away, a write changes that device alone |
| DeviceRegistry.DevRunRefinesMap | kernel/hwe_sysfs.c:253-483 | the same over every run, with all return values |
| DeviceRegistry.DevicesOverRuns | kernel/hwe_sysfs.c:157-177 | after every run an index bit is set iff exactly one listed device has the index, at most 256 exist, and the next creation takes the least free index |
| DeviceRegistry.FailedCreationRollsBack | kernel/hwe_sysfs.c:281-344 | taking the newest device off again, whatever it holds by then, leaves the interface exactly as it was |
| Interface.HweIface.AddDev | kernel/hwe_sysfs.c:253-268 | the device with the taken index is the first of the list and has no pairs, and shares no object with the others |
| Interface.HweIface.DelDev | kernel/hwe_sysfs.c:270-277 | any listed device: entry and index are given up, the others stay |
| Interface.HweIface.ShutdownDev | kernel/hwe_sysfs.c:281-297 | any listed device: the pairs are cleared, entry and index given up, the others stay |
| Interface.HweIface.NewDev | kernel/hwe_sysfs.c:302-344 | a device at the least free index in front of the others, or list and bitmap exactly as before, on every failure path |
| Interface.HweIface.FindDeviceByIndex | kernel/hwe_sysfs.c:241-251 | the loop over the list finds the device with the index, and none only if there is none |
| Interface.HweIface.HweAddDevice | kernel/hwe_sysfs.c:381-395 | what the objects hold and what is returned are those of the creation step |
| Interface.HweIface.HweDeleteDevice | kernel/hwe_sysfs.c:465-483 | the same for the removal step |
| Interface.HweIface.WriteFile | kernel/hwe_sysfs.c:723-918 | the same for writes to the files of the device with an index: that device changes, the others do not |
| Interface.HweIface.ReadFile | kernel/hwe_sysfs.c:680-692 | a pair file of a device shows the pair the map of maps has there |
| Interface.HweIface.Serve | kernel/hwe_sysfs.c:253-344 | over every run of operations the objects hold, and the operations return, what the run of the state machine and that of the map of maps give |
| ConfigReplay.SortedAscending | tests/config_sysfs.py:155-169 | the numbers are visited in ascending order |
| ConfigReplay.WriteTextsOf | kernel/hwe_sysfs.c:723-787 | writing texts in order succeeds exactly when they fit, and then pair i has index i |
| ConfigReplay.FitsIsLoadable | tests/config_sysfs.py:266-288 | they fit exactly when they are valid, at most 1000, and their requests distinct |
| ConfigReplay.ReadsFiles | tests/config_sysfs.py:266-316 | what is read back is what the pair files show |
| ConfigReplay.DeviceRoundTrip | tests/config_sysfs.py:266-298 | a device reads back as its canonical form if and only if its pairs are numbered without gaps and loadable |
| ConfigReplay.InterfaceRoundTrip | tests/config_sysfs.py:266-316 | the same for an interface with at most 256 devices numbered without gaps |
| ConfigReplay.ConfigRoundTrip | tests/config_sysfs.py:580-650 | replaying a configuration into an empty module and reading it back gives its canonical form, in any order of interfaces, if and only if every interface is gap-free and loadable |
| SysfsWriter.Sysfs.AddPair | tests/config_sysfs.py:282-285 | one write to a device's add file |
| SysfsWriter.Sysfs.WriteDevice | tests/config_sysfs.py:168-174 | the pair loop leaves what writing all pairs leaves, or stops at the first error with the pairs before it written |
| SysfsWriter.Sysfs.WriteInterface | tests/config_sysfs.py:155-174 | the device loop likewise: at an error the devices before it are complete, and the one it is in has the pairs before it |
| SysfsWriter.Sysfs.Write | tests/config_sysfs.py:138-176 | the whole traversal succeeds exactly when the replay does, with its result; an error ends it where it happened, and the interfaces after it are untouched |
| Ini.ValidatorSound | control/hwectl.py:150-183 | every key and value the script accepts, the module's parser accepts |
| Ini.ValidatorExact | control/hwectl.py:150-183 | script and parser accept the same keys and values but for the lenient keys, which only the parser takes: a number that wraps into range, or a time without `timer:` |
| Ini.LenientTime | control/hwectl.py:150-183 | the module takes `1h=aa`, and the script refuses it |
| Ini.ValueMeans | control/hwectl.py:117-120 | a quoted value becomes the response of just its bytes, acceptable by its length alone; a plain one the bytes of its digits |
| Ini.KindIsPrefix | tests/config_sysfs.py:215-219 | a section goes to an interface if and only if its name starts as the names of its devices do |
| Ini.SectionLoads | control/hwectl.py:140-183 | a section that passes is gap-free, and is a loadable device if and only if it has at most 1000 pairs |
| Ini.FileLoads | control/hwectl.py:109-188 | the configuration made of a file that passes loads into an empty module and reads back in canonical form if and only if no section has more than 1000 pairs |
| Ini.FileReadsBack | control/hwectl.py:131-188 | pair i of a section is read back at index i of the device numbered by the count of earlier sections for its interface, in canonical text |
| Ini.LoadSection | control/hwectl.py:150-183 | the pair loop numbers the pairs of a section from 0 in file order, or fails at the first bad one |
| Ini.LoadFromIni | control/hwectl.py:131-188 | a configuration exactly when all checks pass; device j of an interface is its j-th section |
| Scheduler.DecisionOnClock | kernel/hwe_async.c:61 | the modular comparison is right before the due instant, and after it exactly when the delay modulo the range is below half |
| Scheduler.TickExact | kernel/hwe_async.c:59-70 | one tick decides and stores as on an unbounded clock exactly when it is served |
| Scheduler.ClockIsIdeal | kernel/hwe_async.c:36-84 | over every run the two clocks agree at every tick if and only if every tick is served |
| Scheduler.NoDrift | kernel/hwe_async.c:59-70 | firing k is never before t0 + k periods, and the stored time is exactly the due time of the last firing modulo the clock |
| Scheduler.ZeroRestarts | kernel/hwe_async.c:59-70 | a firing due at clock value 0 loses its schedule and repeats at the next tick |
| Scheduler.TooLateSkips | kernel/hwe_async.c:61 | a tick late by at least half the clock range does not fire |
| Scheduler.StaysCaughtUp | kernel/hwe_async.c:53-73 | once caught up, a pair stays so while ticks come more often than its period |
| Scheduler.CatchUpBound | kernel/hwe_async.c:44-73 | floor(L/(P-g))+1 ticks at most g apart clear a backlog of L |
| Scheduler.CountWhenCaughtUp | kernel/hwe_async.c:53-73 | once caught up at `now`, exactly floor((now-t0)/P)+1 firings have happened |
| Scheduler.EveryFiringHappens | kernel/hwe_async.c:44-73 | on the wrapping clock, after any lost ticks and enough later ones, the pair has fired exactly once for every due instant |
| Timer.ScanPairs | kernel/hwe_async.c:53-74 | the pair loop ticks every pair once and hands on those that fire, each once, in list order |
| Timer.TimerFunc | kernel/hwe_async.c:36-84 | over all interfaces with a free lock every pair gets exactly one tick and is handed on at most once, in list order; interfaces with a busy lock are untouched |
| Timer.TimerTick | kernel/hwe_async.c:36-84 | one tick pair by pair: the new time, and whether the pair is handed on, by whether the lock of its interface is free; each at most once, in the order of the lists |
| Timer.FlatAt | kernel/hwe_async.c:47-53 | the order of the lists is device after device, and the pairs of each device in their order |
| Timer.Ticks | kernel/hwe_async.c:36-84 | over the ticks of the timer each pair goes through the scheduler's run over exactly the instants at which its lock was free, and is handed on once at exactly the instants at which that run fires |
| Pending.RunAccounted | kernel/hwe_i2c.c:57-97 | every event keeps: outputs are prefixes of their responses, the pending bytes are the rest of the last one, every loaded byte is accounted for |
| Pending.Conservation | kernel/hwe_spi.c:62-109 | over whole runs, bytes loaded = bytes handed out + bytes thrown away + bytes pending, and cursor plus remaining count is the length last loaded |
| Pending.NoTornResponses | kernel/hwe_i2c.c:57-97 | in any interleaving the bytes handed out between two loads are a gap-free prefix of the one response loaded |
| Pending.DeliveryCondition | kernel/hwe_i2c.c:412-422 | a delivery loads its whole response exactly when nothing is pending or the pending response is asynchronous and wholly unread; otherwise nothing changes |
| Pending.StepsAlike | kernel/hwe_i2c.c:57-97 | stale buffer bytes can never be observed |
| I2c.BatchIsRun | kernel/hwe_i2c.c:48-103 | a batch is a run of the pending-response machine and hands out exactly its bytes |
| I2c.MessageMeans | kernel/hwe_i2c.c:57-99 | a write leaves the response of the pair that answers its bytes in the map, or nothing; a read takes the front of what is left, or is cut to length 0 and fails |
| I2c.BatchMeans | kernel/hwe_i2c.c:48-103 | a batch is a run of such messages, and fails if one of them does |
| I2c.WriteThenRead | kernel/hwe_i2c.c:57-99 | a write and a read return the front of the response of the pair that answers, and fail with length 0 if none does |
| I2c.BatchesCompose | kernel/hwe_i2c.c:48-103 | a message list is any split of it run in order |
| I2c.AllReadsServed | kernel/hwe_i2c.c:51-102 | the batch is ok, and the call returns `num`, if and only if every read found pending bytes |
| I2c.WriteDecides | kernel/hwe_i2c.c:78-99 | from a write on, answers and observable state depend only on the registry and the messages |
| I2c.I2cPriv.ReadMessage | kernel/hwe_i2c.c:57-77 | one read fills the front of its buffer and advances the cursor, or is cut to length 0 |
| I2c.I2cPriv.WriteMessage | kernel/hwe_i2c.c:78-99 | one write loads the response found, or drops what is pending |
| I2c.I2cPriv.DoMasterXfer | kernel/hwe_i2c.c:48-103 | the loop leaves the device, the messages and the return value of the batch |
| I2c.I2cPriv.MasterXfer | kernel/hwe_i2c.c:105-124 | on a device in use the messages, the bytes left and the return value, `num` or -EINVAL, are those of a run of messages on the map of pairs; nothing but -ENODEV on a device being removed |
| I2c.I2cPriv.AsyncRx | kernel/hwe_i2c.c:403-423 | the delivery step, and the front of the response in the chip memory |
| I2c.I2cPriv.DoSmbusXfer | kernel/hwe_i2c.c:126-249 | memory, cursor, data union and return value of the transfer; the pending response is untouched |
| I2c.CopyBytes | kernel/hwe_i2c.c:220-233 | the block loops copy exactly the clamped length and nothing else |
| Smbus.BlockLength | kernel/hwe_i2c.c:211-218 | the clamped length is the largest that is at most the wanted one and 32 and stays inside the memory |
| Smbus.LastWriteWins | kernel/hwe_i2c.c:126-249 | after every run of transfers and deliveries each cell holds what was last written to it |
| Smbus.ReadsSeeLastWrites | kernel/hwe_i2c.c:126-249 | after every run a read returns the values last written to the cells it covers and changes no cell |
| Smbus.SetPositionThenRead | kernel/hwe_i2c.c:142-158 | k byte reads after setting position p return cells (p+i) mod 256 |
| Smbus.ByteDataThenRead | kernel/hwe_i2c.c:160-180 | after a byte-data transfer at p, k byte reads return cells (p+1+i) mod 256 |
| Smbus.CursorOverRuns | kernel/hwe_i2c.c:142-180 | after every run the cursor is where it was last set, moved on by the byte reads since, modulo 256; nothing else moves it |
| Smbus.TransferReturns | kernel/hwe_i2c.c:126-249 | only unsupported transfers fail; writes hand back their data but for a block's length; quick and unsupported ones have no effect |
| Smbus.BlockRoundTrip | kernel/hwe_i2c.c:208-240 | a clamped block write then read returns the bytes written and frames the rest |
| Smbus.WordRoundTrip | kernel/hwe_i2c.c:182-206 | a word reads back whole below 0xFF and as its low byte at 0xFF |
| Spi.ChunkingInvisible | kernel/hwe_spi.c:72-96 | reads of any lengths return together the pending bytes followed by endless zeros |
| Spi.ReceivedIsOutput | kernel/hwe_spi.c:75-94 | a read hands out response bytes first and zeros for the rest |
| Spi.TransferMeans | kernel/hwe_spi.c:47-109 | a write leaves the response of the pair that answers its bytes in the map, or nothing; a read takes the front of what is left, then zeros; a transfer both ways receives zeros and leaves nothing |
| Spi.SpiPriv.ReadInto | kernel/hwe_spi.c:72-96 | the receive buffer and the new state of one read |
| Spi.SpiPriv.TransferOne | kernel/hwe_spi.c:44-114 | state and receive buffer after each of the four kinds of transfer, by the state machine and by the map of pairs |
| Spi.SpiPriv.AsyncRx | kernel/hwe_spi.c:272-285 | the delivery step |

## Left out

- PairBuffer.StrToPairInto: does not set `period` and `time`; the scheduler keeps its own record of a pair (`Timer.TimedPair`), which starts with `time` 0.
- Ini.LoadFromIni: quoted keys are not part of this model; that path uses a name that is not defined (control/hwectl.py:161). The regular expression is a specification here, so the loop is a ghost method.
- Non-ASCII digits and letters, and the Latin-1 letters of the kernel's `isalpha`: character classes are ASCII.
- Texts longer than one sysfs page: one write of the script is one call of the store function.
- Device names: a configuration is keyed by device number; the name is the interface name and the decimal number (tests/config_sysfs.py:156).
- `hwe_add_pair` and `hwe_get_pair`: they repeat `dev_add_store` and `pair_show`, but the first carries on after a missing device (kernel/hwe_sysfs.c:804-806) and the second compares with a variable that is never assigned (kernel/hwe_sysfs.c:701, 711).
- The number parsing of `kstrtouint` and `kstrtol`: an index arrives as a number, or absent when its text is none.
- `msecs_to_jiffies`: the scheduler takes any period of at least one jiffy.
- Concurrency finer than one operation: i2c operations and registry operations hold the interface's semaphore; spi transfers take no lock, so their results are about sequential interleavings of whole transfers and deliveries.
- Reuse of i2c devices that are not in use (kernel/hwe_i2c.c:297-321), and creating and destroying adapters: kernel registration.
- `kernel/hwe_tty.c`, `kernel/hwe_net.c`, `kernel/hwe_ioctl.c`, `kernel/hwe_main.c`: thin wrappers, user-space copying and logging, which would only add easy members.
- The `hlist_*` half of `tests/list.h`, symlinks, `modprobe` and INI file reading: unused by the emulator or input and output.
