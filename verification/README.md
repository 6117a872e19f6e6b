# A verified model of the storage engine

The library discovers RAID controllers, disks and arrays, hands out handles to them and drives mdadm; a small
daemon watches for changes. This project models five parts of it in Dafny and proves what they promise:

- **Text.** The UTF-8 string class, whose buffer is bytes and whose interface is code points, and the parsers that
  rest on it: the line splitter, the cleaner of mdadm's messages, the map-file lookup and the reader of enclosure
  slots. `Utf8`, `Slices` and `Trimming` say on plain byte sequences what decoding, searching, slicing and trimming
  mean, and `Encoding` that what is decoded is what an arithmetic encoder spells; `Walking` and `Strings` are the
  pointer-walking loops and the class over NUL-terminated arrays, proved to compute exactly that. `Lines`, `MapFile`,
  `Numbers` and `Slots` are the parsers, and `Messages` the lines mdadm and mdmon print.
- **Handles and sessions.** `Ledger` is the abstract state (who holds which handle on behalf of which session) and its
  runs; `Registry` and `Sessions` are the classes on the heap, each public operation of which is proved to be one
  step of the ledger.
- **Topology.** `Trees` is the shape of a device tree as a value; `Topology` holds ports, routing devices, controllers
  and end devices on the heap, their cached lists and the climb of arrays and volumes; `Discovery` builds them bottom-up
  from what the ports' directories show, up to a whole session with its arrays and volumes; `Isci` has the
  find-or-create of shared ports.
- **Capacity and growth.** `Capacity` has the two free-space computations in 64-bit arithmetic and their agreement;
  `Growing` the grow transaction over an oracle for mdadm and a command log.
- **Events.** `Monitor` has the double-buffered snapshots in linked lists, with every allocated node accounted for, and
  all runs of polls and directory events; `Semaphore` all interleavings of notifiers and waits.

Some promises turn out to hold only under a condition, and are stated with it, in both directions. Appending
concatenates exactly when the receiver is all ASCII (`Slices.AppendConcatenatesIff`), so the error text is the plain join
of its lines exactly when all but the last are ASCII (`Lines.JoinWindow`). Dropping the last byte leaves the code-point
count right exactly when the contents did not decode to their end (`Strings.String.PopBack`). An entry of the map file is
found under its own key exactly when no earlier key contains that key (`MapFile.OwnKeyHitIff`). A page of slot records is
read back exactly when merging what lies behind its first empty block is harmless; otherwise the bay number of the first
record there comes out with the address of the last (`Slots.ReadBackIff`, `Slots.EmptyBlockSwallowsRest`). Attaching something to
a device keeps the caches of a device above right exactly when it is that very device (`Trees.AttachKeepsListsIff`). The
climb of an array ends exactly when its ports can be ranked (`Topology.ClimbEndsIffRanked`), which discovery establishes.
For a volume that reports sector size 0, the two free-space computations agree within a sector exactly when less than a
sector is free (`Capacity.ZeroSectorSizeAgreesIff`). A wait's time limit is the requested one exactly for whole seconds
(`Semaphore.LimitIsExactForWholeSeconds`). The engine's decoder is looser than section 3 of RFC 3629 (it accepts
overlong forms, surrogates and leads F5 to F7) and refuses 7F; the model follows the engine.

`dafny verify dfyconfig.toml` checks the whole project.

## Model

| member | source | states |
|---|---|---|
| Encoding.EncodingCountsOne | lib/engine/string.cpp:42-97 | the UTF-8 encoding of every code point but 7F, computed by arithmetic, is well-formed and counts as one |
| Encoding.EncodedDecodes | lib/engine/string.cpp:42-151 | decoding any text encoded so gives the encodings of its code points, in order |
| Encoding.LeftOfEncoded | lib/engine/string.cpp:222-238 | assigning an encoded text keeps exactly its first n code points |
| Encoding.DeleteIsRefused | lib/engine/string.cpp:44-46 | the single byte 7F does not decode |
| Encoding.SpellingDecodes | lib/engine/string.cpp:42-97 | every spelling of a code point up to 1FFFFF in one to four bytes, even a longer one than needed, is decoded as a whole, whatever follows |
| Encoding.DecodedIsSpelling | lib/engine/string.cpp:42-97 | conversely, whatever the decoder takes is such a spelling |
| Encoding.SpeltDecodes | lib/engine/string.cpp:42-151 | a text spelt so is well-formed and decodes into its spellings |
| Encoding.WellFormedIffSpelt | lib/engine/string.cpp:42-97 | the well-formed texts are exactly the spelt ones |
| Encoding.LeftOfSpelt | lib/engine/string.cpp:222-238 | assigning a spelt text keeps exactly its first n code points |
| Utf8.CharsConcat | lib/engine/string.cpp:60-103 | decoding distributes over concatenation behind a well-formed prefix, and well-formedness of the whole is that of the rest |
| Utf8.FlattenChars | lib/engine/string.cpp:60-103 | decoding a well-formed string loses nothing: its code points spell the same bytes |
| Utf8.BoundaryIff | lib/engine/string.cpp:60-103 | self-synchronisation: in a well-formed string a position is a code-point boundary exactly when no continuation byte stands there |
| Utf8.OffsetIsLongest | lib/engine/string.cpp:106-120 | on arbitrary bytes, walking n code points forward stops at the end of the longest decodable prefix of at most n code points |
| Utf8.OffsetOfCount | lib/engine/string.cpp:106-151 | on a boundary, walking forward by the counted code points leads back to that boundary |
| Utf8.CoveringBoundary | lib/engine/string.cpp:135-151 | counting the code points that cover a byte range ending on a boundary gives exactly the code points in front of it |
| Utf8.NormalIsWellFormed | lib/engine/string.cpp:222-238 | what a string keeps of arbitrary bytes is well-formed, has the same code-point count, and is everything if the bytes were well-formed |
| Utf8.CountIsSizeIff | lib/engine/string.cpp:135-151 | code points and bytes count the same exactly for all-ASCII strings |
| Utf8.DroppedByteCounts | lib/engine/string.cpp:309-317 | dropping the last byte leaves the count of code points alone exactly when that byte did not decode |
| Walking.SkipBytes | lib/engine/string.cpp:60-97 | follows one sequence and refuses it exactly when the decoder does; at the terminator it steps one past |
| Walking.Utf8Offset | lib/engine/string.cpp:106-120 | the forward walk ends at the longest decodable prefix of the given number of code points, on any bytes |
| Walking.Utf8Length | lib/engine/string.cpp:135-151 | the counting walk returns the code points needed to cover the given bytes |
| Walking.TrimLeft | lib/engine/string.cpp:160-179 | on well-formed text the walk stops at the first code point worth keeping |
| Walking.ScanMeetsLead | lib/engine/string.cpp:188-207 | a lead byte met by the backward scan announces exactly the continuation bytes counted behind it |
| Walking.ScanEnds | lib/engine/string.cpp:188-213 | where the backward scan stops, forward decoding finds one whole code point, the last one to keep |
| Walking.TrimRight | lib/engine/string.cpp:182-213 | on any bytes the backward scan agrees with forward decoding on the end of the text worth keeping; with nothing to keep it answers the start or one past it |
| Trimming.TrimmedIsMaximal | lib/engine/string.cpp:160-219 | trimming removes only blank single-byte code points at the ends, and what is left is well-formed and starts and ends visibly |
| Trimming.TrimmedIsUnique | lib/engine/string.cpp:160-219 | any piece framed by blanks with visible ends is what trimming yields |
| Trimming.TrimmedIdempotent | lib/engine/string.cpp:287-293 | trimming twice is trimming once |
| Trimming.BlankIffLow | lib/engine/string.cpp:164-167 | the bytes that trimming removes are exactly those up to the space |
| Slices.MatchStarts | lib/engine/string.cpp:424-438 | a byte match of a non-empty well-formed needle in a well-formed string starts on a code-point boundary |
| Slices.MatchEnds | lib/engine/string.cpp:424-438 | such a match ends on a boundary, exactly the needle's code points further |
| Slices.MatchOccurs | lib/engine/string.cpp:424-438 | a byte match is an occurrence of the needle's code points at the counted index |
| Slices.OccurrenceMatches | lib/engine/string.cpp:424-438 | an occurrence of the code points is a byte match at their offset |
| Slices.FindIsFirstOccurrence | lib/engine/string.cpp:274-284 | find answers the code-point index of the first occurrence from the offset on, and throws iff there is none |
| Slices.ReverseFindIsLastOccurrence | lib/engine/string.cpp:296-306 | reverse_find answers the last occurrence that ends within the first offset code points, and throws iff there is none |
| Slices.LeftChars | lib/engine/string.h:345-347 | the left part is the first n code points |
| Slices.RightChars | lib/engine/string.h:317-323 | the right part is the code points from an index on, empty past the end |
| Slices.MidChars | lib/engine/string.h:369-377 | the middle part is the code points of the range, as far as there are any |
| Slices.BetweenIs | lib/engine/string.h:433-440 | what stands between two markers is what stands left of the second in the text after the first |
| Slices.ReverseMidIff | lib/engine/string.h:390-403 | cutting a range out leaves the two sides exactly when nothing is behind it or the front is all ASCII |
| Slices.LeftAfterRebuild | lib/engine/string.h:354-431 | the part left of the needle, the needle and the part after it rebuild the string whenever the needle occurs; otherwise both parts are empty |
| Slices.ReverseLeftAfterRebuild | lib/engine/string.h:361-424 | the same around the last occurrence |
| Slices.AppendConcatenatesIff | lib/engine/string.h:482-484 | appending a non-empty text concatenates iff the receiver is all ASCII |
| Strings.String.Assign | lib/engine/string.cpp:222-238 | assigning stores the longest decodable prefix of at most count code points of arbitrary bytes and re-establishes the class invariant, also when the bytes lie in the string's own buffer |
| Strings.String.Realloc | lib/engine/string.cpp:336-349 | makes room, keeps the buffer when it is large enough and the contents when asked to |
| Strings.String.Duplicate | lib/engine/string.cpp:352-357 | the copy is the terminated contents |
| Strings.String.Copy | lib/engine/string.cpp:360-368 | keeps the bytes in front of the offset, stores the given ones behind, and re-establishes the invariant |
| Strings.String.Append | lib/engine/string.cpp:257-271 | the new contents are as many bytes of the old ones as they have code points, and then the first code points of the argument; nothing changes when the argument is the string itself, empty or cut to nothing; the invariant is kept |
| Strings.String.Find | lib/engine/string.cpp:274-284 | the search over the buffer answers what the specification of find does; a null needle is never found |
| Strings.String.FindBytes | lib/engine/string.cpp:424-438 | the single loop with restart finds the first byte match |
| Strings.String.ReverseFind | lib/engine/string.cpp:296-306 | the backward search answers what the specification of reverse_find does |
| Strings.String.ReverseFindBytes | lib/engine/string.cpp:399-421 | the backward loop with restart finds the last byte match that ends in front of the offset |
| Strings.String.Trim | lib/engine/string.cpp:287-293 | well-formed contents become their trimmed piece, even where the end pointer lies in front of the start and the count wraps around |
| Strings.TrimmedBetween | lib/engine/string.cpp:287-293 | the code points counted between the two trimming pointers select exactly the trimmed piece |
| Strings.String.Left | lib/engine/string.h:345-347 | a fresh string of the first code points |
| Strings.String.Right | lib/engine/string.h:317-323 | a fresh string from a code point on, empty past the end |
| Strings.String.LeftOf | lib/engine/string.h:354-360 | what stands in front of the first occurrence, empty without one |
| Strings.String.ReverseLeftOf | lib/engine/string.h:361-367 | what stands in front of the last occurrence, empty without one |
| Strings.String.After | lib/engine/string.h:425-431 | what stands behind the first occurrence, empty without one |
| Strings.String.ReverseAfter | lib/engine/string.h:418-424 | what stands behind the last occurrence, empty without one |
| Strings.String.Mid | lib/engine/string.h:369-377 | the code points of a range, empty for an empty or backward range |
| Strings.String.Between | lib/engine/string.h:433-440 | what stands between the first start marker and the next end marker |
| Strings.String.ReverseMid | lib/engine/string.h:390-403 | the string with a range of code points cut out |
| Strings.String.DropInPlace | lib/engine/enclosure.cpp:235 | replacing a string by its own tail keeps the buffer and leaves exactly that tail |
| Strings.String.PopBack | lib/engine/string.cpp:309-317 | drops the last byte, refusing an empty string; the code-point count is left as it was, so the class invariant is kept exactly when the contents were not well-formed |
| Strings.String.Last | lib/engine/string.cpp:320-327 | the last byte, refused for an empty string |
| Lines.SegmentsRebuild | lib/engine/utils.cpp:96-114 | the segments, terminated again, are the text up to its last newline, and none holds a newline |
| Lines.SplitTurn | lib/engine/utils.cpp:103-113 | one turn of the splitting loop, counted in code points, cuts out the next newline-terminated segment |
| Lines.TerminatedSplits | lib/engine/utils.cpp:96-114 | any lines, terminated and split again, are the same lines |
| Lines.SplitStringToLines | lib/engine/utils.cpp:96-114 | yields exactly the trimmed newline-terminated segments that are not empty, in order |
| Lines.KeptAreSelected | lib/engine/utils.cpp:103-113 | the lines kept of any segments are those whose trimmed text is not empty, in order |
| Lines.RemoveAll | lib/engine/utils.cpp:132-138 | cutting a word until it no longer occurs terminates, leaves no occurrence, and changes the line only if there was one |
| Lines.CutIsExact | lib/engine/utils.cpp:135-137 | on an ASCII line a cut removes exactly the found word |
| Lines.CleanedLeavesNone | lib/engine/utils.cpp:117-146 | no cleaned line is empty or contains the word removed last |
| Lines.MdadmErrorLines | lib/engine/utils.cpp:117-146 | cleaning and erasing lines in place terminates and yields the cleaned lines in order, none empty, none with " Aborting..." |
| Messages.MessageCleans | lib/engine/utils.cpp:117-138 | a line that is a message behind "mdadm: ", "mdmon: " or nothing, with or without " Aborting..." behind it, is cleaned to exactly the message |
| Messages.MessagesReadBack | lib/engine/utils.cpp:117-146 | an output of such lines is cleaned to exactly its messages, all of them and in order |
| Lines.JoinWindow | lib/engine/utils.cpp:393-402 | the message is the space-join of the last linesNum lines after skipping offset from the end exactly when every line of that window but the last is ASCII, every index in range |
| Lines.WindowIs | lib/engine/utils.cpp:394-397 | the window is what is left of the lines after offset of them are skipped at the end and all but linesNum of the others at the front |
| Lines.JoinedParts | lib/engine/utils.cpp:398-401 | joining sets exactly one space between two lists of lines |
| Lines.JoinedOpenAll | lib/engine/utils.cpp:396-402 | announcing every further line by a space amounts to joining with spaces |
| Lines.LastError.Set | lib/engine/utils.cpp:69-81 | stores the message without one final dot if it has one, and as it is otherwise |
| Lines.AsciiOutputGivesAsciiLines | lib/engine/utils.cpp:117-146 | all lines cleaned from an ASCII output are ASCII |
| Lines.LastError.ShellEx | lib/engine/utils.cpp:384-408 | success leaves the last error alone; failure replaces it by the window of cleaned lines, appended one by one, less at most one final dot; for an ASCII output, and whenever all lines of the window but the last are ASCII, that is their space-join |
| MapFile.RaidDevice.InternalUpdate | lib/engine/raid_device.cpp:126-167 | the search terminates on any text; a hit sets the missing name or device and the uuid from the found line, a blank line or no match throws and changes nothing; the outcome is the lookup whose two directions are inverse |
| MapFile.SplitFirst | lib/engine/raid_device.cpp:131-152 | a separator that does not occur in front of itself splits a text there from the left |
| MapFile.SplitLast | lib/engine/raid_device.cpp:162-165 | a separator that does not occur behind itself splits a text there from the right |
| MapFile.LineReadsBack | lib/engine/raid_device.cpp:159-165 | every field of a rendered line is read back |
| MapFile.RenderedLookup | lib/engine/raid_device.cpp:139-157 | on a rendered table the loop finds the line of the first entry whose key contains the name, and nothing if there is none, whatever follows a blank line |
| MapFile.OwnKeyHitIff | lib/engine/raid_device.cpp:146-150 | an entry is found under its own key exactly when no earlier key contains that key |
| MapFile.LookupsAreInverse | lib/engine/raid_device.cpp:126-167 | when no key is part of another, lookup by device name and by array name are mutual inverses and return that entry's uuid |
| Numbers.DecimalParses | lib/engine/string.cpp:441-444 | reading an unsigned 64-bit number from its decimal digits gives the number |
| Numbers.HexadecimalParses | lib/engine/string.cpp:441-444 | reading it from prefixed hexadecimal digits behind a space gives the number |
| Numbers.ZeroMeansOctal | lib/engine/string.cpp:441-444 | digits behind a zero are octal |
| Numbers.SpaceIsSkipped | lib/engine/string.cpp:441-444 | white space in front does not matter |
| Numbers.MinusNegates | lib/engine/string.cpp:441-444 | a minus sign negates modulo 2^64 |
| Numbers.TooGreatSaturates | lib/engine/string.cpp:441-444 | a number beyond 64 bits reads as all ones |
| Numbers.NoDigitsMeansZero | lib/engine/string.cpp:441-444 | text without a digit reads as zero |
| Slots.Enclosure.GetSlotInfo | lib/engine/enclosure.cpp:209-237 | the loop terminates on every text and appends the slots of all blocks; no slot is ever appended with address 0 |
| Slots.Enclosure.GetSlotNumber | lib/engine/enclosure.cpp:193-201 | answers the specification of the search over the slots |
| Slots.NumberOfIsFirst | lib/engine/enclosure.cpp:193-201 | the answer is the first matching record's slot, or all ones without a match |
| Needles.FirstPlanted | lib/engine/enclosure.cpp:217-224 | a needle without borders, planted behind text free of it, is found where it was planted |
| Needles.LastPlanted | lib/engine/enclosure.cpp:228 | the same from the right |
| Slots.AsciiBetween | lib/engine/enclosure.cpp:224 | the field between a marker and the next newline is what stands there |
| Slots.PageReads | lib/engine/enclosure.cpp:209-237 | for every page of blocks, empty or not, the slots of the blocks in front of the first empty one that is not the last, and then what all text behind that one reads as |
| Slots.PageReadsBack | lib/engine/enclosure.cpp:209-237 | a page in which no block but the last is empty yields the slots of all its blocks in order |
| Slots.RecordReadsBack | lib/engine/enclosure.cpp:223-234 | a block with a bay number and a SAS address yields exactly that slot if the address is not zero, and nothing if it is, whatever text surrounds the fields |
| Slots.RecordsReadBack | lib/engine/enclosure.cpp:209-237 | of any list of such records rendered as a page the occupied bays are read back exactly and in order |
| Slots.AllOccupied | lib/engine/enclosure.cpp:231-233 | when no bay is empty that is one slot for every record, with its number and address |
| Slots.GapSlot | lib/engine/enclosure.cpp:224-234 | all text behind an empty block reads as one slot, the first bay number in it with the last address in it, or as nothing if that address is 0 |
| Slots.GapsRead | lib/engine/enclosure.cpp:209-237 | what is read of every page of good records, occupied or not, and empty blocks |
| Slots.ReadBackIff | lib/engine/enclosure.cpp:209-237 | such a page is read back exactly if and only if behind the first empty block that is not the last there is at most one record, or every bay is empty, or only the last is occupied and the first has its number |
| Slots.EmptyBlockSwallowsRest | lib/engine/enclosure.cpp:216-235 | an input that is not read back: two records behind an empty block become one slot that belongs to neither, or none |
| Ledger.UniqueIsDetermined | lib/engine/handle_manager.h:159-176 | the allocator's answer is determined by the live handles and the object's own |
| Ledger.NewHandleIsGreater | lib/engine/handle_manager.h:165-172 | a new handle exceeds every live one and stays within 32 bits |
| Ledger.AddedKeepsBalance | lib/engine/session.cpp:320-416 | adding an object, even twice or with no handle left, keeps the registry in step with the sessions and no other object's handle changes |
| Ledger.ClosedKeepsBalance | lib/engine/session.cpp:65-102 | closing a session takes out exactly its own handles and leaves every other session's objects their handles |
| Ledger.UnregisteredKeepsBalance | lib/engine/array.cpp:434-440 | an array or volume that gives its handle up while staying in its session keeps the balance |
| Ledger.DiscoveryAdds | lib/engine/session_manager.cpp:59-68 | at any point of a discovery, closing the new session again restores the ledger from before the open |
| Ledger.NextKeepsBalance | lib/engine/session_manager.cpp:51-87 | opens, failed opens, closes, additions to open sessions and removals of arrays and volumes keep the balance; a failed open leaves the registry as it was |
| Ledger.RunsAreBalanced | lib/engine/session_manager.cpp:51-87 | in every state reachable by any interleaving of these the registry is balanced |
| Ledger.RegistryIsDisjointUnion | lib/engine/context_manager.cpp:110-121 | the registered handles are the disjoint union, over the live sessions, of their objects' non-null handles |
| Registry.HandleManager.GetUniqueHandle | lib/engine/handle_manager.h:159-176 | the object's own handle when taken, 1 for an empty map, one past the greatest, or 0 when the greatest is FFFFFFFF |
| Registry.HandleManager.Insert | lib/engine/handle_manager.h:52-71 | enters the object under a handle above all live ones, and a refusal because of exhaustion or repetition changes nothing |
| Registry.HandleManager.Remove | lib/engine/handle_manager.h:78-92 | takes out exactly the entry under the handle and clears its object's handle; without one nothing changes |
| Registry.HandleManager.RemoveList | lib/engine/session.cpp:65-102 | releasing a list, with repetitions, removes exactly its objects from the registry |
| Registry.NoTwoKeys | lib/engine/handle_manager.h:52-92 | no object sits under two keys |
| Sessions.Find | lib/engine/container.h:86-94 | an object of the list with the handle, and none iff no object has it |
| Sessions.Session.Add | lib/engine/session.cpp:320-416 | registers an object at most once and appends it to the list of its kind in any case; other lists and entries are untouched |
| Sessions.Session.Destroy | lib/engine/session.cpp:65-102 | the nine release loops take out exactly the session's own objects, each left without a handle |
| Sessions.Session.GetObject | lib/engine/session.cpp:186-243 | the session itself for the null handle, else an object of the session with that handle, and none iff there is none |
| Sessions.Context.OpenSession | lib/engine/session_manager.cpp:51-71 | for every discovery script, a success is one open step of the ledger that adds one session, whose lists hold each entry's object under its kind; a refusal or a failed discovery leaves sessions and registry as they were; no other session is disturbed |
| Sessions.Context.CloseSession | lib/engine/session_manager.cpp:74-87 | a known handle is one close step that removes that session, takes out exactly the registry's entries for its objects, clears their handles and disturbs no other; a null or unknown handle is refused without any change |
| Sessions.Context.AddTo | src/volume.cpp:232-233 | a volume or array added to an open session is one add step and disturbs no other session |
| Sessions.Context.RemoveArray | lib/engine/array.cpp:434-440 | the registry's part of removing an array, or a volume, is one removal step: the array's entry goes, its handle is cleared, and the sessions stay as they are |
| Sessions.AnswersKept | lib/engine/session.cpp:186-243 | the getObject of a session that was not disturbed has exactly the answers it had |
| Sessions.OneCandidate | lib/engine/session.cpp:186-243 | a non-null handle has at most one candidate in a session, so the order of the nine searches does not matter |
| Trees.AttachedListsAgree | lib/engine/routing_device.cpp:203-214 | caching what a finished subtree lists makes the lists describe the larger tree |
| Trees.ListsAreFlattening | lib/engine/routing_device.cpp:102-124 | the lists of all devices are, as multisets, the flattening of the subtree |
| Trees.ReceivedAgrees | lib/engine/routing_device.cpp:191-214 | attaching an end device or a finished subtree keeps the lists of the receiving device right |
| Trees.AttachKeepsListsIff | lib/engine/routing_device.cpp:191-214 | after attaching an end device or a subtree anywhere in a tree, the lists of the node on top still describe it exactly when the attach happened at that node |
| Topology.Port.AttachPort | lib/engine/port.cpp:178-186 | connects both ends as each end's code does, attaches what the remote port belongs to above, keeps a ranked world ranked if the upper port has the smaller rank, and ends; attaching a port to itself throws |
| Topology.RoutingDevice.AttachRoutingDevice | lib/engine/routing_device.cpp:203-214 | lists the newcomer directly and caches everything it lists now |
| Topology.RoutingDevice.Attach | lib/engine/routing_device.cpp:173-182 | an array or volume reaches the controller on top through the subtractive port, at any depth |
| Topology.RoutingDevice.AddToSession | lib/engine/routing_device.cpp:73-93 | puts the device, its end devices and everything below into the session, each once and root first, whatever the caches say |
| Topology.ClimbEndsIffRanked | lib/engine/remote_port.cpp:75-88 | the climb from a port ends exactly when the ports on the way can be ranked: the condition the climbing methods ask for is that they end |
| Topology.RootIsDetermined | lib/engine/remote_port.cpp:75-88 | where the climb ends does not depend on the ranks |
| Topology.Port.Attach | lib/engine/remote_port.cpp:75-88 | the climb from any port ends and the controller on top, if the chain is whole, lists the array or volume once |
| Topology.Controller.Attach | lib/engine/controller.cpp:362-389 | nothing is listed twice, and the other kind's list does not change |
| Topology.Controller.AttachRoutingDevice | lib/engine/controller.cpp:343-353 | the controller's lists grow by the newcomer and by all it lists |
| Topology.Controller.AddToSession | lib/engine/controller.cpp:419-441 | the recursion puts everything below the controller into the session, in order |
| Topology.EndDevice.Attach | lib/engine/block_device.cpp:121-142 | refuses null, otherwise remembers the array or volume and starts the climb |
| Topology.Raid.AttachTo | lib/engine/array.cpp:546-554 | after attaching to all member disks, a controller lists the array or volume exactly once iff it did before or the climb from a member ends at it; nothing else about any controller changes |
| Topology.AttachKeepsCaches | lib/engine/routing_device.cpp:191-214 | receiving an end device or a finished tree keeps every cache below right and makes the lists of the receiving device or controller describe what is then below it |
| Topology.OnceIfPresent | lib/engine/controller.cpp:362-389 | a list without duplicates holds what is in it exactly once |
| Discovery.DiscoverPort | lib/engine/isci_port.cpp:54-84 | whatever a port shows, what was found comes about as shown, with every cache right, linked to the port, in a ranked world, and is listed by the port's owner |
| Discovery.FoundCounts | lib/engine/isci_port.cpp:54-84 | there is one end device for every port that shows a disk and one subtree for every port that shows an expander |
| Discovery.DiscoverExpander | lib/engine/isci_expander.cpp:127-143 | a discovered expander has below it exactly what its ports show, at any depth, with every cache right and no device twice |
| Discovery.DiscoverController | lib/engine/isci.cpp:84-90 | after the ports' discovery the lists of a controller and of every device below it describe the tree that was found |
| Discovery.DiscoveredListsFlatten | lib/engine/controller.cpp:294-309 | at a discovered controller the lists of all devices are, as multisets, the flattening of what lies below |
| Discovery.CachedListsFlatten | lib/engine/routing_device.cpp:102-124 | and so they are at every routing device of the tree |
| Discovery.ForestClimbs | lib/engine/remote_port.cpp:75-88 | from any disk of a joined tree, through any depth of routing devices, the climb ends at the controller on top |
| Discovery.ListedClimbs | lib/engine/controller.cpp:294-300 | every disk a discovered controller lists climbs to that controller |
| Discovery.ClimbEndsWhereListed | lib/engine/controller.cpp:294-300 | among separately discovered controllers a disk climbs to exactly the one that lists it |
| Discovery.DiscoverAll | lib/engine/session.cpp:112-159 | whatever is found behind whatever controllers, all are discovered, and the session holds every device below them exactly once |
| Discovery.AttachDiscovered | lib/engine/array.cpp:546-554 | over discovered controllers, each lists an array or volume exactly once iff it did before or its getEndDevices(all) has a member disk |
| Discovery.Initialize | lib/engine/session.cpp:105-177 | end to end, with no assumption: after discovering any controllers and attaching any arrays and volumes, the caches are right, the session has every device once, and a controller lists an array or volume once iff its getEndDevices(all) has a member disk, and else not at all |
| Isci.Phy.Discover | lib/engine/isci_phy.cpp:46-68 | joins the controller's port with the phy's path, creating it only when there is none, and leaves every other port alone |
| Isci.Controller.GetPortByPath | lib/engine/isci.cpp:94-102 | a port with the path, and none iff there is none |
| Isci.Controller.Discover | lib/engine/isci.cpp:63-91 | for any hosts, the j-th phy of a host has four times the host's number plus j and its own port path; after the loop each path has one port holding exactly the phys with that path |
| Isci.WithPathMembers | lib/engine/port.cpp:171-175 | the phys with a path, each once |
| Isci.PortsPartitionPhys | lib/engine/isci.cpp:84-102 | two phys share a port iff their paths are equal, each phy is in exactly its own port's list, and no port is without a phy |
| Capacity.Array.DetermineTotalAndFreeSize | lib/engine/array.cpp:563-599 | free is at most total on every input; without a volume all is free and with several nothing; with one, when nothing overflows, free is the smallest disk less component, 4096 reserved and 2210 metadata sectors, for every disk, or nothing exactly when that is negative or below the strip size |
| Capacity.Disk.DetermineBlocksFree | lib/engine/end_device.cpp:528-579 | a disk in no volume has all its blocks free, one in several volumes none; in one volume, when nothing overflows, the sectors of the smallest disk less component, 4096 reserved and 2210 metadata sectors, or none exactly when that is negative or below the strip size |
| Capacity.BoundsSuffice | lib/engine/array.cpp:563-599 | under bounds that real arrays meet neither the array's nor any disk's computation overflows 64 bits |
| Capacity.LeastIsSome | lib/engine/array.cpp:566-571 | the smallest size is the size of one of the disks |
| Capacity.RoundingError | lib/engine/end_device.cpp:528-579 | rounding total and component to sectors separately moves the difference by less than one sector, and not at all when both are whole |
| Capacity.FreeSpacesAgree | lib/engine/array.cpp:424-430 | for one volume over all disks with a sector size that is not zero, the array's free bytes per disk and a disk's free sectors in bytes differ by less than one sector, and not at all when the sector size divides the smallest disk and the component |
| Capacity.Array.DetermineSizes | lib/engine/array.cpp:424-430 | the same about the sizes the array and its disks end up with, within the bounds and where neither was cut off |
| Capacity.ZeroSectorSizeAgreesIff | lib/engine/end_device.cpp:539-544 | for sector size zero the two agree within a sector exactly when less than a sector is free |
| Growing.Array.AddSpare | lib/engine/array.cpp:124-171 | no command if and only if some device is no block device, or is not a spare of this array and has no controller, is a system disk, is in use or is not normal; otherwise one command that names exactly the disks not already spares of this array |
| Growing.Array.GetSpareableEndDevices | lib/engine/array.cpp:456-466 | the disks that are not spares of any array, in order; a device that is no block device makes it follow a null pointer |
| Growing.Array.RemoveSpare | lib/engine/array.cpp:267-299 | refused exactly when unforced and the device is not a block device that is a spare of this array in one of three states; the superblock is cleared exactly after the disk was let go |
| Growing.Array.RemoveSpares | lib/engine/array.cpp:302-313 | every disk is attempted whatever happened before, and success is reported iff every command issued succeeded |
| Growing.Array.Grow | lib/engine/array.cpp:186-205 | for every behaviour of mdadm the exact commands: none if busy or a device fails validation; growing to as many disks as there are array members and given devices; and after a failed growth the removal of exactly what was added |
| Growing.SpareableAreNew | lib/engine/array.cpp:192-193 | on validated disks the two notions of "not a spare yet" agree, so the rollback list is the list that was added |
| Growing.ForeignSpareDiffers | lib/engine/array.cpp:456-466 | on a spare of another array they would differ |
| Growing.RollbackRemovesExactly | lib/engine/array.cpp:302-313 | whatever mdadm answers, the rollback attempts exactly the given disks in order and clears a superblock right behind every successful removal and nowhere else |
| Monitor.MissingName | tools/ssieventmonitor.cpp:259-279 | the nested loops report a missing name iff the first list's names are not all in the second, whatever the order and repetitions |
| Monitor.MembersDiffer | tools/ssieventmonitor.cpp:282-289 | two slots differ iff their sets of names do |
| Monitor.ListsDiffer | tools/ssieventmonitor.cpp:291-318 | reports a difference iff some container of the first buffer has no equal first partner in the second |
| Monitor.ChangedIffDevicesDiffer | tools/ssieventmonitor.cpp:320-328 | with distinct numbers a change is reported iff the snapshots differ as maps from number to set of names |
| Monitor.Monitor.FreeMembers | tools/ssieventmonitor.cpp:169-178 | deletes every node of a list, each of them allocated until then |
| Monitor.Monitor.ClearOther | tools/ssieventmonitor.cpp:226-237 | frees the older snapshot and nothing of the newer one |
| Monitor.Monitor.Collect | tools/ssieventmonitor.cpp:330-350 | the container goes to the first free slot and is dropped when there is none |
| Monitor.Monitor.Read | tools/ssieventmonitor.cpp:352-390 | afterwards the current buffer holds the reading, whole up to ten containers and the first ten otherwise, and the other one the snapshot before, and every live node is owned once |
| Monitor.Monitor.MembersChanged | tools/ssieventmonitor.cpp:320-328 | compares the two snapshots in both directions |
| Monitor.Monitor.HandleMdstat | tools/ssieventmonitor.cpp:392-400 | a poll notifies iff the two snapshots differ |
| Monitor.Monitor.HandleInotify | tools/ssieventmonitor.cpp:435-490 | each event of the watched directory notifies and then reads; other events do neither |
| Monitor.Monitor.Watch | tools/ssieventmonitor.cpp:498-559 | any run of polls and batches moves the monitor as its specification says |
| Monitor.OwnedUpdate | tools/ssieventmonitor.cpp:169-195 | changing one slot changes the owned nodes by exactly that slot's list |
| Monitor.EachNodeOnce | tools/ssieventmonitor.cpp:226-237 | no node is in both buffers or twice in one, and none is lost |
| Monitor.BuffersHoldLastTwoReadings | tools/ssieventmonitor.cpp:352-390 | after every run the buffers hold the last reading and the one before it |
| Monitor.ChangeIsAnnounced | tools/ssieventmonitor.cpp:392-490 | a step whose snapshot differs from the one before has notified within it; a poll notifies only then |
| Monitor.BatchNotifiesEveryReading | tools/ssieventmonitor.cpp:472-480 | a batch notifies once for each reading it makes |
| Monitor.NoChangeGoesUnannounced | tools/ssieventmonitor.cpp:498-534 | over every run there are at least as many notifications as changes from one reading to the next |
| Semaphore.StepKeepsBound | tools/ssimsg.cpp:52-66 | no step raises value plus pending posts above the number of notifiers |
| Semaphore.BoundedOverRuns | tools/ssimsg.cpp:52-66 | over every interleaving value plus pending posts never exceeds the number of notifiers, or what it began with |
| Semaphore.OneNotifierIsBinary | tools/ssimsg.cpp:52-66 | with one notifier the value is at most one, and zero while a post is pending |
| Semaphore.BoundIsReached | tools/ssimsg.cpp:52-66 | the bound is tight for every number of notifiers, because the check and the post are separate steps |
| Semaphore.NoWakeupIsLost | tools/ssimsg.cpp:52-66 | if a run returned 0 and no wait succeeded since it started, the next wait does not block |
| Semaphore.ReadValueCanBeConsumed | tools/ssimsg.cpp:52-58 | counting from the return instead would be wrong: a value that was read can be consumed before the run returns 0 |
| Semaphore.FailureHasNotPosted | tools/ssimsg.cpp:60-66 | a run that returns -1 has posted nothing |
| Semaphore.PostsAreConserved | lib/engine/event.cpp:59-83 | the value is what it began with plus the posts less the successful waits |
| Semaphore.LimitIsExactForWholeSeconds | lib/engine/event.cpp:68-69 | a wait's time limit is the requested one exactly for whole seconds, and otherwise too short by 0.999 milliseconds for each of the milliseconds over |

## Left out

- Slices.AppendConcatenatesIff: is the exact condition; for other receivers `Strings.String.Append` states what is written instead.
- Strings.String.Trim: is stated for well-formed contents, which every assigned string has; on others only the invariant is.
- Lines.SplitStringToLines: takes the default newline separator only; every caller uses it.
- Lines.JoinWindow: leaves out the 32-bit wrap-around of the sum of linesNum and offset, which no caller comes near.
- Topology.Port.AttachPort: requires one end to be a remote port, because two plain ports call each other forever.
- Topology.Port.Attach: requires a ranked world, because the climb through a cycle of links never ends; discovery establishes one.
- Topology.RoutingDevice.AddToSession: requires a finite tree of directly attached devices, because the recursion through a cycle never ends.
- Topology.Controller.AddToSession: covers end devices and routing devices; phys, ports, enclosures, arrays and volumes of the same loop are plain additions.
- Discovery.DiscoverPort: takes what the directories show as its argument; an enclosure counts as nothing found, and an expander has the subtractive port that its phys' discovery sets.
- Capacity.Array.DetermineSizes: says nothing about sizes that were cut off, because the two strip-size cut-offs use different thresholds.
- Sessions.Context.OpenSession: discovery is an arbitrary script of objects added under any kind, with repetitions; which devices a real system yields is not modelled.
- Sessions.Context.RemoveArray: has the registry's part only; the mdadm commands and retries around it are not modelled.
- Monitor.Monitor.Read: takes the containers that the reading loop got to collect; the tokenising of mdstat lines, the device number parsed from them and failed reads of the file are part of that argument.
- Monitor.ChangedIffDevicesDiffer: requires distinct device numbers within each snapshot; numbers are not negative.
- Monitor.Monitor.HandleInotify: an event is either of the watched directory or not; record lengths in the inotify buffer are not modelled.
- The parsers work on byte values rather than on string objects: every query of a string object is a function of its bytes, which `Strings` proves.
- The nine containers of a session are one table by kind, and the four device containers of a routing device one value; aliasing between the containers is not possible in the source.
- Expired weak pointers, allocation failures and library shutdown.
- `HandleManager::operator[]`, which enters an empty pointer for an unknown handle; the modelled operations do not call it.
- `Container::getHandles` and `Container::remove`, string comparison, copying out of a string and number formatting: settled by reading one body.
- Enclosures in the device tree, raid information and the per-kind getters of a session: the same shapes as the members modelled.
- Sysfs, ioctl and process execution, mdadm itself, option ROM scanning and semaphore creation and deletion.
