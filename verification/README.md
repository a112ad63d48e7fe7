# Verified models of the agent's algorithms

Dafny models of the self-contained algorithms of the agent, with proofs of what they are for. Each module follows one
source file or component. Code that changes buffers, counters, lists and maps step by step is modelled by methods and
classes that do the same; each is proved against a specification function, and the lemmas beside it say what that
function means.

- **Device names** (`Text`, `Arithmetic`, `Numeration`, `DeviceNames`, `DeviceNamesUnique`, `DeviceConfig`,
  `LoadedNames`): the number writer, the table filled from configuration records, and the name of a (major, minor) pair
  in 32-bit arithmetic.
- **Span ids** (`Bytes`, `Hex`, `SpanIds`, `SegmentIds`, `SpanTree`): hexadecimal decoding, the XOR loops, the 16-to-8
  fold, and the parent/child relation of an exported segment. Exclusive or is defined bit by bit on numbers.
- **In-place algorithms** (`Interrupts`, `MountText`, `MountLines`, `MountBuffer`, `RangeList`, `NaturalOrder`): the
  interrupt matrix with its totals, the mountinfo splitter and unescape on a byte buffer, range lists into a bitmap, and
  the natural order of names.
- **Caches and indexes** (`Finite`, `LruSpec`, `LruCache`, `Registration`, `NameIndex`): the least-recently-used cache,
  the registration de-duplication built on it, and the name index, whose maps hold plain references to objects owned
  by other maps. An object counts as released when no owning map holds it any more.
- **State machines** (`RequestLimit`, `Doubles`, `AverageStep`, `RunningAverage`, `MetricAggregator`): request limiting
  as interleaved atomic steps of any number of threads and completions, and counting, averaging (with 64-bit wrap-around
  and the conversion to a double) and batching of call metrics.
- **Regrouping and merging** (`SpanGroups`, `Headers`): spans grouped by resource and scope, and two header lists
  merged (OpenTelemetry Protocol Exporter specification, section "Configuration Options").

## What the proofs found

- `ioc_ito26` gives the empty text for 2^32-1, where the increment wraps, and for no other number.
- Names with an explicit controller drop the minor bits above 8: such names collide exactly when the partition count
  divides 256. Without an explicit controller names are injective, and the partition count need not divide 256.
- With decimal disk numbers directly behind an explicit controller number, different controllers share names.
- A mount whose root is empty, or starts with a vertical tab, form feed or carriage return, is not read back: the scan
  for the device numbers skips those bytes too.
- A segment id of more than 32 characters that is not a number, and whose first dot is not right behind the first 32,
  gives every span the all-zero id. In a decodable segment at most one span number has that id; which one can be read
  off the segment id, and children of that span are exported as roots.
- A segment id with a single dot right behind the first 32 characters always ends in an exception: the text between the
  dots is empty, and reading a number from it throws.
- The relation of an incoming call is registered only together with its service. Registering a service the sink has
  room for takes the contents of the message, so the second look-up then asks for id 0; in all other cases it asks for
  the service that was put just before and finds it. A new caller of a known service is therefore never registered.
- A service that is set or removed with fewer peers than the stored one of its name (for example one port less, or
  the same name in another namespace) leaves a peer that leads to the released service. Endpoints never do.
- An address listed by two endpoints can be lost to the one that still lists it.
- `running` can pass the limit by one less than the number of threads in the exporter, and by that number in the sink,
  and both bounds are reached.
- The running average stays within one of the exact weighted sum for latencies up to 2^52. Beyond that the conversion to
  a double can leave the bounds on either side, and a sum past 64 bits wraps; a span that ends before it starts has such
  a latency. The exact condition is proved for one step and for whole lists.
- Header lists: an item whose key is spelled as no earlier one drops what the list itself gave for that key before, so
  a key is kept completely exactly when it is spelled in one way.
- `nstrcmp` takes "eth" and "eth0" for equal: a missing number counts as zero.
- The comment above `rindex_nondigit` promises -1 for a name without trailing digits; the code returns the length.

## Model

| member | source | states |
|---|---|---|
| `Numeration.IocConv` | app/source/source/host/collector/iostat/ioconf.cc:68-96 | the backwards writing loop: for either radix and every 32-bit number the text before the terminator is exactly the numeral, at most ten of the sixteen cells are used, and the extra decrement never goes below zero |
| `Numeration.Ito10Exact` | app/source/source/host/collector/iostat/ioconf.cc:98-101 | decimal writing and reading undo each other: a text is the output for n exactly when it is the canonical numeral that reads as n |
| `Numeration.Ito26Exact` | app/source/source/host/collector/iostat/ioconf.cc:103-106 | zero-less letters are a bijection: below 2^32-1 a word is the output for n exactly when it is a non-empty word over a..z that reads as n+1 |
| `Numeration.Ito26Empty` | app/source/source/host/collector/iostat/ioconf.cc:75-84 | the one number without letters is 2^32-1, because the increment wraps; every other number has some |
| `Numeration.Ito26Monotone` | app/source/source/host/collector/iostat/ioconf.cc:103-106 | numeric order is shorter-then-alphabetical order of the letters, in both directions |
| `DeviceNames.UnitNumber` | app/source/source/host/collector/iostat/ioconf.cc:406-414 | the 32-bit sum of controller, high minor bits and disk is the mixed-radix unit number modulo 2^32 |
| `DeviceNames.MachineBase` | app/source/source/host/collector/iostat/ioconf.cc:406-409 | controller and high minor bits added up in 32-bit steps give the exact base modulo 2^32 |
| `DeviceNames.DeviceTable.constructor` | app/source/source/host/collector/iostat/ioconf.cc:142-143 | the tables start empty and with zero reference counts |
| `DeviceNames.DeviceTable.ApplyIndirect` | app/source/source/host/collector/iostat/ioconf.cc:166-211 | an indirect record changes the table as the record rules say: range and forward-reference rejections, the reference count of the referent, the shared description |
| `DeviceNames.DeviceTable.ApplyDirect` | app/source/source/host/collector/iostat/ioconf.cc:228-321 | a full record, or an exception record on an existing major, changes the table as the record rules say |
| `DeviceNames.DeviceTable.IocInit` | app/source/source/host/collector/iostat/ioconf.cc:145-322 | reading all records applies them in order |
| `DeviceNames.DeviceTable.IocName` | app/source/source/host/collector/iostat/ioconf.cc:366-431 | the name computed in 32-bit steps is the specified name: range check, no device, exception record, controller, disk and partition text |
| `DeviceNamesUnique.UnitAndPartitionDecode` | app/source/source/host/collector/iostat/ioconf.cc:420-429 | disk text followed by partition text can be read back to the disk unit and the partition |
| `DeviceNamesUnique.UnitDetermines` | app/source/source/host/collector/iostat/ioconf.cc:406-414 | without an explicit controller the unit number fixes controller, high minor bits and disk |
| `DeviceNamesUnique.MinorDetermined` | app/source/source/host/collector/iostat/ioconf.cc:411-429 | high bits, disk and partition fix the minor, whether or not partitions divide 256 evenly |
| `DeviceNamesUnique.NamesInjective` | app/source/source/host/collector/iostat/ioconf.cc:366-431 | device names are injective: two regular minors of one driver family have the same name exactly when major and minor are the same |
| `DeviceNamesUnique.ExplicitControllerNames` | app/source/source/host/collector/iostat/ioconf.cc:406-429 | with an explicit controller of any 32-bit number the name fixes exactly major, disk and partition, and nothing of the high minor bits, if a non-digit separates controller and disk number |
| `DeviceNamesUnique.ExplicitControllerCollision` | app/source/source/host/collector/iostat/ioconf.cc:411-414 | the collision that leaves: minors 256 apart share a name exactly when the partition count divides 256 |
| `DeviceNamesUnique.UnseparatedCollision` | app/source/source/host/collector/iostat/ioconf.cc:286-303 | with decimal disks right behind the controller number names do run together: disk 11 of controller 1 and disk 1 of controller 11 |
| `DeviceConfig.LoadDriver` | app/source/source/host/collector/iostat/ioconf.cc:145-322 | a full record followed by short records with distinct controllers loads as one family whose reference count is the number of short records |
| `DeviceConfig.LoadedNamesInjective` | app/source/source/host/collector/iostat/ioconf.cc:145-431 | end to end: after loading such lines, names of the driver tell its devices apart, both directions |
| `DeviceConfig.ArrayControllerCollides` | app/source/source/host/collector/iostat/ioconf.cc:145-431 | a concrete record with an explicit controller: once it is loaded, minors 0 and 256 have one name |
| `LoadedNames.LoadedName` | app/source/source/host/collector/iostat/ioconf.cc:145-431 | for every minor of a loaded driver the result read off the fields of its full record: out of range, "nodev", no conversion, or the base name, the controller text and number unless `cfmt` starts with a star, the disk in letters or decimal behind its prefix, and the partition number behind `pfmt` |
| `LoadedNames.OtherMajors` | app/source/source/host/collector/iostat/ioconf.cc:372-389 | a major no record mentions is "nodev", and numbers beyond the table have no name |
| `LoadedNames.DroppedExactly` | app/source/source/host/collector/iostat/ioconf.cc:166-277 | a record leaves the table as it is exactly when its numbers are out of range, its referent is not yet seen, or it is an exception record without a base record or after another exception |
| `LoadedNames.SelfReference` | app/source/source/host/collector/iostat/ioconf.cc:203-209 | a short record that names its own major as referent leaves a major without a description |
| `LoadedNames.ExceptionNamed` | app/source/source/host/collector/iostat/ioconf.cc:246-277 | an exception record names exactly its minor, for every major that shares the description, and changes no other name |
| `LoadedNames.ScsiNames` | app/source/source/host/collector/iostat/ioconf.cc:145-431 | three names in full: (8,1) is sda1, (8,16) is sdb, and (65,10) is sdq10 when major 65 is the second controller of major 8 |
| `Hex.DecodersAgree` | app/include/common/hex.h:24-30 | for every character the fast digit decoder equals the checked one exactly on hexadecimal digits |
| `Hex.AnyDigitDecoded` | app/include/common/hex.h:24-30 | what the fast decoder makes of any byte, hexadecimal or not: the low half plus nine times the upper two bits, which are signed |
| `Hex.HexRoundTrip` | app/include/common/hex.h:18-30 | decoding an even number of hexadecimal digits and writing the bytes back gives the lower-cased text |
| `Hex.HexBytesRead` | app/include/common/hex.h:111-119 | each byte is sixteen times its first digit plus its second |
| `Hex.HexDecode` | app/include/common/hex.h:111-119 | the two-argument decoding loop fills the 16 bytes with the decoding of 32 characters |
| `SpanIds.XorBytes` | app/source/intercept/opentelemetry/trace/skywlking/skywalkingproto_to_traces_util.cc:111-114 | the shifting loop XORs the low bytes of a number, lowest first, onto a stretch of the buffer and touches nothing else |
| `SpanIds.SwStringToUUID` | app/source/intercept/opentelemetry/trace/skywlking/skywalkingproto_to_traces_util.cc:95-149 | short, malformed and non-numeric ids are told apart as the code does; every other id gives UUID(start) XOR (le32(extra), le32(mid), le64(last)) |
| `SpanIds.SwUint128ToUUID` | app/source/intercept/opentelemetry/trace/skywlking/skywalkingproto_to_traces_util.cc:73-93 | the byte loops XOR the span number, the low and the high half of the number onto the buffer |
| `SpanIds.UuidTo8Bytes` | app/include/intercept/opentelemetry/trace/skywalking/skywalkingproto_to_traces_util.h:22-27 | the loop XORs the two halves onto each other |
| `SpanIds.FillUuid` | app/source/intercept/opentelemetry/trace/skywlking/skywalkingproto_to_traces_util.cc:52-69 | a zeroed buffer receives the UUID of a decodable id; the number form and the string form are chosen as the code does |
| `SpanIds.SegmentIDToSpanID` | app/source/intercept/opentelemetry/trace/skywlking/skywalkingproto_to_traces_util.cc:47-71 | the span id is the specified one in each case: too short, number, exception, malformed (all zero), folded UUID |
| `SegmentIds.StoLExactly` | app/source/intercept/opentelemetry/trace/skywlking/skywalkingproto_to_traces_util.cc:135-138 | a text reads as v exactly when it starts, behind white space, with an optional sign and digits that denote v, and v fits a long; what follows is ignored |
| `SegmentIds.ThreePartId` | app/source/intercept/opentelemetry/trace/skywlking/skywalkingproto_to_traces_util.cc:100-146 | on the text of the id: the signed number between the first and the last dot goes to bytes 4 to 7, the one behind the last dot to bytes 8 to 15, the span number to bytes 0 to 3, all XORed onto the 32 characters in front, and the halves are folded |
| `SegmentIds.AgentId` | app/source/intercept/opentelemetry/trace/skywlking/skywalkingproto_to_traces_util.cc:100-146 | the form agents write, digits between and behind the dots |
| `SegmentIds.UnreadableId` | app/source/intercept/opentelemetry/trace/skywlking/skywalkingproto_to_traces_util.cc:134-138 | an exception leaves the call exactly when one of the two texts is no number that fits a long |
| `SegmentIds.OneDotId` | app/source/intercept/opentelemetry/trace/skywlking/skywalkingproto_to_traces_util.cc:121-135 | so does every id with a single dot, because the text between the dots is then empty |
| `SegmentIds.PlainId` | app/source/intercept/opentelemetry/trace/skywlking/skywalkingproto_to_traces_util.cc:104-118 | 32 characters alone: only the span number is XORed on |
| `SegmentIds.NumberId` | app/source/intercept/opentelemetry/trace/skywlking/skywalkingproto_to_traces_util.cc:55-93 | 32 to 40 digits are one number modulo 2^128, whose low half goes to bytes 4 to 7 and whose high half goes to bytes 8 to 15 |
| `SegmentIds.MalformedId` | app/source/intercept/opentelemetry/trace/skywlking/skywalkingproto_to_traces_util.cc:120-124 | any other id of more than 32 characters whose first dot is not right behind them has the all-zero span id |
| `SegmentIds.ShortId` | app/source/intercept/opentelemetry/trace/skywlking/skywalkingproto_to_traces_util.cc:47-50 | fewer than 32 characters give the null span |
| `SegmentIds.SmallId` | app/source/intercept/opentelemetry/trace/skywlking/skywalkingproto_to_traces_util.cc:47-71 | one id in figures: start ab00..., middle 12, last 258, span 1 |
| `SpanTree.TripleInjective` | app/source/intercept/opentelemetry/trace/skywlking/skywalkingproto_to_traces_util.cc:100-107 | for a fixed start the three-part decoding is equal exactly when extra and mid agree modulo 2^32 and last modulo 2^64 |
| `SpanTree.FoldInjective` | app/source/intercept/opentelemetry/trace/skywlking/skywalkingproto_to_traces_util.cc:47-71 | folding to 8 bytes loses no span: within a decodable segment ids are equal exactly when span numbers are, modulo 2^32 |
| `SpanTree.SpanIdsDistinct` | app/source/intercept/opentelemetry/trace/skywlking/skywalkingproto_to_traces_util.cc:120-124 | among 32-bit span numbers ids are distinct exactly when the segment id is not malformed |
| `SpanTree.ExportSpan` | app/source/intercept/opentelemetry/trace/skywlking/processor.cc:82-108 | one loop step gives the id and the parent id the parent rules say: local parent, single reference, none |
| `SpanTree.Process` | app/source/intercept/opentelemetry/trace/skywlking/processor.cc:73-157 | the whole segment is exported span by span, in order |
| `SpanTree.ExportAllMeans` | app/source/intercept/opentelemetry/trace/skywlking/processor.cc:73-157 | either every span has its export at its own place, or some span needs a segment id that cannot be used |
| `SpanTree.ExportExactly` | app/source/intercept/opentelemetry/trace/skywlking/processor.cc:82-108 | a span is exported as (id, parent) exactly when its own id is computed and so is that of its parent: the span of that number in the segment, the referenced one if there is a single reference, all zero otherwise |
| `SpanTree.IdsKept` | app/source/intercept/opentelemetry/trace/skywlking/processor.cc:82-88 | exported span ids are equal exactly when the span numbers are |
| `SpanTree.LocalParentKept` | app/source/intercept/opentelemetry/trace/skywlking/processor.cc:96-99 | the parent id of a span is the id of exactly the span with the parent number |
| `SpanTree.RemoteParentKept` | app/source/intercept/opentelemetry/trace/skywlking/processor.cc:100-104 | a single reference to another segment points at exactly the span that segment exports under that number |
| `SpanTree.RootExactly` | app/source/intercept/opentelemetry/trace/skywlking/processor.cc:89-108 | a span is exported as a root exactly when the id of the parent in its segment vanishes, or without such a parent when it does not have a single reference or the id of that vanishes |
| `SpanTree.VanishingIsRare` | app/source/intercept/opentelemetry/trace/skywlking/skywalkingproto_to_traces_util.cc:47-71 | at most one span number of a decodable segment has the all-zero id |
| `SpanTree.VanishesExactly` | app/source/intercept/opentelemetry/trace/skywlking/skywalkingproto_to_traces_util.cc:47-71 | which number that is, read off the parsed id: the first half of the start bytes, XORed with the second half and le64(last), is le32(number) followed by le32(mid) |
| `SpanTree.EqualHalvesVanish` | app/source/intercept/opentelemetry/trace/skywlking/skywalkingproto_to_traces_util.cc:47-71 | a family that does vanish: span 0 of every segment id that is one half of 16 characters, not all digits, written twice |
| `SpanTree.VanishingSpan` | app/source/intercept/opentelemetry/trace/skywlking/skywalkingproto_to_traces_util.cc:47-71 | one such id |
| `Interrupts.ReadHeader` | app/source/source/host/collector/iostat/rd_stats.cc:198-213 | the processors taken from the header are a prefix of bounded length, rejected exactly when one does not fit the buffer |
| `Interrupts.Accumulate` | app/source/source/host/collector/iostat/rd_stats.cc:247-258 | one counter goes to its own cell and onto the totals of its interrupt and its processor |
| `Interrupts.ReadLine` | app/source/source/host/collector/iostat/rd_stats.cc:223-260 | one line keeps every cell and total exact modulo 2^32 |
| `Interrupts.ReadStatIrq` | app/source/source/host/collector/iostat/rd_stats.cc:174-274 | all writes stay inside nr_alloc*nr_int cells for any input, and the buffer is rejected exactly when a processor does not fit; from a zeroed buffer and distinct processors cell j of block c+1 is the counter processor c has in line j, the first cell of a block is the sum of its line or column, block 0 holds the sums over processors, and all else is zero, modulo 2^32 |
| `Interrupts.ReadLines` | app/source/source/host/collector/iostat/rd_stats.cc:220-261 | the loop over the lines leaves that matrix |
| `Interrupts.FilledIsMatrix` | app/source/source/host/collector/iostat/rd_stats.cc:223-260 | a buffer filled line by line is the matrix stated on the lines themselves, counters in the order of the processors, missing counters zero |
| `Interrupts.SmallMatrix` | app/source/source/host/collector/iostat/rd_stats.cc:223-260 | one line 7 3 for two processors in figures |
| `Interrupts.TotalsAgree` | app/source/source/host/collector/iostat/rd_stats.cc:245-260 | adding the matrix up by rows or by columns gives the same number |
| `Interrupts.TotalsConserved` | app/source/source/host/collector/iostat/rd_stats.cc:220-261 | conservation modulo 2^32: each "all" cell, each processor total and the grand total (both ways) is the sum of its parts |
| `MountText.UnescapeEscape` | app/source/common/file.cc:91-111 | unescaping undoes octal escaping whatever bytes are escaped, as long as the backslash is one of them |
| `MountText.MountRoundTrip` | app/source/common/file.cc:123-166 | printing a mount and reading the line back gives its four strings for any options and any optional fields other than a lone dash |
| `MountText.EatenRoot` | app/source/common/file.cc:125-135 | a root the scan cannot see (empty, or starting with vertical tab, form feed or carriage return) is read back as something else |
| `MountText.MountRoundTripExact` | app/source/common/file.cc:123-166 | the round trip holds for all options and optional fields exactly when the root is visible to the scan |
| `MountLines.ParsedExactly` | app/source/common/file.cc:123-166 | for every line, printed or not: it is accepted with certain fields exactly when, behind white space, root, target, anything, " - ", type and source stand between single blanks and decode to them, the separator being the first one |
| `MountLines.NothingEscaped` | app/source/common/file.cc:91-111 | text without a backslash and three octal digits up to 377 is left as it is |
| `MountLines.FirstEscape` | app/source/common/file.cc:91-111 | the first such escape becomes its byte and the rest is read on its own |
| `MountBuffer.TerminateAtBlank` | app/source/common/file.cc:34-41 | puts a terminator over the first blank, and only there |
| `MountBuffer.FindSeparator` | app/source/common/file.cc:147 | finds the first separator that the text specification finds |
| `MountBuffer.SplitFromTarget` | app/source/common/file.cc:140-160 | cuts target, type and source in order and changes nothing in front of the target |
| `MountBuffer.UnescapeTab` | app/source/common/file.cc:91-111 | in place, reading ahead of writing: the buffer holds the unescaped string and nothing outside it changes |
| `MountBuffer.SplitLine` | app/source/common/file.cc:134-160 | cuts the line into its four fields, or rejects it, exactly as the text specification says |
| `MountBuffer.UnescapeFields` | app/source/common/file.cc:162-166 | unescaping the four fields one after the other does not disturb the others |
| `MountBuffer.ParseMountLine` | app/source/common/file.cc:123-166 | the in-place parser computes the text specification that the round trip is proved about |
| `MountBuffer.ReadBack` | app/source/common/file.cc:123-166 | the round trip through the in-place parser: a printed line in a buffer is split and unescaped there into its mount, for every root the scan can see |
| `RangeList.CountBits` | app/source/source/host/collector/iostat/common.cc:703-719 | the nested bit loop returns the number of set bits |
| `RangeList.BitMeans` | app/source/source/host/collector/iostat/common.cc:703-719 | bit k of a byte is the one worth 2^k |
| `RangeList.AtoiMeans` | app/source/source/host/collector/iostat/common.cc:1222 | numbers that do not fit int are cut to 32 signed bits, and from 2^63 on all read as -1 |
| `RangeList.ParseValstr` | app/source/source/host/collector/iostat/common.cc:1213-1227 | a text is accepted exactly when it is empty (value -1) or a number below the limit, and the value is that number, as long as it fits int |
| `RangeList.SetBit` | app/source/source/host/collector/iostat/common.cc:1327-1329 | sets one bit and keeps all others |
| `RangeList.FillBitmap` | app/source/source/host/collector/iostat/common.cc:1308-1312 | sets every bit of the first bytes and keeps the bytes behind them |
| `RangeList.RangeMeaning` | app/source/source/host/collector/iostat/common.cc:1213-1280 | for tokens of at most 15 characters with numbers that fit int, acceptance and both ends mean exactly a value n, a range n-m or an open range n- |
| `RangeList.LongTokens` | app/source/source/host/collector/iostat/common.cc:1247-1280 | a token of more than 15 characters is cut to 15 if there is a dash among those, and is a value otherwise |
| `RangeList.TokensOfJoined` | app/source/source/host/collector/iostat/common.cc:1314 | cutting at commas finds the joined tokens again |
| `RangeList.SetToken` | app/source/source/host/collector/iostat/common.cc:1314-1330 | a token sets exactly the bits it selects or is rejected without effect |
| `RangeList.ParseValues` | app/source/source/host/collector/iostat/common.cc:1303-1334 | on success exactly the selected bits are added; on failure exactly those of the tokens before the first malformed one; ALL fills the bitmap and nothing beyond it |
| `RangeList.SelectionCounted` | app/source/source/host/collector/iostat/common.cc:703-719 | from an empty bitmap the bits set are the selection and their count is its size |
| `RangeList.ItemSelects` | app/source/source/host/collector/iostat/common.cc:1247-1330 | a written keyword, value, range or open range is accepted and selects exactly its own bits |
| `RangeList.ReadWritten` | app/source/source/host/collector/iostat/common.cc:1303-1334 | end to end: a list written from such items, read into an empty bitmap, sets exactly the bits of its items, and counting them gives their number |
| `NaturalOrder.CutAlias` | app/source/common/util.cc:29-46 | finds a numeric alias and writes a terminator over its colon, nothing else |
| `NaturalOrder.RindexNondigit` | app/source/common/util.cc:49-59 | returns where the trailing digits start |
| `NaturalOrder.StrNCmp` | app/source/common/util.cc:73 | the sign is the comparison of the two prefixes |
| `NaturalOrder.CompareStems` | app/source/common/util.cc:67-94 | compares text first and number second |
| `NaturalOrder.NStrCmp` | app/source/common/util.cc:62-113 | the result is negative exactly when the first key comes before: its text has the smaller character at the first difference or ends first, or with equal texts the number is smaller, or with equal numbers the alias; it is zero exactly when the keys are equal |
| `NaturalOrder.CompareKeysIs` | app/source/common/util.cc:72-112 | the comparison of keys is that order, in both directions |
| `NaturalOrder.NumbersInOrder` | app/source/common/util.cc:84-94 | names that differ in the trailing number only are in the order of the numbers |
| `NaturalOrder.BridgesFirst` | app/source/common/util.cc:62-113 | br0 comes before eth0 |
| `NaturalOrder.NamesOrdered` | app/source/common/util.cc:62-113 | a total preorder on all names: antisymmetric in sign, transitive, and zero exactly when the keys are equal |
| `NaturalOrder.KeysOrdered` | app/source/common/util.cc:72-112 | the comparison is a total order on keys |
| `NaturalOrder.KeyOfParts` | app/source/common/util.cc:29-59 | the key of a name put together from text, digits and alias consists of exactly those parts |
| `NaturalOrder.MissingNumberIsZero` | app/source/common/util.cc:84-94 | a name without a number equals the same name with a zero |
| `NaturalOrder.EthIsEth0` | app/source/common/util.cc:84-94 | for example eth and eth0 |
| `NaturalOrder.NoTrailingNumber` | app/source/common/util.cc:48-59 | the split point is the length of the name exactly when no digit is last |
| `LruCache.LruCache.constructor` | app/include/common/lrucache.h:22-24 | an empty, valid cache |
| `LruCache.LruCache.Put` | app/include/common/lrucache.h:26-42 | list and map still describe the same entries, and the contents are the new front, the other keys, and no last one too many |
| `LruCache.LruCache.PushFront` | app/include/common/lrucache.h:26-34 | the new entry stands in front of the entries of the other keys, in list and map |
| `LruCache.LruCache.Evict` | app/include/common/lrucache.h:36-41 | drops the last entry from list and map exactly when there is one too many |
| `LruCache.LruCache.Get` | app/include/common/lrucache.h:44-53 | returns the value held and moves its entry to the front; a missing key changes nothing |
| `LruCache.LruCache.Exists` | app/include/common/lrucache.h:55-58 | says whether the contents hold the key, without touching the order |
| `LruCache.LruCache.Size` | app/include/common/lrucache.h:60-63 | the number of entries, never above the capacity |
| `LruCache.LruCache.Clear` | app/include/common/lrucache.h:66-70 | nothing is held any more |
| `LruSpec.KeysAreMostRecent` | app/include/common/lrucache.h:26-70 | over every run of put, get and clear the keys held are exactly the most recently used distinct ones since the last clear, in order, as many as fit |
| `LruSpec.ValuesAreLastPut` | app/include/common/lrucache.h:26-70 | over every run each key held has the value of its last put |
| `LruSpec.HitMovesToFront` | app/include/common/lrucache.h:44-53 | a get that finds its key moves that entry to the front and keeps the order of the others |
| `LruSpec.PutAgain` | app/include/common/lrucache.h:26-34 | a put of a held key does the same, with the new value |
| `LruSpec.PutNew` | app/include/common/lrucache.h:26-42 | a new key goes in front, and the last entry leaves a full cache |
| `Registration.RpcAnalysisListener.constructor` | app/include/intercept/opentelemetry/trace/topology/rpc_analysis_listener.h:17-22 | two empty caches of 500 places |
| `Registration.RpcAnalysisListener.TakeService` | app/source/intercept/opentelemetry/trace/topology/rpc_analysis_listener.cc:293-298 | the service is put, handed over if it was not held, and the id then left in its message is returned |
| `Registration.RpcAnalysisListener.TakeIn` | app/source/intercept/opentelemetry/trace/topology/rpc_analysis_listener.cc:292-309 | one incoming call: service and relation enter the shared cache, the service is handed over if it was not held, and the relation if the id then left in the service message is not held |
| `Registration.RpcAnalysisListener.TakeOut` | app/source/intercept/opentelemetry/trace/topology/rpc_analysis_listener.cc:313-333 | one outgoing call: the relation is handed over if it was not held, and the call is measured unless its callee reports it itself |
| `Registration.RpcAnalysisListener.TakeAllIn` | app/source/intercept/opentelemetry/trace/topology/rpc_analysis_listener.cc:292-310 | all incoming calls, in order |
| `Registration.RpcAnalysisListener.TakeAllOut` | app/source/intercept/opentelemetry/trace/topology/rpc_analysis_listener.cc:312-334 | all outgoing calls, in order |
| `Registration.RpcAnalysisListener.Build` | app/source/intercept/opentelemetry/trace/topology/rpc_analysis_listener.cc:291-335 | both lists are worked off in order; caches, handed-over ids and measured calls are what the calls in order lead to |
| `Registration.RpcAnalysisListener.Clear` | app/source/intercept/opentelemetry/trace/topology/rpc_analysis_listener.cc:342-345 | both caches are forgotten together |
| `Registration.RecentMeans` | app/include/common/lrucache.h:26-58 | an id is held exactly when it was used and fewer distinct other ids than there are places were used after it |
| `Registration.RelationSentIff` | app/source/intercept/opentelemetry/trace/topology/rpc_analysis_listener.cc:327-332 | in every state an outgoing relation is handed over exactly when its id is not among the 500 most recently used distinct ones since the last clear |
| `Registration.ServiceSentIff` | app/source/intercept/opentelemetry/trace/topology/rpc_analysis_listener.cc:293-298 | the same for an incoming service, where services and relations share one cache |
| `Registration.SecondLookup` | app/source/intercept/opentelemetry/trace/topology/rpc_analysis_listener.cc:299-304 | a service just put is still held after the relation is put exactly when the cache has two places, or one place and equal ids |
| `Registration.IncomingRelationSentIff` | app/source/intercept/opentelemetry/trace/topology/rpc_analysis_listener.cc:293-304 | the relation of an incoming call is handed over exactly when its service is, the sink takes the message, and id 0 is not held |
| `Registration.RelationFollowsService` | app/source/intercept/opentelemetry/trace/topology/rpc_analysis_listener.cc:293-304 | over every run with non-zero ids a call adds a relation exactly when it adds a service the sink has room for |
| `Registration.WindowUses` | app/source/intercept/opentelemetry/trace/topology/rpc_analysis_listener.cc:312-345 | the relations a window between clears has used are those of its outgoing calls |
| `Registration.PastsAreUses` | app/source/intercept/opentelemetry/trace/topology/rpc_analysis_listener.cc:292-345 | what counts as recent in a window between clears: the service and then the relation of each incoming call, the relation of each outgoing one, newest first |
| `Registration.OncePerWindow` | app/source/intercept/opentelemetry/trace/topology/rpc_analysis_listener.cc:312-345 | between two clears with at most 500 distinct outgoing relations each one is handed over exactly once |
| `Registration.MeasuredExactly` | app/source/intercept/opentelemetry/trace/topology/rpc_analysis_listener.cc:292-326 | over both lists every incoming call is measured, and of the outgoing ones exactly those to something other than a plain service or to an unknown destination, each once and in order |
| `Registration.ClearForgets` | app/source/intercept/opentelemetry/trace/topology/rpc_analysis_listener.cc:342-345 | after a clear every service and every outgoing relation is handed over again |
| `NameIndex.Service.ToPeer` | app/source/common/kubernetes/service.cc:159-177 | the nested loops append the domain, each address, and per port address and domain with the port; the list is filled at most once |
| `NameIndex.PeersGrow` | app/source/common/kubernetes/service.cc:159-177 | with the same name and namespace, more addresses and ports give more peers |
| `NameIndex.EraseKeys` | app/source/common/kubernetes/name_control.cc:26-31 | the erasing loop removes exactly the listed keys |
| `NameIndex.PointKeys` | app/source/common/kubernetes/name_control.cc:37-39 | the assigning loop makes every listed key lead to the object and keeps the others |
| `NameIndex.IpPeersAre` | app/source/common/kubernetes/service.cc:166-174 | a text is a peer through the address loop exactly when it is an address or one of its port entries |
| `NameIndex.PeersExactly` | app/source/common/kubernetes/service.cc:159-177 | the peers are exactly name.namespace.svc.cluster.local, the addresses, and with each port every address and, if there is one, the domain |
| `NameIndex.PortPeerIff` | app/source/common/kubernetes/service.cc:159-177 | a host with a port is a peer exactly when it is one of the addresses, or a listed port of an address or of the domain of a service that has addresses |
| `NameIndex.DomainPeerIff` | app/source/common/kubernetes/service.cc:159-177 | a domain is a peer exactly when it is the own one or one of the addresses |
| `NameIndex.WithPortInjective` | app/source/common/kubernetes/service.cc:169-171 | host and port can be read back from the text, port 0 included |
| `NameIndex.NameControl.SetService` | app/source/common/kubernetes/name_control.cc:20-42 | the owning map has the service under its name; each of its peers leads to it, and every other text leads where it led before |
| `NameIndex.NameControl.RemoveService` | app/source/common/kubernetes/name_control.cc:44-59 | if a service of the name is stored it is dropped and none of the peers of the given one leads anywhere; all else stays |
| `NameIndex.NameControl.SetEndpoint` | app/source/common/kubernetes/name_control.cc:102-119 | each address of the endpoint leads to it, the other addresses of the one it replaces lead nowhere, and all else stays |
| `NameIndex.NameControl.RemoveEndpoint` | app/source/common/kubernetes/name_control.cc:121-133 | the addresses of the stored endpoint of that name lead nowhere, and all else stays |
| `NameIndex.NameControl.SetPod` | app/source/common/kubernetes/name_control.cc:70-73 | the pod of an address is replaced |
| `NameIndex.NameControl.RemovePod` | app/source/common/kubernetes/name_control.cc:75-82 | the pod of an address is dropped |
| `NameIndex.NameControl.FindServiceName` | app/source/common/kubernetes/name_control.cc:84-100 | a service before an endpoint before a pod, named by the object the index leads to; in a sound index that object is still stored and lists the address |
| `NameIndex.RunSound` | app/source/common/kubernetes/name_control.cc:20-133 | after any run every endpoint address leads to an endpoint still stored that lists it; the same for services if no event narrows the peers of its name |
| `NameIndex.SetServiceSoundIff` | app/source/common/kubernetes/name_control.cc:25-40 | setting a service leaves no reference to the released one exactly when every peer that leads to that one is among the new peers |
| `NameIndex.WithdrawSound` | app/source/common/kubernetes/name_control.cc:44-58 | removing keeps the index sound exactly when the erased addresses cover those that lead to the removed object |
| `NameIndex.NarrowedServiceDangles` | app/source/common/kubernetes/name_control.cc:25-40 | an object set with fewer addresses leaves an address that leads to the released one |
| `NameIndex.DroppedPortDangles` | app/source/common/kubernetes/name_control.cc:25-40 | for services: setting one again without one of its ports leaves that port entry leading to the released one |
| `NameIndex.OtherNamespaceDangles` | app/source/common/kubernetes/name_control.cc:23-40 | setting a service of the same name in another namespace leaves the old domain leading to the released one |
| `NameIndex.GiveUpPort` | app/source/common/kubernetes/name_control.cc:20-42 | two concrete services that do the first |
| `NameIndex.MoveNamespace` | app/source/common/kubernetes/name_control.cc:20-42 | two concrete services that do the second |
| `NameIndex.ReplaceExact` | app/source/common/kubernetes/name_control.cc:102-119 | a replacement keeps the index the inverse of the address lists exactly when no other name lists a new address |
| `NameIndex.WithdrawExact` | app/source/common/kubernetes/name_control.cc:121-133 | a removal keeps it the inverse exactly when no other name lists an erased address |
| `NameIndex.RunExact` | app/source/common/kubernetes/name_control.cc:20-133 | with disjoint addresses for different names the index is after any run exactly the inverse of the stored lists |
| `NameIndex.SharedAddressLost` | app/source/common/kubernetes/name_control.cc:106-114 | disjointness now is not enough: an address once shared is lost to its present owner |
| `RequestLimit.Reachable` | app/source/common/opentelemetry/otlp_grpc_client.cc:286-323 | in every reachable state of any interleaving started = finished + running + counted-not-running + left-not-finished, running is not negative, and it is at most max-1+N (exporter) or max+N (sink) for N threads |
| `RequestLimit.BoundIsReached` | app/source/sink/topology/sink.cc:52-70 | that bound is reached by some interleaving, for every max and N |
| `RequestLimit.NoneAllowed` | app/source/common/opentelemetry/otlp_grpc_client.cc:287-297 | an exporter with limit zero admits no request in any interleaving |
| `RequestLimit.AfterShutdown` | app/source/common/opentelemetry/otlp_grpc_client.cc:274-284 | after a shutdown only calls already past the shutdown test can still start, at most one per thread |
| `RequestLimit.ShutdownStops` | app/source/common/opentelemetry/otlp_grpc_client.cc:260-284 | an exporter that is shut down while no call is under way never starts another one |
| `RequestLimit.SinkGoesOn` | app/source/sink/topology/sink.cc:52-70 | the sink takes calls after a shutdown as before |
| `RequestLimit.Drains` | app/source/common/opentelemetry/otlp_grpc_client.cc:302-323 | from every reachable state the calls can all come to their end: nothing is running and every start has its finish |
| `MetricAggregator.Aggregator.constructor` | app/source/intercept/opentelemetry/trace/topology/service_metric_aggregator.cc:11-14 | an empty aggregator |
| `MetricAggregator.Aggregator.Stats` | app/source/intercept/opentelemetry/trace/topology/service_metric_aggregator.cc:16-29 | above the size limit and for id zero nothing changes; otherwise only the entry of the id does: requests, errors, average, name and labels move if the callee has a name or the aggregator is for relations, and stay otherwise |
| `MetricAggregator.AcceptObserves` | app/source/intercept/opentelemetry/trace/topology/service_metric_aggregator.cc:16-66 | the same of the specification of one observation, field by field |
| `MetricAggregator.Aggregator.LoadMetric` | app/source/intercept/opentelemetry/trace/topology/service_metric_aggregator.cc:31-67 | creates and updates the entry, the average from a sum that wraps in 64 bits and is rounded to a double; an unnamed service leaves it uncounted; for relations as in service_relation_metric_aggregator.cc |
| `MetricAggregator.Aggregator.Send` | app/source/intercept/opentelemetry/trace/topology/service_metric_aggregator.cc:73-108 | the batching loop hands over exactly the specified batches of the metrics in key order and empties the cache |
| `MetricAggregator.SendExactly` | app/source/intercept/opentelemetry/trace/topology/service_metric_aggregator.cc:73-108 | after any run a hand-over adds the whole cache, each metric once in ascending order of the ids, behind what was handed over before, and empties it |
| `MetricAggregator.BatchesExact` | app/source/intercept/opentelemetry/trace/topology/service_relation_metric_aggregator.cc:65-107 | the batches joined are the metrics, the first takes up to 102 of them and every other one a single metric, so n metrics make max(1, n-101) batches |
| `MetricAggregator.InOrderAscends` | app/source/intercept/opentelemetry/trace/topology/service_metric_aggregator.cc:82 | the iteration visits every key once, in increasing order |
| `MetricAggregator.Conserved` | app/source/intercept/opentelemetry/trace/topology/service_metric_aggregator.cc:16-108 | conservation per id over every run: requests (and errors) handed over plus those cached are the observations of a non-zero id, with a name where services are measured, made while the cache held at most maxSize ids |
| `MetricAggregator.ErrorsNeverExceed` | app/source/intercept/opentelemetry/trace/topology/service_relation_metric_aggregator.cc:50-58 | no metric, cached or handed over, has more errors than requests |
| `MetricAggregator.CacheBounded` | app/source/intercept/opentelemetry/trace/topology/service_relation_metric_aggregator.cc:18-27 | the cache never holds more than maxSize+1 ids |
| `MetricAggregator.AverageInRun` | app/source/intercept/opentelemetry/trace/topology/service_metric_aggregator.cc:64-66 | the cached average, kept as a number of halves, is the machine average of exactly the latencies so counted since the entry was last handed over |
| `RunningAverage.AverageBounds` | app/source/intercept/opentelemetry/trace/topology/service_metric_aggregator.cc:64-66 | for latencies up to 2^52 the running average is above the sum of l_i/2^(n-i+1) minus one, not above that sum, and not above the largest latency, whether or not halves are kept |
| `AverageStep.StepExactly` | app/source/intercept/opentelemetry/trace/topology/service_relation_metric_aggregator.cc:59-61 | one step keeps those bounds exactly when the sum does not wrap and its double is neither above the exact sum nor two or more below it |
| `AverageStep.StepFitsIffNoWrap` | app/source/intercept/opentelemetry/trace/topology/service_relation_metric_aggregator.cc:59-61 | if the wrapped sum is a double, exactly when the sum does not wrap |
| `AverageStep.SmallStepExact` | app/source/intercept/opentelemetry/trace/topology/service_metric_aggregator.cc:64-66 | for sums up to 2^53 one step stores half of the sum exactly, less the half that a whole-number field drops |
| `RunningAverage.AlwaysWithinIff` | app/source/intercept/opentelemetry/trace/topology/service_metric_aggregator.cc:64-66 | over every list of 64-bit latencies the bounds hold all along exactly when every sum fits in that sense |
| `RunningAverage.AlwaysWithinIffNoWrap` | app/source/intercept/opentelemetry/trace/topology/service_metric_aggregator.cc:64-66 | if all wrapped sums are doubles, exactly when no sum wraps |
| `RunningAverage.OneLatencyIff` | app/source/intercept/opentelemetry/trace/topology/service_metric_aggregator.cc:64-66 | a single latency is averaged within the bounds exactly when its nearest double is neither above it nor two or more below it |
| `RunningAverage.RoundingLeavesBounds` | app/source/intercept/opentelemetry/trace/topology/service_metric_aggregator.cc:65 | 2^54+3 is averaged above the exact half, 2^62+511 by 255.5 below it |
| `RunningAverage.AverageWraps` | app/source/intercept/opentelemetry/trace/topology/service_metric_aggregator.cc:64-66 | a sum past 64 bits: two latencies of about 2^64 and 2^63 average to 512 |
| `Doubles.SmallIsExact` | app/source/intercept/opentelemetry/trace/topology/service_metric_aggregator.cc:65 | integers of up to 53 bits convert to a double exactly |
| `Doubles.WordMovesLittle` | app/source/intercept/opentelemetry/trace/topology/service_metric_aggregator.cc:65 | a 64-bit integer moves by at most 1024 |
| `Doubles.OddIsExact` | app/source/intercept/opentelemetry/trace/topology/service_metric_aggregator.cc:65 | an odd double is the integer it came from |
| `Doubles.NearestExactly` | app/source/intercept/opentelemetry/trace/topology/service_metric_aggregator.cc:65 | a multiple of the spacing is the result exactly when it is the nearest one, and of two nearest ones the even multiple |
| `Doubles.TiesGoToEven` | app/source/intercept/opentelemetry/trace/topology/service_metric_aggregator.cc:65 | 2^53+1 and 2^53+3 are rounded to multiples of four |
| `SpanGroups.Collect` | app/source/common/opentelemetry/otlp_recordable_utils.cc:41-52 | the index has exactly the groups that occur, each with its spans in input order |
| `SpanGroups.AddSpan` | app/source/common/opentelemetry/otlp_recordable_utils.cc:46-52 | one span goes to the end of its own group |
| `SpanGroups.AddScopes` | app/source/common/opentelemetry/otlp_recordable_utils.cc:65-81 | one entry per scope in any order, with the spans of its group |
| `SpanGroups.AddResources` | app/source/common/opentelemetry/otlp_recordable_utils.cc:54-82 | one entry per resource in any order |
| `SpanGroups.PopulateRequest` | app/source/common/opentelemetry/otlp_recordable_utils.cc:34-82 | for any iteration order what is appended is a stable partition: one entry per resource, one per scope in it, none empty, each with its own spans in input order |
| `SpanGroups.EverySpanOnce` | app/source/common/opentelemetry/otlp_recordable_utils.cc:45-82 | such a partition carries every span exactly as often as the input |
| `SpanGroups.InputOrder` | app/source/common/opentelemetry/otlp_recordable_utils.cc:45-54 | a span stands in its group behind exactly the earlier spans of that group |
| `Headers.SameKeyIff` | app/include/common/opentelemetry/otlp_environment.h:142-150 | the map takes two keys for the same exactly when they agree in lower case |
| `Headers.LessExactly` | app/include/common/opentelemetry/otlp_environment.h:142-150 | the order of the map is the lexicographic one on small letters, stated on the first difference |
| `Headers.AlikeIff` | app/include/common/opentelemetry/otlp_environment.h:142-150 | that is, when they agree but for the case of the letters A to Z |
| `Headers.MentionsExactly` | app/source/common/opentelemetry/otlp_environment.cc:837-851 | a list mentions a key exactly when one of its headers spells it in some mixture of cases |
| `Headers.DumpOtlpHeaders` | app/source/common/opentelemetry/otlp_environment.cc:820-852 | after reading a list each key holds what the item-by-item rule keeps of it; an unset variable changes nothing |
| `Headers.KeptIsSuffix` | app/source/common/opentelemetry/otlp_environment.cc:837-851 | of a key in the list exactly the items from the last newly spelled one on are kept, and nothing from before the list |
| `Headers.AllKeptIff` | app/source/common/opentelemetry/otlp_environment.cc:839-846 | all items of a key are kept exactly when the list spells the key in one way only |
| `Headers.GetHeaders` | app/source/common/opentelemetry/otlp_environment.cc:854-860 | no generic value survives for a key the signal list mentions; every other key is as the generic list left it |

## Left out

- File, /proc, gRPC, HTTP, protobuf, JSON and SDK calls: lines, records, tokens, header items and ids are inputs, and a
  started call is assumed to complete at most once.
- Device descriptions, the lengths of the static name buffers, `%` directives inside configuration texts, and the
  second configuration file location; an exception record for a major with a null description, which the code would
  follow, is passed over.
- Interrupt names, and the parsing of the header and counter texts: processor numbers and counters are inputs.
- The filters after splitting a mount line (`me_dummy`, `me_remote`, `statfs`) and the scan of the two numbers in
  front of the device numbers.
- Span-id texts of fewer than 32 characters give the null-span result and are not followed further; trace ids and the
  one-argument `HexDecode` are not modelled.
- DeviceNamesUnique.ExplicitControllerNames: decimal disks behind a non-empty prefix of digits only are left open; with
  the empty prefix names collide.
- SpanIds.SwStringToUUID: does not state the bytes left in the buffer when the id is malformed or not numeric, because
  the caller then returns its own zeroed result.
- Tags, links, times and attributes of exported spans; the early returns for an empty segment or a bad trace id.
- RangeList.RangeMeaning: is about tokens of at most 15 characters whose numbers fit int; what the code's truncation and
  wrap make of the others is in `LongTokens` and `AtoiMeans`.
- NaturalOrder.KeyOfParts: names whose numbers do not fit int keep their order laws but not this decoding.
- Locks of the cache, the index and the aggregators: each method is one step.
- Parsing of spans into calls (`parseEntry`, `parseExit`) and the hash behind service and relation ids: ids are numbers.
- Whether the sink has room for a service is an input of each call; what it sends afterwards is `RequestLimit`'s matter.
- Registration.SecondLookup: is about any capacity; the listener always uses 500.
- Parsing of services, endpoints and pods, and what reading a released object does: look-ups are proved in sound
  indexes only.
- Unsynchronised creation of the shared counters on the first export, wrap-around of the counters after 2^64 requests,
  and the waiting in `ForceFlush`, `Shutdown` and the destructor.
- RequestLimit.BoundIsReached: an exporter with limit zero is left to `NoneAllowed`.
- Machine id and time stamp of handed-over metrics, and the individual label fields. Whether the average field keeps
  halves is left open (both cases are proved); it is taken to be a double or a 64-bit integer.
- RunningAverage.AverageBounds: latencies above 2^52 are covered by `AlwaysWithinIff` instead.
- Attribute contents of resource and scope entries, and a null request.
- The order of different keys in the header map; locale-dependent letters.
