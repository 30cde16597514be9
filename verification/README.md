# Verified models of the agent, its clients and the Lua bindings

This project models the parts of the repository in which loops, in-place
updates and interleavings decide whether the program is right, and proves what
they promise each other. Code that works by changing things step by step is
modelled by methods and classes proved equal to functions; what the program is
for is then proved about those functions, for all inputs and all runs.

| files | what they model |
|---|---|
| `StructIntegers`, `StructFormat`, `StructCodec`, `StructTheorems`, `StructLayout`, `StructLetters`, `StructRounding`, `Bits` | the binary pack / unpack / size library for Lua (`lua-client/3rd/struct.c`): three interpreters of one format language |
| `BinSearch`, `BinMap`, `PrefixTrie`, `Tokenizer` | binary search, the sorted-vector map over it, the prefix trie over that, and the tokenizer on top (`include/utils`) |
| `LuaPath`, `LuaHeap`, `LuaTheorems`, `LuaState`, `SplitPath` | access to nested Lua tables by dotted paths through an explicit stack, and object paths with escapes (`include/fr-lua/lua-wrapper.hpp`) |
| `PositionedIo`, `RemoteFile` | positioned file access through the file system client, the client library and the agent |
| `PollReactor`, `GpioEvents`, `GpioPins`, `FsHandles` | delivery of events, sharing of pins and allocation of handles in the agent, as step systems |
| `LoggerQueue` | the queue of the agent's logger |
| `Common` | `Option`, `Result` and a few sequence functions |

Conventions and assumptions:

- `struct.c`: a little-endian LP64 machine with Lua 5.3. `lua_Number` is an
  IEEE double and integers are rounded on the way through it, to nearest with
  ties to even. A float or a double is its native octets.
- The Lua state is a heap of tables (table 0 holds the globals), which may be
  shared and cyclic, and a stack. A path is any string: a list of names, some
  perhaps empty, joined by dots (`LuaPath.EveryPathIsJoined`).
- No string of data is longer than 2^63 - 1 octets.
- File access: an operating system read may return less than asked, but
  nothing only at the end of the file; a write transfers at least one octet.
  Any call may fail at the operating system, on the way to the agent or on the
  way back. One caller at a time uses a handle.
- Step systems: a step is what the source does under one lock or in one system
  call. The strands run their tasks one at a time, in the order posted.

Where the code does something else than its names or comments say, the model
follows the code:

- `get` after `set` fails on a path that runs in a circle through a shared
  table, and on a path with a dot at its end unless what stands before that dot
  names a table; on no other (a single leading dot apart):
  `LuaState.PathSetGetExactly`.
- A dot at the end of a path makes `set` store one level higher when what stands
  before the dot names no table (`LuaState.TrailingDotExactly`); a single dot at
  the start makes `get`, `exists` and `set_value` look for a global of that
  whole name (`LuaState.LeadingDotMisses`).
- `exists` leaves the outermost table of the path on the stack when the last
  field is missing, and `get` leaves a nil there for a missing global
  (`LuaState.LuaState.Exists`, `LuaState.LuaState.GetAs`).
- `set_value` with its default index stores the name of the leaf under a
  dotted path: `LuaState.DefaultIndexStoresTheName`.
- `size` accepts letters that are no option; `pack` and `unpack` do not:
  `StructTheorems.SizeOverlooksExactly`.
- A failed read or write may have moved the remote file without the cached
  offset. A caller that goes on at another offset is safe, one that goes on at
  the cached offset is not: `PositionedIo.CarefulRunIsPositionedIo`,
  `PositionedIo.CarelessWriteMisplaces`.
- `split_path` steps over the end of its string exactly when a quote is left
  open or a backslash stands last: `SplitPath.StaysInsideExactly`.
- `iter_clone` answers with the handle it was given, not with that of the copy
  (`FsHandles.FsService.IterClone`), and a relative `open` answers with a path
  its handle does not get (`FsHandles.FsService.Open`).
- Path and iterator handles can coincide if and only if more than 2^32 ids have
  been issued: `FsHandles.CollisionExactly`.
- `close` of a pin never clears the pin's entry in the weak map:
  `GpioPins.EntryOutlivesClose`.
- `drop_all` keeps the order beside producers, no do_write beginning, if and only
  if none is running either; with do_writes beginning it can take from an empty
  queue: `LoggerQueue.DropNeedsIdleStrand`.

## Model

| member | source | states |
|---|---|---|
| `StructIntegers.PutInteger` | lua-client/3rd/struct.c:169-193 | the octets appended are the low `size` octets of the argument, rounded to a double and taken modulo 2^64, in the wanted order |
| `StructIntegers.GetInteger` | lua-client/3rd/struct.c:266-290 | the value accumulated in a 64-bit word is the number the octets denote, modulo 2^64, rounded when unsigned and sign-extended through the mask when signed |
| `StructIntegers.SignExtend` | lua-client/3rd/struct.c:284-289 | the mask and the cast subtract 256^size exactly from words with the top bit of the field set |
| `StructIntegers.CorrectBytes` | lua-client/3rd/struct.c:196-205 | the in-place swap loop reverses the first `size` octets when the order is not the native one and touches nothing else |
| `StructIntegers.ReversedTwice` | lua-client/3rd/struct.c:196-205 | applied twice it restores the octets |
| `StructIntegers.BigIsReversedLittle` | lua-client/3rd/struct.c:270-281 | reading big-endian is reading the reversed octets little-endian |
| `StructIntegers.LittleRoundTrip` | lua-client/3rd/struct.c:178-281 | `size` stored octets keep a number modulo 256^size |
| `StructIntegers.StoredWordReduces` | lua-client/3rd/struct.c:169-290 | for sizes 1 to 8, any word, either byte order: what is read back is the word reduced modulo 256^size into the signed or unsigned range |
| `StructIntegers.StoredIntegerSurvives` | lua-client/3rd/struct.c:169-290 | an integer that fits its field and that a double represents comes back unchanged |
| `StructRounding.SurvivesExactly` | lua-client/3rd/struct.c:169-290 | an integer that fits its field comes back unchanged if and only if a double represents it |
| `StructRounding.RoundTwice` | lua-client/3rd/struct.c:171-177 | a number rounded to a double stays as it is when rounded again |
| `StructIntegers.SmallIsExact` | lua-client/3rd/struct.c:171-177 | every integer up to 2^53 in magnitude passes through `lua_Number` unchanged |
| `StructCodec.GetNum` | lua-client/3rd/struct.c:94-104 | reads the decimal number at the cursor, or gives the default and stays |
| `StructTheorems.NumberIsRead` | lua-client/3rd/struct.c:94-104 | every number written in decimal is read back with exactly its digits consumed |
| `StructCodec.OptSize` | lua-client/3rd/struct.c:111-130 | computes the specified size of every option, with its number consumed, and the refusal of widths over 32; the sizes in numbers are `StructLetters.SizeOfLetter` and `StructLetters.WidthLimit` |
| `StructCodec.ControlOptions` | lua-client/3rd/struct.c:148-166 | the header after a control option, and the refusals |
| `StructCodec.ReadOption` | lua-client/3rd/struct.c:217-220 | one turn of any of the three loops reads exactly the next directive of the format |
| `StructTheorems.FormatEndsAtZero` | lua-client/3rd/struct.c:217-220 | what stands behind a zero character in a format is never looked at |
| `StructTheorems.PaddingIsLeast` | lua-client/3rd/struct.c:137-142 | for power-of-two size and alignment the padding is the least that makes the position a multiple of the smaller of the two |
| `StructTheorems.AlignmentAccepted` | lua-client/3rd/struct.c:154-160 | the alignment switch accepts exactly the powers of two, and sets the alignment to the number written |
| `Bits.AndMask` | lua-client/3rd/struct.c:141-141 | masking with 2^k - 1 is the remainder by 2^k (`Bits.RemIsMod`: by repeated subtraction or by `%`) |
| `StructCodec.Pack` | lua-client/3rd/struct.c:208-263 | the loop of pack, with the counted size equal to the buffer length at every head, computes the specified string or error |
| `StructCodec.Unpack` | lua-client/3rd/struct.c:293-357 | the loop of unpack computes the specified results and position, or error, from any start position, also those below 1, which wrap around |
| `StructCodec.Size` | lua-client/3rd/struct.c:360-379 | the loop of size computes the specified size, or error |
| `StructLayout.PackedInteger` | lua-client/3rd/struct.c:9-19 | every octet of an integer packed under `<` or `>` and `i` or `I` with a width |
| `StructLayout.UnpackedInteger` | lua-client/3rd/struct.c:266-290 | what any octets of width 1 to 8 unpack to: the number they denote in the order of the switch, signed under `i` |
| `StructLetters.PackedLetter` | lua-client/3rd/struct.c:111-130 | every octet of an integer packed under a bare `b B h H i I l L T`: 1, 1, 2, 2, 4, 4, 8, 8 or 8 of them, in the order of the switch, little endian without one |
| `StructLetters.UnpackedLetter` | lua-client/3rd/struct.c:308-314 | what any octets unpack to under a bare letter: the number they denote, signed exactly under the lower-case ones |
| `StructLetters.LetterRefuses` | lua-client/3rd/struct.c:217-314 | under an integer letter pack refuses a missing or other argument, and unpack refuses fewer octets |
| `StructLetters.SizeOfLetter` | lua-client/3rd/struct.c:111-130 | size of every letter that has one, in numbers: 1 for `b B x c`, 2 for `h H`, 4 for `i I f`, 8 for `l L T d` |
| `StructLetters.WidthLimit` | lua-client/3rd/struct.c:120-126 | the number after `i` or `I` is the size, and is refused above 32 |
| `StructLetters.PackedFloat` | lua-client/3rd/struct.c:233-238 | a float is its four octets, reversed under `>` alone, both ways |
| `StructLetters.PackedDouble` | lua-client/3rd/struct.c:239-244 | a double is its eight octets, reversed under `>` alone, both ways |
| `StructLetters.PackedStrings` | lua-client/3rd/struct.c:229-256 | `s` stores the octets and a zero, `c` with a number that many of them, or refuses; `c0` all of them; `x` a zero |
| `StructLetters.UnpackedStrings` | lua-client/3rd/struct.c:345-352 | `s` takes the octets before the first zero and steps over it; without a zero it refuses |
| `StructLetters.BareAlignment` | lua-client/3rd/struct.c:154-160 | `!` without a number sets the alignment to 8 and leaves the byte order |
| `StructLetters.AlignedLong` | lua-client/3rd/struct.c:137-160 | after a filler, under a bare `!`, a long begins at position 8, in the byte order switched to before |
| `StructLetters.CharsFollowAtOnce` | lua-client/3rd/struct.c:137-142 | under a bare `!` the octets of `c` follow a filler at once, whatever their number |
| `StructLetters.PackedInTurn` | lua-client/3rd/struct.c:208-263 | in a format without `!`, an integer letter and whatever follows are packed one after the other, the byte order staying as it was switched |
| `StructLetters.UnpackWithin` | lua-client/3rd/struct.c:293-356 | unpack at position p + 1 reads, behind any p octets and before any others, what was packed for position p |
| `StructTheorems.RoundTrip` | lua-client/3rd/struct.c:208-357 | for every list of directives and arguments in range, pack succeeds and unpack at the packing position gives the arguments back, whatever stands before and after |
| `StructTheorems.PackThenUnpack` | lua-client/3rd/struct.c:208-357 | for every format string with its switches, unpack of pack's output and any tail gives the arguments and the position behind the output |
| `StructTheorems.UnpackInside` | lua-client/3rd/struct.c:301-356 | on any data and from any start a successful unpack ends inside the data, and octets appended to the data change nothing |
| `StructTheorems.SizeIsPackedLength` | lua-client/3rd/struct.c:360-378 | whenever pack succeeds, size is exactly the packed length, or refuses, which happens exactly for formats with `s` or `c0` |
| `StructTheorems.SizeRefusesVariable` | lua-client/3rd/struct.c:369-372 | size refuses a clean format if and only if it has a field without fixed size |
| `StructTheorems.PackedIsClean` | lua-client/3rd/struct.c:257-257 | pack succeeds only on formats without refused options |
| `StructTheorems.SizeAcceptsExactly` | lua-client/3rd/struct.c:365-376 | size accepts a format if and only if it consists of fixed-size items, switches, and letters or digits that are no option |
| `StructTheorems.PackAcceptsExactly` | lua-client/3rd/struct.c:217-260 | pack accepts a format, with some arguments, if and only if no directive of it is refused |
| `StructTheorems.SizeOverlooksExactly` | lua-client/3rd/struct.c:360-379 | of the formats size accepts, pack accepts exactly those without an overlooked letter, and unpack fails on the others whatever the data and the start |
| `StructTheorems.OverlookedIsLetter` | lua-client/3rd/struct.c:373-374 | what is overlooked are exactly the letters and digits that are no option, never a bad alignment |
| `StructTheorems.SizeOverlooksUnknownLetters` | lua-client/3rd/struct.c:366-374 | the witness "z", which size accepts and pack and unpack refuse |
| `BinSearch.Search` | include/utils/bin-search.h:21-40 | returns a position of the value if and only if the range has one, else the end |
| `BinSearch.LowerBound` | include/utils/bin-search.h:49-65 | returns the first position not less than the value |
| `BinSearch.UpperBound` | include/utils/bin-search.h:74-90 | returns the first position greater than the value |
| `BinMap.BinMap.Find` | include/utils/bin-map.h:333-343 | finds the key's slot if and only if the map has the key |
| `BinMap.BinMap.Access` | include/utils/bin-map.h:322-331 | operator[] makes a default entry only for a missing key and keeps the vector sorted |
| `BinMap.BinMap.Insert` | include/utils/bin-map.h:298-301 | insert overwrites the value of an existing key |
| `BinMap.BinMap.Erase` | include/utils/bin-map.h:313-320 | erase removes exactly the key, if present |
| `BinMap.MeaningScans` | include/utils/bin-map.h:333-343 | the finite map a sorted vector stands for is what a linear scan sees |
| `BinMap.InsertedRefines` | include/utils/bin-map.h:298-331 | insertion into the vector keeps it strictly sorted and is an update of the finite map |
| `BinMap.TouchedRefines` | include/utils/bin-map.h:322-331 | operator[] on the vector is a defaulting update of the finite map |
| `BinMap.ErasedRefines` | include/utils/bin-map.h:313-320 | erasing from the vector is removal from the finite map |
| `BinMap.RunRefines` | include/utils/bin-map.h:298-331 | any sequence of operations refines the same sequence on a finite map |
| `BinMap.SameMapSameVector` | include/utils/bin-map.h:298-331 | two sequences that build the same map leave the same vector |
| `PrefixTrie.PrefixTrie.EqualElement` | include/utils/prefix-trie.h:90-102 | the child along a symbol, or null if and only if there is none |
| `PrefixTrie.PrefixTrie.Push` | include/utils/prefix-trie.h:104-121 | nodes stay a tree and the key-to-info map is updated at exactly the pushed key |
| `PrefixTrie.PrefixTrie.Attach` | include/utils/prefix-trie.h:113-116 | hanging a new node under a node keeps every node reached by exactly one string |
| `PrefixTrie.PrefixTrie.OneStringEach` | include/utils/prefix-trie.h:104-121 | two strings lead to the same node if and only if they are equal |
| `PrefixTrie.PrefixTrie.PrefixClosed` | include/utils/prefix-trie.h:104-121 | every prefix of a string that leads to a node leads to one |
| `Tokenizer.NextInfo` | include/utils/prefix-trie.h:166-194 | for the longest (greedy) or shortest pushed key at the iterator, moves past it and returns its info; with none there, moves by one and returns the info of the root; at the end it stays |
| `Tokenizer.NextInfoNoShift` | include/utils/prefix-trie.h:202-207 | the info of that key, or of the root, without moving |
| `Tokenizer.MatchIsExtreme` | include/utils/prefix-trie.h:180-191 | the match is a pushed key that prefixes the input, and the longest (greedy) or shortest such key |
| `Tokenizer.NoMatch` | include/utils/prefix-trie.h:177-193 | there is no match if and only if no non-empty key prefixes the input |
| `Tokenizer.HeadIsExtreme` | include/utils/prefix-trie.h:166-194 | the head of an input is the one such key under its info, or, exactly when no key prefixes the input, a symbol under the info of the root |
| `Tokenizer.PiecesSplit` | include/utils/prefix-trie.h:166-194 | repeated next_info splits any input into non-empty pieces that concatenate to it, each the head of what is left |
| `Tokenizer.SplitIsUnique` | include/utils/prefix-trie.h:166-194 | no other split does |
| `Tokenizer.ShiftWhile` | include/utils/prefix-trie.h:212-226 | the loop terminates and computes the specified position and info; the info is that of the key where the iterator stops, and fails the test, or it is the root's at the end |
| `Tokenizer.ShiftStopsAtFirstFailing` | include/utils/prefix-trie.h:212-226 | that position is the start of the first piece whose info fails the test, or the end |
| `LuaPath.PathRoot` | include/fr-lua/lua-wrapper.hpp:567-572 | the length up to the first dot |
| `LuaPath.PathLeaf` | include/fr-lua/lua-wrapper.hpp:574-584 | the position of the last dot, or the start |
| `LuaPath.EveryPathIsJoined` | include/fr-lua/lua-wrapper.hpp:567-572 | every string is a list of names without dots, joined by dots |
| `LuaPath.RootOfJoined` | include/fr-lua/lua-wrapper.hpp:567-572 | on joined names it cuts off exactly the first name |
| `LuaPath.LeafOfJoined` | include/fr-lua/lua-wrapper.hpp:574-584 | on joined names it finds the dot before exactly the last name, except a single dot at the start |
| `LuaState.LuaState.CreateOrPush` | include/fr-lua/lua-wrapper.hpp:586-601 | pushes one value: a chain of fresh tables for the path, without an empty last name, ending in the value |
| `LuaState.LuaState.SetToStack` | include/fr-lua/lua-wrapper.hpp:603-627 | performs the specified assignment below the table at the top and leaves the stack as it was |
| `LuaState.LuaState.Set` | include/fr-lua/lua-wrapper.hpp:631-655 | performs the specified assignment from the globals and leaves the stack as it was |
| `LuaState.LuaState.GetTable` | include/fr-lua/lua-wrapper.hpp:668-694 | pushes the tables on the way and returns their number, or pushes nothing and returns 0 |
| `LuaState.LuaState.GetAs` | include/fr-lua/lua-wrapper.hpp:696-727 | the default for nil, the value itself when it is of the wanted type, an error for another type; the default only for nil or when it is the value; and the exact stack height |
| `LuaState.LuaState.Exists` | include/fr-lua/lua-wrapper.hpp:734-757 | true if and only if the path leads to a value, and exactly what stays on the stack |
| `LuaState.LuaState.SetValue` | include/fr-lua/lua-wrapper.hpp:782-812 | stores the value found at the index after the pushes, and restores the stack |
| `LuaState.SetValueStores` | include/fr-lua/lua-wrapper.hpp:782-812 | on any heap, for every path that set can store to: which value get finds afterwards, for every index |
| `LuaState.SetValueFrame` | include/fr-lua/lua-wrapper.hpp:782-812 | and what it leaves alone: on any heap, every path that does not read the slots written keeps its value |
| `LuaState.PathSetGetExactly` | include/fr-lua/lua-wrapper.hpp:631-727 | for every path string and any heap: exactly when get after set gives the value back |
| `LuaState.SetThenGet` | include/fr-lua/lua-wrapper.hpp:631-727 | the two operations in turn: get answers the value exactly under that condition when it is of the wanted type, and an error under it when it is not |
| `LuaState.TrailingDotExactly` | include/fr-lua/lua-wrapper.hpp:586-627 | on any heap, with a dot at the end, it does if and only if the path before the dot named a table and the path is not circular; otherwise, off circles, that path took the value |
| `LuaState.LeadingDotMisses` | include/fr-lua/lua-wrapper.hpp:574-584 | on any heap, with a single dot at the start, what get looks at is not touched by set |
| `LuaState.DefaultIndexStoresTheName` | include/fr-lua/lua-wrapper.hpp:782-812 | on any heap, with the default index, it is the leaf name for every dotted path that set can store to |
| `LuaState.LuaState.CreateThread` | include/fr-lua/lua-wrapper.hpp:814-821 | the thread is stored at the path and the stack is as before; get finds it wherever set can store |
| `LuaState.LeafOfTables` | include/fr-lua/lua-wrapper.hpp:711-717 | the value at a path is the leaf field of the last table on the way |
| `LuaHeap.SetInWrites` | include/fr-lua/lua-wrapper.hpp:603-627 | assignment below a table writes exactly the last slot its path reads and appends the fresh chain |
| `LuaTheorems.SetFrame` | include/fr-lua/lua-wrapper.hpp:631-655 | on any heap, a path that does not read the last slot of the path set keeps its value |
| `LuaTheorems.SetGetExactly` | include/fr-lua/lua-wrapper.hpp:631-727 | on any heap, get after set gives the value back if and only if the path does not read its last slot earlier, and has no dot at its end or a table named before it |
| `LuaHeap.KeptReads` | include/fr-lua/lua-wrapper.hpp:586-627 | the path set assigns along, without an empty last name where tables are missing, reads the same slots as the path written |
| `LuaTheorems.TrailingDotStoresAbove` | include/fr-lua/lua-wrapper.hpp:586-627 | where the dot at the end does not count, what stands before it takes the value |
| `LuaTheorems.SelfReferenceFails` | include/fr-lua/lua-wrapper.hpp:603-627 | a table that holds itself is such a case |
| `LuaTheorems.SetExactly` | include/fr-lua/lua-wrapper.hpp:631-655 | on tree-shaped tables every path shows, after set, the value at the place it stores to, a table above that, nothing below it, and otherwise what it showed before |
| `LuaTheorems.SetKeepsTree` | include/fr-lua/lua-wrapper.hpp:631-655 | set keeps the tables tree-shaped |
| `LuaTheorems.RunShows` | include/fr-lua/lua-wrapper.hpp:631-655 | any sequence of sets, of any paths, from empty globals shows at every path what the last relevant one says |
| `SplitPath.SplitPath` | include/fr-lua/lua-wrapper.hpp:952-993 | the cursor loop computes the specified elements, or runs past the end |
| `SplitPath.SplitUndoesWriting` | include/fr-lua/lua-wrapper.hpp:952-993 | any list of non-empty names, each escaped or quoted in any way, is returned exactly, the quoted ones marked as strings |
| `SplitPath.StaysInsideExactly` | include/fr-lua/lua-wrapper.hpp:961-992 | for every string, the cursor stays inside it if and only if every quote is closed and no backslash stands last |
| `SplitPath.OpenEndReadsPastEnd` | include/fr-lua/lua-wrapper.hpp:964-986 | in particular, a backslash or a quote left open after any written path sends the cursor past the end |
| `RemoteFile.AgentFile.Read` | agent/subsys-fs.cpp:784-818 | returns at most 44000 octets of the file at the wanted position, nothing only at its end, and restores the position when asked |
| `RemoteFile.AgentFile.WriteAll` | agent/subsys-fs.cpp:838-844 | the loop over short writes is one positioned write of what it got through |
| `RemoteFile.AgentFile.Write` | agent/subsys-fs.cpp:820-853 | writes everything or fails after a prefix, and restores the position when asked |
| `RemoteFile.ClientFile.ReadImpl` | client-core/impl/impl-file.cpp:153-183 | fills the caller's buffer with what lies at the position and nothing else; after an error the buffer is untouched, and where the file can stand |
| `RemoteFile.ClientFile.WriteImpl` | client-core/impl/impl-file.cpp:185-208 | writes at most 44000 octets and reports exactly that many; after an error, the prefix written and where the file can stand |
| `RemoteFile.ClientFile.ReadFrom` | client-core/impl/impl-file.cpp:220-224 | reads at a position, with the file position restored when asked; after an error, the buffer and where the file can stand |
| `RemoteFile.ClientFile.WriteTo` | client-core/impl/impl-file.cpp:226-230 | writes at a position, with the file position restored when asked; after an error, the prefix written and where the file can stand |
| `RemoteFile.FileWrapper.MoveTo` | fuse-client/application.cpp:393-399 | the seek is skipped when the cached offset is the wanted one |
| `RemoteFile.FileWrapper.Write` | fuse-client/application.cpp:383-423 | a successful write is one pwrite of the whole buffer where the call lands; a failing one wrote a known prefix |
| `RemoteFile.FileWrapper.Read` | fuse-client/application.cpp:383-423 | a successful read returns exactly what one pread would, min(length, octets left) |
| `RemoteFile.FileMap.Write` | fuse-client/application.cpp:433-438 | the same through the handle table, and -1 for an unknown handle |
| `RemoteFile.FileMap.Read` | fuse-client/application.cpp:425-431 | the same for reads |
| `PositionedIo.PWriteAt` | fuse-client/application.cpp:401-414 | every octet of the file after a positioned write: the one written, the one that was there, or zero |
| `PositionedIo.PWriteSplit` | fuse-client/application.cpp:401-414 | adjacent positioned writes are one write |
| `PositionedIo.PReadSplit` | fuse-client/application.cpp:401-414 | adjacent positioned reads are one read |
| `PositionedIo.ReadAfterWrite` | fuse-client/application.cpp:383-423 | an answered read of the place of an answered write lands there and returns what was written |
| `PositionedIo.StaysInSync` | fuse-client/application.cpp:393-413 | a call leaves the cached offset at the remote position if and only if nothing moved that its caller was not told of |
| `PositionedIo.RunIsPositionedIo` | fuse-client/application.cpp:383-423 | over any run without such a failure the file and every read are those of plain positioned calls, and the skipped seeks were right |
| `PositionedIo.AnswerDecides` | fuse-client/application.cpp:393-413 | a caller can be sure of the cached offset after every answered call, and after no error that can occur |
| `PositionedIo.LandsExactly` | fuse-client/application.cpp:393-399 | a call acts at its own offset if and only if the handle is in sync or the offset is not the cached one |
| `PositionedIo.CarefulRunIsPositionedIo` | fuse-client/application.cpp:383-423 | over any run, whatever fails, in which no call at the cached offset follows an error, file and reads are those of plain positioned calls |
| `PositionedIo.CarelessWriteMisplaces` | fuse-client/application.cpp:393-413 | any call that can fail can fail so that a write at the cached offset right after it is misplaced |
| `PositionedIo.UnnoticedMisplaces` | fuse-client/application.cpp:393-399 | after such a failure a write at the cached offset is misplaced |
| `PositionedIo.OtherOffsetResyncs` | fuse-client/application.cpp:393-399 | a call at any other offset puts the handle right again |
| `PollReactor.PollReactor.AddFd` | agent/poll-reactor.cpp:129-151 | a new descriptor is registered and watched, a known one takes the callback even if epoll refuses, a refused new one is not registered |
| `PollReactor.PollReactor.DelFd` | agent/poll-reactor.cpp:153-158 | the two steps together take exactly the descriptor out of the map and the epoll set |
| `PollReactor.PollReactor.MakeCallback` | agent/poll-reactor.cpp:172-187 | the registered callback is called; one that answers true stays, one that answers false is deleted, an unknown descriptor is unwatched |
| `PollReactor.StepKeepsInv` | agent/poll-reactor.cpp:129-203 | every step keeps: registered is what the calls made say, calls were of the registered callback, unwatched entries have a deleter |
| `PollReactor.NoCallAfterDelete` | agent/poll-reactor.cpp:153-203 | in every interleaving, no callback for a descriptor runs after del_fd returned until an add_fd succeeds |
| `PollReactor.WatchedUnlessDeleting` | agent/poll-reactor.cpp:129-170 | in every interleaving, a registered descriptor outside the epoll set has a deleter between its steps |
| `PollReactor.RefusedAdd` | agent/poll-reactor.cpp:129-151 | in every reachable state, a refused add replaces the callback if and only if the descriptor is registered; for want of an epoll entry it is refused only, and always, between a deleter's steps |
| `GpioEvents.GpioHelper.AddReactorAction` | agent/gpio-helper.cpp:263-284 | a new session under the id, in place of any it had; every other connection and session stays; the first connection registers the pin |
| `GpioEvents.GpioHelper.DelReactorAction` | agent/gpio-helper.cpp:286-294 | the session of the id ends with what it has heard; every other connection and session stays; with the last one the pin is taken off the reactor |
| `GpioEvents.GpioHelper.ReactorHandler` | agent/gpio-helper.cpp:223-261 | posts one value, or answers false without a connection or a reading; connections and sessions stay |
| `GpioEvents.GpioHelper.SendToAll` | agent/gpio-helper.cpp:202-218 | the loop calls every connection once with the first queued value and drops exactly those that answer false; nobody else hears it |
| `GpioEvents.SentConsistent` | agent/gpio-helper.cpp:202-218 | a send extends every live session's slice by the next posted value |
| `GpioEvents.DeliveredSlices` | agent/gpio-helper.cpp:202-293 | in every interleaving, what a subscription heard is a contiguous slice of the posted values, in order, without repeats, and complete while it lives |
| `GpioEvents.StaysConnected` | agent/gpio-helper.cpp:202-293 | in every interleaving a subscription lives on if and only if no later step deletes it, replaces it or has its callback refuse |
| `GpioEvents.HearsEverything` | agent/gpio-helper.cpp:202-293 | from its add on, in every interleaving, a client stays connected under that condition exactly, and then has heard every value sent since, in order |
| `GpioEvents.NothingAfterDelete` | agent/gpio-helper.cpp:286-293 | nothing is delivered to a subscription once it has been deleted, whatever is still queued |
| `GpioEvents.NeverDeaf` | agent/gpio-helper.cpp:240-293 | without failures, a connected client always has the pin registered, except while an adder is about to do it |
| `GpioPins.GpioDevices.OpenPin` | agent/subsys-gpio.cpp:627-640 | shares the live helper of the pin or makes one; nobody else's helper and no other entry changes |
| `GpioPins.GpioDevices.ClosePin` | agent/subsys-gpio.cpp:642-652 | removes the entry of the key exactly when its helper is gone |
| `GpioPins.OneLiveHelper` | agent/subsys-gpio.cpp:627-652 | in every interleaving a pin has at most one live helper and the weak map leads to it, whatever keys close_pin gets |
| `GpioPins.GpioDevices.RegisterForChange` | agent/subsys-gpio.cpp:382-404 | opens the helper's value file and gives the handle an action, if the handle is known |
| `GpioPins.GpioDevices.CloseDevice` | agent/subsys-gpio.cpp:305-323 | the handle's reactor action is deleted, and close_pin runs with some key while the closed handle's helper is still held, which is released after it |
| `GpioPins.EntryOutlivesClose` | agent/subsys-gpio.cpp:305-323 | in every reachable state, close leaves the entry of its own pin in the weak map, whatever key it passes on |
| `GpioPins.OpenShares` | agent/subsys-gpio.cpp:627-640 | opening a pin somebody holds gives that holder's helper |
| `GpioPins.OpenerGetsPin` | agent/subsys-gpio.cpp:627-640 | in every reachable state the opener gets a helper of the pin it asked for and all others keep theirs |
| `FsHandles.FsService.PathFromRequest` | agent/subsys-fs.cpp:158-184 | a fresh request spends an id, a relative one is joined to its handle's path or refused |
| `FsHandles.FsService.Open` | agent/subsys-fs.cpp:186-201 | a fresh path is stored under the next handle, if that is free, and nothing else changes; a relative one changes nothing and answers the joined path |
| `FsHandles.FsService.IterBegin` | agent/subsys-fs.cpp:413-429 | the listing is stored under the next handle, after one spent on a fresh path |
| `FsHandles.FsService.IterClone` | agent/subsys-fs.cpp:461-475 | the copy is stored under a new handle and the old one is answered |
| `FsHandles.FsService.Close` | agent/subsys-fs.cpp:477-500 | removes the path of the handle, or else its iterator |
| `FsHandles.OpenThenRelative` | agent/subsys-fs.cpp:158-201 | a relative request after open is joined to the path that was opened |
| `FsHandles.HandlesStayApart` | agent/subsys-fs.cpp:158-201 | in every interleaving, while at most 2^32 ids have been issued, path and iterator handles are disjoint, of the kind issued, and at most the counter |
| `FsHandles.NextHandleIsFree` | agent/subsys-fs.cpp:158-201 | in every interleaving, until 2^32 ids have been issued, the next handle is in neither map and no open is about to store under it |
| `FsHandles.HandleStandsForPath` | agent/subsys-fs.cpp:158-201 | in every interleaving, while at most 2^32 ids have been issued when it is stored, the handle of an open stands for the opened path until it is closed or its directory changed |
| `FsHandles.CloseRemovesOne` | agent/subsys-fs.cpp:477-500 | either step of close removes at most the one object the handle was issued for |
| `FsHandles.CollisionAfterWrap` | agent/subsys-reactor.cpp:155-158 | for every larger number of ids, a run in which a path and an iterator share a handle |
| `FsHandles.CollisionExactly` | agent/subsys-fs.cpp:158-201 | a path and an iterator can share a handle if and only if more than 2^32 ids have been issued |
| `LoggerQueue.Logger.SendData` | agent/logger.cpp:89-95 | one record is queued and one do_write posted |
| `LoggerQueue.Logger.DoWrite` | agent/logger.cpp:123-141 | the first record is taken and written with its info: when it is to be split, cut into lines without separators that, with one separator between each two, are the data; else whole |
| `LoggerQueue.Logger.DropAll` | agent/logger.cpp:69-77 | everything queued is written in order, each record as by do_write, the queue is empty, and the former length is returned |
| `LoggerQueue.SendDataThenWrite` | agent/logger.cpp:89-141 | after send_data and its do_write there is one more entry, with the data cut at every separator |
| `LoggerQueue.SendDataNosplitThenWrite` | agent/logger.cpp:97-141 | after send_data_nosplit and its do_write there is one more entry, with the data in one line |
| `LoggerQueue.LinesWeave` | agent/logger.cpp:133-137 | lines and separators together are the data: nothing is lost |
| `LoggerQueue.LinesAreClean` | agent/logger.cpp:133-137 | no line contains a separator |
| `LoggerQueue.CuttingIsUnique` | agent/logger.cpp:133-137 | there is no other way to cut data into lines without separators and one separator between each two |
| `LoggerQueue.QueueIsInOrder` | agent/logger.cpp:89-141 | with any number of producers the queue length is the do_writes not begun plus the producers about to post, do_write never finds it empty, and output, record in hand and queue are the emplacement order |
| `LoggerQueue.DropAllAfterStop` | agent/main.cpp:185-189 | after producers and strand have stopped, drop_all completes the output in order; a do_write run later would find the queue empty |
| `LoggerQueue.DropIsSafe` | agent/logger.cpp:69-77 | drop_all in any interleaving with producers, while no do_write is running and none begins, never finds the queue empty after it looked, and keeps the order |
| `LoggerQueue.LookedBreaks` | agent/logger.cpp:69-77 | from every state in which drop_all has looked, the do_writes due can empty the queue under it |
| `LoggerQueue.HeldIsOvertaken` | agent/logger.cpp:123-141 | from every state with a do_write running, some drop_all without another do_write ends out of order |
| `LoggerQueue.DropNeedsIdleStrand` | agent/main.cpp:185-189 | from every state in which drop_all has not begun: without a do_write beginning, every run is orderly if and only if none is running; and if the queue holds a record, some run in which do_writes begin takes from an empty queue |
| `LoggerQueue.DropWhileRunningBreaks` | agent/logger.cpp:69-77 | a run in which drop_all and the strand both see the last record |

## Left out

- StructFormat.UnpackItem: signed widths 0 and 9 to 32, a negative length before `c0`, and a field that begins before the data have no defined meaning in C and give an error of their own.
- StructFormat.TakeCounted: a float result, or a string result that spells a number, before `c0` is converted to a length in the source; the model gives an error, because it does not interpret floats and spelled numbers. `c0` before any result looks at the data string in the source and is an error too.
- StructCodec.Pack: arguments the Lua API would convert, numbers given as strings, strings given as numbers, integers for floats and floats for integers, give an error.
- StructCodec.Unpack: see StructFormat.TakeCounted for `c0` after a float or a spelled number; the least 64-bit start position, for which subtracting 1 overflows in C, is treated as if it did not.
- StructCodec.GetNum: overflow of the C int is not modelled; numbers are unbounded.
- LuaState.LuaState.Set: values that are tables, and metatables, are not modelled; sharing and cycles, such as the global `_G`, are.
- LuaTheorems.SetExactly: holds on tree-shaped tables, so without the global `_G`; for shared tables see SetGetExactly and SetFrame.
- RemoteFile.AgentFile.OsWrite: append mode, and a write of zero octets, on which the agent's loop would not end.
- RemoteFile.FileWrapper.Read: the cast of the result to a C int, which matters only from 2^31 octets on.
- PollReactor.PollReactor.MakeCallback: callbacks that call back into the reactor, which would take its lock twice.
- GpioPins.GpioDevices.CloseDevice: the action is a pair of helper and handle; what deleting it does to deliveries is GpioEvents.GpioHelper.DelReactorAction.
- GpioEvents.NeverDeaf: registering a pin again after its last unregister, when its descriptor has been closed, counts as a failure.
- GpioEvents.GpioHelper.SendToAll: the order in which the subscribers of one value are called.
- FsHandles.CollisionExactly: wrap-around of the 64-bit counter itself.
- Failing directory listings and path normalisation; a listing is a value, joining is a parameter.
- Destructors, memory allocation and its failures.
- Sockets, remote procedure calls, epoll, sysfs and ioctl other than as abstract steps.
- The Lua virtual machine, object wrappers, references and garbage collection.
- SPI and I2C helpers, hex and endpoint helpers, configuration, options, user interfaces, discovery: device calls and plumbing.
