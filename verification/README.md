# Verified models of the library components

A Dafny project that models the parts of this repository with the most intricate behaviour and proves what they
promise. `dafny verify dfyconfig.toml` checks all of it.

## What is modelled

**The JSON library** (`MyJson`). `JsonGrammar` is the grammar of RFC 8259 as derivation trees with the value each tree
denotes; it does not mention the parser. `JsonParse` is the parser as functions on the rest of the text, with the same
branches and error codes as the C code (bytes from 0x80 up and lone low surrogate escapes are accepted, as there);
`JsonSound` and `JsonComplete` prove it equivalent to the grammar. `JsonFailures` says, without the parser, what can be
wrong with a text and where, and `JsonErrors` proves that each status is returned for exactly that. `LeptParser` follows the C code statement by
statement: a cursor, one byte stack shared by strings, array elements and object members that grows by halves
(`LeptContext`), and a heap of blocks (`LeptHeap`). Every method is proved to do what its function says, to leave the
stack as it was, and to account for every block. `JsonPrint` and `LeptPrinter` do the same for the generator, in the
fast version in use and the unoptimised one kept beside it, and `JsonCanonical` says which of the many spellings of a
value is printed. `LeptEqual` compares trees, `LeptTheorems` closes the
circle, and `LeptArray` is the growable array. `Utf8` and `Bits` are the encoder, down to the bit operators.

Numbers are bit patterns. `strtod`, `sprintf("%.17g")` and `==` on doubles are the parameters `libc` of the model. The
parser theorems ask of `strtod` that a number followed by a delimiter reads as the number alone
(`JsonGrammar.StrtodIsLocal`); the round trip asks that each number of the tree prints in the number grammar, in at most
31 bytes, and reads back as itself (`JsonPrint.NumberOk`).

**The timer manager** (`atpdxy/timer`). `TimerSpec` gives each operation as a function on the state with the clock reading
passed in, `TimerRuns` proves invariants over all runs, and `TimerManager` is the classes with their mutable fields, each
method proved to change the whole state as its function says.

**The thread pool and the fiber scheduler.** Transition systems: each critical section, wait, notification, task run, push
and decrement is one step of some worker or caller, and any enabled step may be next. What a run hands in, takes up and
gives back is read off its steps. The scan of the scheduler's queue is also given as the loop it is.

**The memory pool** (`MemoryPool`). `MemoryChunk`, `MemoryPool` and `DataBuffer` are the classes: chunks linked into free
lists by size class, the counters in kilobytes, and the buffers that hold chunks. `PoolSpec` and `BufferSpec` give each
call as a function on values, `BufferRuns` and `BufferCalls` prove what holds after every sequence of calls, and each method of
`DataBuffer.World` is proved to do what its function says; `DataBuffer.Run` makes any sequence of calls on the objects.
The two kinds of buffer are one class with a kind: `adjust` and `read_from_fd` are for input buffers, `write_to_buf` and
`write_to_fd` for output buffers, as in the C++ classes. What the system calls answer are parameters.

**Shell, radix and counting sort** (`排序算法`), in place, each with the reason it sorts as a lemma of its own.

These promises hold only under a condition, which is proved exactly.

- `lept_parse` gives up the tree of a value that is followed by other text: it sets the type to null without freeing. It
  loses blocks exactly when that value is a string or a non-empty array or object (`LeptTheorems.LosesIff`, with the text
  `LeptTheorems.StringLost`).
- `write_to_buf` asserts that the head of the chunk is 0, and output buffers have `pop` but no `adjust`. The assertion
  holds at every write exactly when none comes after a pop that took some but not all of the bytes, unless the buffer was
  empty in between (`BufferRuns.WritesAssertIff`, with the calls `BufferRuns.WriteAfterPartialPopFails`).
- The scheduler decrements its active count before it schedules a ready fiber again, so `stopping()` can be true while a
  fiber is about to be queued. It stays true exactly when no worker is in that window (`Scheduler.StoppingIsStableIff`,
  with the run `Scheduler.StoppingOverlooksAFiber`).
- A thread pool of size 0 drains only when nothing was handed in (`ThreadPool.DestructorDrainsIff`, with the run
  `ThreadPool.NoWorkersNoDrain`).
- With a clock that goes back, `refresh` and `listExpiredCb` can put a timer back earlier than the waiter saw without
  waking it (`TimerRuns.PromiseIff`, with the run `TimerRuns.StepBackLosesWakeup`).

## Model

| member | source | states |
|---|---|---|
| `JsonTheorems.ParseIffDerives` | MyJson/tutorial07/leptjson.cpp:311-343 | `lept_parse` returns OK with a value exactly when the text derives from `ws value ws` (RFC 8259, sections 2 to 7), with every high surrogate followed by a low one and no number out of range, and the derivation denotes that value |
| `JsonTheorems.DerivedValueIsUnique` | MyJson/tutorial07/leptjson.cpp:311-343 | a text denotes at most one value, whatever its derivation |
| `JsonErrors.FailsIff` | MyJson/tutorial07/leptjson.cpp:132-343 | for every text without NUL and every status: `lept_parse` returns that status exactly when the text breaks off where it says: nothing or no value, a number out of range, no closing quote, a byte below 0x20, no escape letter, not four hexadecimal digits, a lone high surrogate, neither comma nor bracket or brace behind an item, no quote for a key, no colon behind it, or a value with more than white space behind it |
| `JsonErrors.FailureIsUnique` | MyJson/tutorial07/leptjson.cpp:132-343 | no text fails in two ways, and none that fails is a text of the grammar |
| `JsonErrors.MissingColon` | MyJson/tutorial07/leptjson.cpp:269-272 | `{"a"}` fails for want of a colon, and so for nothing else |
| `JsonErrors.FailOf` | MyJson/tutorial07/leptjson.cpp:311-322 | a value that breaks off, after any correct beginning and however deep, is refused with the status of the place where it does |
| `JsonErrors.BreakIn` | MyJson/tutorial07/leptjson.cpp:311-322 | whenever a value is refused, its text breaks off at a place of that status |
| `JsonErrors.FailItemsOf` | MyJson/tutorial07/leptjson.cpp:209-233 | the same as for a value, for the items of an array |
| `JsonErrors.ItemsBreak` | MyJson/tutorial07/leptjson.cpp:209-233 | refused items break off, or there is neither comma nor bracket behind one |
| `JsonErrors.FailKeyOf` | MyJson/tutorial07/leptjson.cpp:259-274 | no quote, a string that breaks off and a missing colon have each their own status |
| `JsonErrors.KeyBreak` | MyJson/tutorial07/leptjson.cpp:259-274 | a refused key is one of these three |
| `JsonErrors.FailEntriesOf` | MyJson/tutorial07/leptjson.cpp:255-299 | the same as for a value, for the entries of an object |
| `JsonErrors.EntriesBreak` | MyJson/tutorial07/leptjson.cpp:255-299 | refused entries break off, or there is neither comma nor brace behind one |
| `JsonErrors.BadCharsOf` | MyJson/tutorial07/leptjson.cpp:138-183 | a string that breaks off after any characters is refused with the status of what stands there |
| `JsonErrors.CharsFault` | MyJson/tutorial07/leptjson.cpp:138-183 | a refused string breaks off at a place of that status |
| `JsonTheorems.PrintedPrefixParses` | MyJson/tutorial07/leptjson.cpp:311-322 | before the end, white space, a comma or a closing bracket, `lept_parse_value` takes exactly the printed value and leaves the rest |
| `JsonTheorems.RoundTrip` | MyJson/tutorial07/leptjson.cpp:324-448 | for arbitrary byte strings and numbers that convert back, parsing what was printed consumes all of it and gives the value back |
| `JsonTheorems.PrintIsInjective` | MyJson/tutorial07/leptjson.cpp:406-436 | two values with the same text are the same value |
| `JsonTheorems.PrintIsNulFree` | MyJson/tutorial07/leptjson.cpp:374-448 | a printed text holds no NUL before its last byte, so it is the C string `lept_parse` reads |
| `LeptTheorems.ParseDecides` | MyJson/tutorial07/leptjson.cpp:324-343 | the parser on its stack and heap returns OK exactly on the texts of the grammar, with a tree that stands for the value derived, and any other status exactly when the text fails with it; every new live block belongs to that tree exactly when the text is none of those that lose blocks |
| `LeptTheorems.LosesIff` | MyJson/tutorial07/leptjson.cpp:333-339 | blocks are given up exactly on white space, a string or a non-empty array or object, and behind it something other than white space |
| `LeptTheorems.StringLost` | MyJson/tutorial07/leptjson.cpp:333-339 | a string followed by one letter is such a text |
| `LeptTheorems.PrintAndParse` | MyJson/tutorial08/leptjson.cpp:619-669 | the real printer, then the real parser, then `lept_is_equal`: the parser succeeds and the trees are equal |
| `JsonComplete.ParseValueOf` | MyJson/tutorial07/leptjson.cpp:311-322 | each derivation followed by a delimiter is parsed to the value it denotes, and exactly its text is consumed |
| `JsonComplete.ParseElementsOf` | MyJson/tutorial07/leptjson.cpp:209-233 | the same for the elements and separators of an array |
| `JsonComplete.ParseMembersOf` | MyJson/tutorial07/leptjson.cpp:255-299 | the same for the members of an object |
| `JsonComplete.ParseCharsOf` | MyJson/tutorial07/leptjson.cpp:132-184 | the same for the characters of a string up to the closing quote |
| `JsonComplete.PairOf` | MyJson/tutorial07/leptjson.cpp:157-171 | two escapes that form a surrogate pair are read as the one scalar value RFC 2781 gives the pair |
| `JsonComplete.ScanNumberOf` | MyJson/tutorial07/leptjson.cpp:67-85 | a number is scanned to its end when a delimiter follows, or anything with which it is not the beginning of a longer one |
| `JsonComplete.ParseAccepts` | MyJson/tutorial07/leptjson.cpp:324-343 | every derived text is accepted |
| `JsonSound.ParsedValue` | MyJson/tutorial07/leptjson.cpp:311-322 | whenever the parser accepts, what it consumed is the text of some derivation, which denotes the value returned |
| `JsonSound.ParsedElements` | MyJson/tutorial07/leptjson.cpp:209-233 | the same for arrays |
| `JsonSound.ParsedMembers` | MyJson/tutorial07/leptjson.cpp:255-299 | the same for objects |
| `JsonSound.ParsedChars` | MyJson/tutorial07/leptjson.cpp:132-184 | the same for strings |
| `JsonSound.ScannedNumber` | MyJson/tutorial07/leptjson.cpp:67-85 | nothing but `[minus] int [frac] [exp]` is scanned, and as far as it goes |
| `JsonSound.ParsedText` | MyJson/tutorial07/leptjson.cpp:324-343 | every accepted text derives the value |
| `JsonPrint.PrintIsText` | MyJson/tutorial07/leptjson.cpp:406-436 | what is printed is the text of a derivation that denotes the value |
| `JsonPrint.EscapeIsChars` | MyJson/tutorial07/leptjson.cpp:374-403 | the escapes of a string are well-formed characters that denote its bytes, for every byte from 0x00 to 0xFF |
| `JsonCanonical.PrintIsCanonical` | MyJson/tutorial07/leptjson.cpp:374-436 | a value is printed as its shortest spelling: of all derivations that denote it and spell its numbers as `sprintf` does, none is shorter, and the one as short whose hexadecimal digits are capital is the printed text |
| `JsonCanonical.ValueFits` | MyJson/tutorial07/leptjson.cpp:406-436 | any spelling of a value is at least as long as the printed text, and the same if as long and in capital digits: no white space, no escape where a shorter one exists |
| `JsonCanonical.CharFits` | MyJson/tutorial07/leptjson.cpp:374-403 | the same for one character of a string: plain if it may be, then an escape letter, and `\u00XX` only where there is neither |
| `Utf8.Encode` | MyJson/tutorial07/leptjson.cpp:109-128 | the shifts, masks and ors give the byte layout of section 3 of RFC 3629 |
| `Utf8.DecodingInvertsEncoding` | MyJson/tutorial07/leptjson.cpp:109-128 | a strict decoder accepts exactly the concatenated encodings of scalar values, and gives those values back |
| `Utf8.DecodeOfEncode` | MyJson/tutorial07/leptjson.cpp:109-128 | the first encoding of a text is recognised with its length, whatever follows |
| `Utf8.EncodeOfDecode` | MyJson/tutorial07/leptjson.cpp:109-128 | what the strict decoder takes is what the encoder writes: no overlong form, no surrogate |
| `Utf8.CombineIsInjective` | MyJson/tutorial07/leptjson.cpp:159-169 | the pair formula stays between 0x10000 and 0x10FFFF, so the assertion of the encoder holds, and the pair can be read back from it |
| `Utf8.CombineIsSurjective` | MyJson/tutorial07/leptjson.cpp:159-169 | every value from 0x10000 to 0x10FFFF comes from a pair |
| `LeptContext.Context.Push` | MyJson/tutorial07/leptjson.cpp:29-42 | growth by halves makes room, keeps the stack below and hands out the bytes above it |
| `LeptContext.Context.Pop` | MyJson/tutorial07/leptjson.cpp:44-47 | the top goes down; what is below stays |
| `LeptContext.Context.PutByte` | MyJson/tutorial07/leptjson.cpp:20 | one byte is appended, across reallocation |
| `LeptContext.Context.PutBytes` | MyJson/tutorial07/leptjson.cpp:21 | bytes are appended, across reallocation |
| `LeptContext.Context.PushItem` | MyJson/tutorial07/leptjson.cpp:214 | the bytes of an element or a member are appended to the same stack |
| `LeptContext.Context.CopyBytes` | MyJson/tutorial07/leptjson.cpp:510-518 | bytes read off the stack are the string that was pushed |
| `LeptContext.Context.CopyItems` | MyJson/tutorial07/leptjson.cpp:226 | items read off the stack are the ones pushed, in order |
| `LeptContext.FlatAt` | MyJson/tutorial07/leptjson.cpp:214-226 | items of one size lie at the multiples of that size |
| `LeptParser.ParseWhitespace` | MyJson/tutorial07/leptjson.cpp:49-54 | exactly the white space is skipped, within the text |
| `LeptParser.ParseLiteralText` | MyJson/tutorial07/leptjson.cpp:56-65 | a literal is read or rejected as the specification says |
| `LeptParser.ParseNumberAt` | MyJson/tutorial07/leptjson.cpp:67-93 | a number is scanned, converted and rejected as the specification says |
| `LeptParser.ParseHex4` | MyJson/tutorial07/leptjson.cpp:95-107 | four digits give their number, and fewer than four are rejected without reading on |
| `LeptParser.EncodeUtf8` | MyJson/tutorial07/leptjson.cpp:109-128 | the bytes of the UTF-8 form are appended |
| `LeptParser.ParseUnicodeAt` | MyJson/tutorial07/leptjson.cpp:156-169 | an escape or pair of escapes gives the specified value or error |
| `LeptParser.ParseCharsAt` | MyJson/tutorial07/leptjson.cpp:138-184 | the loop over the characters refines the specification: the bytes read are on the stack, and on an error the same one is returned |
| `LeptParser.ParseStringRaw` | MyJson/tutorial07/leptjson.cpp:132-184 | the top of the stack is back where it was on success and on every error, and on success the string lies just above it |
| `LeptParser.SetString` | MyJson/tutorial07/leptjson.cpp:510-518 | the value gets a new block with the string, and no other block changes hands |
| `LeptParser.ParseStringValue` | MyJson/tutorial07/leptjson.cpp:186-193 | a string value owns exactly one new block |
| `LeptParser.ParseElementsAt` | MyJson/tutorial07/leptjson.cpp:209-238 | the elements on the stack become the array in order, or all are popped and freed; the stack below and the heap are then as before |
| `LeptParser.ParseArray` | MyJson/tutorial07/leptjson.cpp:197-238 | the array refines its specification, stack and heap included |
| `LeptParser.ParseKey` | MyJson/tutorial07/leptjson.cpp:258-274 | a key is owned on success and freed on a missing colon |
| `LeptParser.ParseMembersAt` | MyJson/tutorial07/leptjson.cpp:255-308 | the members on the stack become the object in order, or all keys and values are freed |
| `LeptParser.ParseObject` | MyJson/tutorial07/leptjson.cpp:240-309 | the object refines its specification, stack and heap included |
| `LeptParser.DropElements` | MyJson/tutorial07/leptjson.cpp:234-237 | popping and freeing the elements releases exactly their blocks |
| `LeptParser.DropMembers` | MyJson/tutorial07/leptjson.cpp:300-306 | popping and freeing the members releases exactly their blocks |
| `LeptParser.ParseValue` | MyJson/tutorial07/leptjson.cpp:311-322 | for every text: status, value, text consumed and error are those of the specification, the stack is as before, on success the new live blocks are those of the tree, each once, and on an error there is none and the target is null |
| `LeptParser.Parse` | MyJson/tutorial07/leptjson.cpp:324-343 | every C string terminates within its NUL with the specified status and value; `c.top == 0` holds; the live blocks are those before, those of the tree returned and those of the tree given up, which is there exactly when text follows the value |
| `LeptHeap.Heap.FreeTree` | MyJson/tutorial07/leptjson.cpp:450-472 | each block of the tree is released once and nothing else |
| `LeptHeap.Heap.Malloc` | MyJson/tutorial07/leptjson.cpp:226 | a block handed out was not live |
| `LeptHeap.BlocklessIff` | MyJson/tutorial07/leptjson.cpp:335-338 | a tree owns no block exactly when its value is no string and no non-empty array or object |
| `LeptPrinter.StringifyStringSimple` | MyJson/tutorial07/leptjson.cpp:345-372 | the disabled unoptimised version appends the printed string |
| `LeptPrinter.StringifyString` | MyJson/tutorial07/leptjson.cpp:374-403 | the version in use appends the same bytes as the unoptimised one, stays within the 6 * len + 2 bytes it reserved, and leaves the top behind the last of them |
| `LeptPrinter.StringifyNumber` | MyJson/tutorial07/leptjson.cpp:412 | the 32 bytes reserved are cut back to what `sprintf` wrote |
| `LeptPrinter.StringifyArray` | MyJson/tutorial07/leptjson.cpp:414-422 | the loop with its commas appends the printed array |
| `LeptPrinter.StringifyObject` | MyJson/tutorial07/leptjson.cpp:423-433 | the loop with its commas and keys appends the printed object |
| `LeptPrinter.StringifyValue` | MyJson/tutorial07/leptjson.cpp:406-436 | every value is appended as the printer specification says |
| `LeptPrinter.Stringify` | MyJson/tutorial07/leptjson.cpp:438-448 | the text is the printed value and a NUL, and the length leaves the NUL out |
| `LeptEqual.IsEqual` | MyJson/tutorial08/leptjson.cpp:619-669 | the loops decide structural equality, keys in order and numbers as doubles |
| `LeptEqual.EqualIsReflexive` | MyJson/tutorial08/leptjson.cpp:619-669 | a value equals itself exactly when it holds no NaN |
| `LeptEqual.EqualIsSymmetric` | MyJson/tutorial08/leptjson.cpp:619-669 | equality is symmetric |
| `LeptEqual.EqualIsTransitive` | MyJson/tutorial08/leptjson.cpp:619-669 | equality is transitive |
| `LeptEqual.EqualIsIdentity` | MyJson/tutorial08/leptjson.cpp:619-669 | where numbers are equal only to themselves, two values are equal exactly when they are the same |
| `LeptArray.RunIsAmortized` | MyJson/tutorial08/leptjson.cpp:672-717 | any run of pushes and pops from an empty array moves fewer than two elements per push |
| `LeptArray.RunIsExact` | MyJson/tutorial08/leptjson.cpp:672-717 | after any run the length is what the pushes and pops leave, the capacity is the power of two at or next above the largest length on the way and never goes down, and growing has moved one element fewer than that |
| `LeptArray.SetArray` | MyJson/tutorial08/leptjson.cpp:672-679 | the tree the value held is freed, each block once, and the new array is empty with the capacity asked for |
| `LeptArray.ArrayValue.Reserve` | MyJson/tutorial08/leptjson.cpp:685-691 | the elements are kept, and the capacity is the larger of the old one and the one asked for |
| `LeptArray.ArrayValue.Pushback` | MyJson/tutorial08/leptjson.cpp:706-712 | a null value is appended, and the shape moves as in the run |
| `LeptArray.ArrayValue.Popback` | MyJson/tutorial08/leptjson.cpp:714-717 | the last element goes, with exactly its blocks |
| `TimerRuns.NoLostWakeup` | C++高性能服务器/atpdxy/timer/timer.cpp:51-205 | after any run with a clock that does not go back: `onTimerInsertedAtFront` was called at most once since the last `getNextTime`, exactly when `m_tickled`, and otherwise no deadline is earlier than the one that call saw |
| `TimerRuns.PromiseIff` | C++高性能服务器/atpdxy/timer/timer.cpp:63-205 | with a clock that may go back, `refresh` and `listExpiredCb` keep that promise exactly when the waiter has been woken already or what they put back is due no earlier than it saw; every other operation keeps it |
| `TimerRuns.StepBackLosesWakeup` | C++高性能服务器/atpdxy/timer/timer.cpp:154-190 | a recurring timer and a clock set back by two hours: the timer is due earlier than the waiter saw, and nobody is woken |
| `TimerRuns.MembershipHolds` | C++高性能服务器/atpdxy/timer/timer.cpp:42-205 | after any run with any clock: the set is ordered, a timer has a callback exactly when it is in the set, and `m_next - m_ms` does not underflow |
| `TimerRuns.ApplyKeepsStructure` | C++高性能服务器/atpdxy/timer/timer.cpp:42-205 | every operation keeps order and membership |
| `TimerRuns.ApplyKeepsWakeup` | C++高性能服务器/atpdxy/timer/timer.cpp:42-205 | every operation keeps the wake-up invariant |
| `TimerSpec.ExpiryIsExact` | C++高性能服务器/atpdxy/timer/timer.cpp:154-190 | exactly the callbacks of the timers due, or after a rollover of all, are returned in the order of deadline and address; the recurring ones are armed again at now plus period, the others lose their callback, the clock reading is kept unless the set was empty, and nothing else changes |
| `TimerSpec.ProbeDoesNotMatter` | C++高性能服务器/atpdxy/timer/timer.cpp:170-175 | the address of the probe timer does not change the outcome |
| `TimerSpec.DueIsPrefix` | C++高性能服务器/atpdxy/timer/timer.cpp:172-175 | `lower_bound` and the loop over equal deadlines stop at the first timer due later |
| `TimerRuns.DeadStaysDead` | C++高性能服务器/atpdxy/timer/timer.cpp:51-61 | once cancelled or fired for the last time, a timer is in the set in no later state, whatever is called |
| `TimerRuns.CancelledNeverExpires` | C++高性能服务器/atpdxy/timer/timer.cpp:51-61 | once cancelled, a timer is among those that expire in no state any later calls lead to, whatever the clock does |
| `TimerSpec.CancelIsExact` | C++高性能服务器/atpdxy/timer/timer.cpp:51-61 | a cancel answers whether there was a callback, drops it and takes the timer out of the set; every other timer, the flag, the clock reading and the calls of `onTimerInsertedAtFront` stay |
| `TimerSpec.RefreshIsExact` | C++高性能服务器/atpdxy/timer/timer.cpp:63-79 | a refresh succeeds exactly for a timer of the set, counts its period from now, and changes nothing else: same set, other timers, flag and clock reading |
| `TimerSpec.AddIsExact` | C++高性能服务器/atpdxy/timer/timer.cpp:42-49 | a new timer is in the set with its deadline; `onTimerInsertedAtFront` is called exactly when it is due before all others and nobody was woken since the last `getNextTime` |
| `TimerSpec.ResetIsExact` | C++高性能服务器/atpdxy/timer/timer.cpp:82-110 | a reset keeps the set, and wakes exactly when it took effect on a timer that is then due before all others |
| `TimerSpec.NextIsExact` | C++高性能服务器/atpdxy/timer/timer.cpp:136-151 | `getNextTime` clears the flag and otherwise leaves all as it is; what the waiter has seen is the earliest deadline |
| `TimerSpec.OrderIsDetermined` | C++高性能服务器/atpdxy/timer/timer.cpp:6-26 | which timers are in the set fixes their order |
| `TimerSpec.NextIsEarliest` | C++高性能服务器/atpdxy/timer/timer.cpp:136-151 | the wait is the time to the earliest deadline of the set, 0 when it has passed, and the largest number for an empty set |
| `TimerSpec.ResetKeepsStart` | C++高性能服务器/atpdxy/timer/timer.cpp:82-110 | a reset counts from now or from where the timer started, succeeds exactly for a live timer or when nothing is to change, and touches no other timer |
| `TimerSpec.ComparatorIsStrictOrder` | C++高性能服务器/atpdxy/timer/timer.cpp:6-26 | the comparator is irreflexive, asymmetric, transitive and total on different addresses |
| `TimerSpec.InsertedIsOrdered` | C++高性能服务器/atpdxy/timer/timer.cpp:194 | insertion keeps the order and adds the one timer |
| `TimerManager.Timer.constructor` | C++高性能服务器/atpdxy/timer/timer.cpp:28-35 | a new timer is due its period after now |
| `TimerManager.Manager.LowerBound` | C++高性能服务器/atpdxy/timer/timer.cpp:172 | the position of a key is the number of timers before it |
| `TimerManager.Manager.Find` | C++高性能服务器/atpdxy/timer/timer.cpp:56 | the timer is found exactly when it is in the set |
| `TimerManager.Manager.AddVal` | C++高性能服务器/atpdxy/timer/timer.cpp:192-205 | insertion, wake-up flag and callback as specified |
| `TimerManager.Manager.AddTimer` | C++高性能服务器/atpdxy/timer/timer.cpp:42-49 | a new timer is added as specified |
| `TimerManager.Manager.Cancel` | C++高性能服务器/atpdxy/timer/timer.cpp:51-61 | as specified, whole new state; `find` always reaches the timer that is erased |
| `TimerManager.Manager.TakeOut` | C++高性能服务器/atpdxy/timer/timer.cpp:72-75 | keys change only while the timer is out of the set |
| `TimerManager.Manager.Refresh` | C++高性能服务器/atpdxy/timer/timer.cpp:63-79 | as specified, whole new state |
| `TimerManager.Manager.Reset` | C++高性能服务器/atpdxy/timer/timer.cpp:82-110 | as specified, whole new state |
| `TimerManager.Manager.GetNextTime` | C++高性能服务器/atpdxy/timer/timer.cpp:136-151 | the flag is cleared and the wait is until the first deadline |
| `TimerManager.Manager.DetectClockRollover` | C++高性能服务器/atpdxy/timer/timer.cpp:208-218 | it answers true for a step back by more than an hour, and in the first hour of the clock for any step back; the clock reading is kept |
| `TimerSpec.RolloverIff` | C++高性能服务器/atpdxy/timer/timer.cpp:211-214 | the unsigned subtraction means exactly that, for every 64-bit reading |
| `TimerSpec.StepBackExpires` | C++高性能服务器/atpdxy/timer/timer.cpp:164-189 | after such a step every timer of the set expires, after a smaller one only those due |
| `TimerManager.Manager.RetireExpired` | C++高性能服务器/atpdxy/timer/timer.cpp:179-189 | the loop over the expired timers reaches the specified state and callbacks |
| `TimerManager.Manager.ListExpired` | C++高性能服务器/atpdxy/timer/timer.cpp:154-190 | as specified, whole new state and the callbacks |
| `ThreadPool.EachTaskOnce` | ThreadPool/ThreadPool.h:27-70 | in every interleaving workers take up the tasks in the order in which `enqueue` was called with them, and each task so handed in is queued, running or returned, once |
| `ThreadPool.DestructorDrains` | ThreadPool/ThreadPool.h:72-85 | with a worker, when the destructor has returned the queue is empty and every task handed in has been run, once |
| `ThreadPool.DestructorDrainsIff` | ThreadPool/ThreadPool.h:72-85 | all tasks handed in have been run at that point exactly when there was a worker or nothing was handed in |
| `ThreadPool.RecordsAreTrue` | ThreadPool/ThreadPool.h:33-68 | the records of accepted, started and finished tasks are what the steps of the run handed in, took up and returned |
| `ThreadPool.WorkIsBounded` | ThreadPool/ThreadPool.h:27-85 | the pool does not spin: in any run its steps are bounded by the tasks handed in and the stray wake-ups |
| `ThreadPool.NoWorkersNoDrain` | ThreadPool/ThreadPool.h:72-85 | a pool of size 0 with one task: the destructor returns over a queued task |
| `ThreadPool.NoLostWakeup` | ThreadPool/ThreadPool.h:33-68 | with a task queued some worker is awake or a notification pending, and after `stop_` either `notify_all` is pending or no worker sleeps |
| `ThreadPool.StoppedStepsProgress` | ThreadPool/ThreadPool.h:72-85 | once stopped, every step brings a well-founded measure down |
| `ThreadPool.StoppedCanStep` | ThreadPool/ThreadPool.h:72-85 | once stopped and not done, a step other than a spurious wake-up is always possible |
| `ThreadPool.ShutdownIsBounded` | ThreadPool/ThreadPool.h:72-85 | the shutdown takes at most as many steps as the measure says |
| `ThreadPool.InvariantHolds` | ThreadPool/ThreadPool.h:27-85 | every step keeps conservation, draining and progress |
| `Scheduler.Scan` | C++高性能服务器/atpdxy/scheduler/scheduler.cpp:196-228 | the loop takes the first entry that is neither pinned to another thread nor executing, keeps the order of the rest, and asks for a tickle exactly when it passed a pinned entry or left something behind |
| `Scheduler.ActiveCountIsExact` | C++高性能服务器/atpdxy/scheduler/scheduler.cpp:184-317 | `m_activeThreadCount` is the number of workers between their dequeue and their decrement, in every interleaving |
| `Scheduler.StoppingIsQuiescent` | C++高性能服务器/atpdxy/scheduler/scheduler.cpp:326-333 | when `stopping()` is true every entry ever pushed has been dequeued and its worker is past the decrement |
| `Scheduler.StoppingIsStableIff` | C++高性能服务器/atpdxy/scheduler/scheduler.cpp:239-247 | `stopping()` stays true over every run of the workers exactly when no worker holds a fiber it has yet to schedule again |
| `Scheduler.LeftBehind` | C++高性能服务器/atpdxy/scheduler/scheduler.cpp:184-317 | when all workers have left, each entry still queued is pinned to another thread than the last one that left, or its fiber is executing, or it was pushed from outside after that |
| `Scheduler.StoppingOverlooksAFiber` | C++高性能服务器/atpdxy/scheduler/scheduler.cpp:239-247 | one worker and one yielding fiber: `stopping()` is true between the decrement and `schedule` |
| `Scheduler.ScheduleNoBlock` | C++高性能服务器/atpdxy/scheduler/scheduler.h:118-130 | an empty task is not queued, any other becomes the last entry, and the answer is whether the queue was empty |
| `Scheduler.InvariantHolds` | C++高性能服务器/atpdxy/scheduler/scheduler.cpp:184-317 | every entry is queued, held or passed, once, after any run |
| `SchedulerRuns.EachEntryOnce` | C++高性能服务器/atpdxy/scheduler/scheduler.cpp:184-317 | in every interleaving each entry handed in, from outside or for a fiber that came back ready, is queued or with a worker, or was run, or was dropped because its fiber had finished or thrown: once |
| `SchedulerRuns.PassedWereRun` | C++高性能服务器/atpdxy/scheduler/scheduler.cpp:235-294 | the entries whose worker is past the decrement are those that were run, or dropped for that reason |
| `SchedulerRuns.StoppingMeansAllRan` | C++高性能服务器/atpdxy/scheduler/scheduler.cpp:326-333 | when `stopping()` is true every entry handed in was run, or dropped for that reason |
| `SchedulerRuns.ReadyComesBack` | C++高性能服务器/atpdxy/scheduler/scheduler.cpp:243-247 | a fiber that yields ready is scheduled again, once for each time, or its worker still has to |
| `SchedulerRuns.LeftSawStopping` | C++高性能服务器/atpdxy/scheduler/scheduler.cpp:297-314 | a worker has left exactly when its idle fiber saw `stopping()` and it found nothing to do after that |
| `SchedulerRuns.ExecutingIsLeftAlone` | C++高性能服务器/atpdxy/scheduler/scheduler.cpp:212-217 | from the swap-in of a fiber until its run is over, no worker may take another entry of it |
| `SchedulerRuns.HeldAfterItsRun` | C++高性能服务器/atpdxy/scheduler/scheduler.cpp:242-252 | past the decrement a fiber is held unless it yielded ready, finished or threw, and may be taken again |
| `MemoryPool.EveryChunkInOnePlace` | MemoryPool/memory_pool.cpp:52-110 | a chunk is held or on the list of its own capacity, at one place only |
| `MemoryPool.AccountsBalance` | MemoryPool/memory_pool.cpp:52-110 | `m_left_size_kb_` is what is free, `m_total_size_kb_` is that plus what is held, and it stays below the limit |
| `MemoryChunk.LinkedIsAcyclic` | MemoryPool/memory_pool.cpp:98-110 | a list that ends visits no chunk twice |
| `MemoryChunk.LinkedIsUnique` | MemoryPool/memory_pool.cpp:98-110 | the links determine the list |
| `MemoryPool.FindClass` | MemoryPool/memory_pool.cpp:57-66 | the loop finds the smallest size class that holds the request, and fails exactly above 4 MB |
| `MemoryPool.NewChain` | MemoryPool/memory_pool.cpp:7-33 | the chain has the number of chunks asked for, new and linked in order |
| `MemoryPool.MemPool.MemInit` | MemoryPool/memory_pool.cpp:4-35 | a new list of that size and the total raised accordingly |
| `MemoryPool.MemPool.constructor` | MemoryPool/memory_pool.cpp:38-49 | the six lists with their numbers of chunks, all free |
| `MemoryPool.MemPool.TakeFirst` | MemoryPool/memory_pool.cpp:90-94 | the first free chunk of the size is handed out, detached and empty |
| `MemoryPool.MemPool.NewChunk` | MemoryPool/memory_pool.cpp:70-87 | an empty list grows by a new chunk while the limit allows |
| `MemoryPool.MemPool.AllocChunk` | MemoryPool/memory_pool.cpp:52-95 | null exactly above 4 MB; otherwise a chunk of the smallest fitting class, the first of the list or new; the process ends exactly when the list is empty and the limit reached; on a failure lists, chunks and counters are as before |
| `MemoryPool.MemPool.Retrieve` | MemoryPool/memory_pool.cpp:98-110 | a held chunk goes, empty, to the front of its list, and the counters follow |
| `MemoryPool.MemPool.ListSizeByte` | MemoryPool/memory_pool.cpp:113-132 | the walk along the list adds up its capacity, and a size without list gives 0 |
| `MemoryChunk.Chunk.Adjust` | MemoryPool/chunk.cpp:21-29 | the contents move to the front unchanged, though source and target overlap |
| `MemoryChunk.Chunk.Copy` | MemoryPool/chunk.cpp:31-36 | the contents are those of the other chunk |
| `MemoryChunk.Chunk.Pop` | MemoryPool/chunk.cpp:38-42 | the first bytes go |
| `MemoryChunk.Chunk.Clear` | MemoryPool/chunk.cpp:16-19 | the chunk is empty and its head is 0 |
| `PoolSpec.AllocIsAccounted` | MemoryPool/memory_pool.cpp:68-94 | an allocation takes its kilobytes off the free ones or adds them to the total |
| `PoolSpec.GiveBackIsAccounted` | MemoryPool/memory_pool.cpp:98-110 | a chunk given back is free again, kilobyte by kilobyte |
| `BufferRuns.AccountsHold` | MemoryPool/data_buf.cpp:21-158 | after every sequence of calls: `m_left_size_kb_` is what is free, `m_total_size_kb_` is that and the chunks the buffers hold, it never shrinks and stays below the limit |
| `BufferRuns.FirstInFirstOut` | MemoryPool/data_buf.cpp:21-158 | after every sequence of calls: what came out of a buffer and what is in it is what went in, in that order |
| `BufferRuns.HeadIff` | MemoryPool/data_buf.cpp:21-158 | after every sequence of calls: the head of a buffer is past 0 exactly when a pop took some but not all of its bytes and it was neither empty nor adjusted since |
| `BufferRuns.WriteAssertionIff` | MemoryPool/data_buf.cpp:120 | the assertion of a write fails exactly then |
| `BufferRuns.WritesAssertIff` | MemoryPool/data_buf.cpp:107-137 | the assertion holds at every write of a sequence exactly when none comes while its buffer is partly popped |
| `BufferRuns.WriteAfterPartialPopFails` | MemoryPool/data_buf.cpp:107-137 | write two bytes, pop one, write again: the assertion fails |
| `BufferCalls.AssertionIff` | MemoryPool/data_buf.cpp:21-158 | after every sequence of calls: a write fails its assertion exactly when the buffer is partly popped; a read then or when it delivers less than announced; `write_to_fd` exactly without a chunk or when partly popped; a pop exactly without a chunk or for more bytes than there are; no other call does |
| `BufferCalls.LimitIff` | MemoryPool/data_buf.cpp:44-137 | after every sequence of calls: the process leaves at the limit exactly when a write or a read needs a chunk of a class that has none left, and one more would reach 4 GB |
| `BufferCalls.PopGivesBack` | MemoryPool/data_buf.cpp:21-31 | after every sequence of calls: a pop of all bytes leaves no chunk and one more free of its class, a pop of fewer keeps the chunk and leaves the accounts alone; the bytes are the rest |
| `BufferCalls.PopOutcome` | MemoryPool/data_buf.cpp:21-31 | the whole outcome of a pop in every state: when it fails, when the chunk is free again, and where the head is |
| `BufferCalls.WriteOutcome` | MemoryPool/data_buf.cpp:107-137 | the whole outcome of a write: the bytes behind those there were, in the chunk there is if they fit and otherwise in one of the smallest class that holds all, with the old one free again; or refused above 4 MB with nothing changed |
| `BufferCalls.ReadOutcome` | MemoryPool/data_buf.cpp:44-94 | the same for a read, with room for what was announced |
| `BufferCalls.FlushOutcome` | MemoryPool/data_buf.cpp:139-158 | the whole outcome of `write_to_fd`: what was written leaves the front, and the chunk stays, even when empty |
| `BufferCalls.ClearOutcome` | MemoryPool/data_buf.cpp:34-41 | after a clear the buffer has no chunk, and the one it had is free |
| `BufferCalls.DestroyOutcome` | MemoryPool/data_buf.cpp:9-12 | the same after the destructor |
| `BufferCalls.AdjustOutcome` | MemoryPool/data_buf.cpp:101-105 | an adjust sets the head to 0 and changes nothing else |
| `BufferCalls.AllocIsExact` | MemoryPool/memory_pool.cpp:52-95 | a chunk is of the smallest class that fits, one of the free ones if there is any and new otherwise; refused exactly above 4 MB, and out of memory exactly with none free and the limit reached |
| `BufferCalls.HoldsIff` | MemoryPool/data_buf.cpp:21-158 | after every sequence of calls: a buffer holds a chunk exactly when something was stored that fits 4 MB, if only nothing, and since then no pop of all, clear or destructor |
| `DataBuffer.Run` | MemoryPool/data_buf.cpp:1-158 | every sequence of calls on a new pool, made on the objects, ends in the state of the calls on values, with `Valid()` |
| `DataBuffer.World.Step` | MemoryPool/data_buf.cpp:1-158 | each call does to all buffers and to the accounts what the call on values does, and reaches no object but new ones and its own |
| `DataBuffer.HeldByOneBuffer` | MemoryPool/data_buf.cpp:21-137 | a chunk handed out is held by exactly one buffer, a free one by none |
| `DataBuffer.BuffersAreApart` | MemoryPool/data_buf.cpp:21-137 | two buffers share neither chunk nor bytes, and a free chunk shares none with them |
| `DataBuffer.World.constructor` | MemoryPool/memory_pool.cpp:38-49 | a new pool with all its chunks free, and no buffers |
| `DataBuffer.World.NewBuffer` | MemoryPool/data_buf.cpp:3-7 | a new buffer has no chunk |
| `DataBuffer.World.WriteToBuf` | MemoryPool/data_buf.cpp:107-137 | the bytes are appended, also when the contents move to a larger chunk; it answers -1 exactly when they would exceed 4 MB, and then, as when the pool is at its limit, no chunk moves; the chunk it leaves becomes free, the one it takes was free or is new; all else stays |
| `DataBuffer.World.ReadFromFd` | MemoryPool/data_buf.cpp:44-94 | the same for what `read` delivers, with room for what `ioctl` announced |
| `DataBuffer.World.WriteToFd` | MemoryPool/data_buf.cpp:139-158 | what `write` took leaves the front, and the rest moves there |
| `DataBuffer.World.Grow` | MemoryPool/data_buf.cpp:121-132 | the contents survive the move, and the old chunk is free again |
| `DataBuffer.World.Pop` | MemoryPool/data_buf.cpp:21-31 | the call on values, on the objects: the first bytes go, an emptied chunk becomes free, otherwise the head advances; with no chunk or for more than there is the assertion fails |
| `DataBuffer.World.Clear` | MemoryPool/data_buf.cpp:34-41 | the chunk becomes free |
| `DataBuffer.World.Adjust` | MemoryPool/data_buf.cpp:101-105 | the contents of an input buffer stay and its head is 0 |
| `DataBuffer.World.Length` | MemoryPool/data_buf.cpp:15-18 | the number of bytes held |
| `DataBuffer.World.Destroy` | MemoryPool/data_buf.cpp:9-12 | the buffer is gone, without a chunk, and its chunk is free |
| `ShellSort.GapsAreKept` | 排序算法/sort.cpp:441-445 | rearranging each chain of one gap into order keeps the order along every other gap |
| `ShellSort.Pass` | 排序算法/sort.cpp:441-445 | an insertion pass leaves the array sorted along its gap, a permutation along each chain, and still sorted along every gap it was sorted along |
| `ShellSort.Sort` | 排序算法/sort.cpp:433-448 | 3h + 1 up and h / 3 down end with the gap 1 and a sorted permutation |
| `RadixSort.GetDigit` | 排序算法/sort.cpp:299-307 | the loop gives the decimal digit, with a divisor that stays a 32-bit number |
| `RadixSort.DivisorFits` | 排序算法/sort.cpp:299-307 | for the digits of a 32-bit maximum the divisor is at most 10^9, as each call from the sort needs |
| `RadixSort.CollectedIsSorted` | 排序算法/sort.cpp:330-343 | a stable pass over digit d extends the order from the lower d digits to d + 1 |
| `RadixSort.CollectedIsPermutation` | 排序算法/sort.cpp:330-343 | a pass loses and adds no number |
| `RadixSort.Pass` | 排序算法/sort.cpp:330-343 | distributing and collecting in place is the stable pass |
| `RadixSort.CountDigits` | 排序算法/sort.cpp:311-324 | the number of digits of the maximum bounds every number |
| `RadixSort.Sort` | 排序算法/sort.cpp:309-345 | a sorted permutation, for every non-empty array of non-negative 32-bit numbers, without overflow of the divisor |
| `CountSort.RankIsStableOrder` | 排序算法/sort.cpp:383-384 | the place of an element compares as its value, and among equals as its index |
| `CountSort.EverySlotIsTaken` | 排序算法/sort.cpp:383-384 | each slot of the result is the place of some element |
| `CountSort.PlacedIsSorted` | 排序算法/sort.cpp:383-384 | elements at their places are sorted |
| `CountSort.PlacedIsPermutation` | 排序算法/sort.cpp:383-384 | elements at their places are a permutation |
| `CountSort.Tally` | 排序算法/sort.cpp:374-377 | the table counts each value |
| `CountSort.PrefixSums` | 排序算法/sort.cpp:379-380 | the sums count the values up to each one |
| `CountSort.Place` | 排序算法/sort.cpp:382-384 | the backward scan puts every element at its place, each slot once and in bounds |
| `CountSort.Sort` | 排序算法/sort.cpp:359-391 | the stable sorted permutation of the input |

## Left out

- Floating point: the values `strtod` and `sprintf` compute; they are the parameters described above, and numbers that do not read back are outside the round trip.
- Failing `malloc` and `realloc`, overflow of `size_t`, and recursion depth; growth keeps the contents. The block behind the byte stack itself is allocated once and freed at the end of `lept_parse`, and is not counted in the heap.
- `lept_copy`, `lept_insert_array_element`, `lept_erase_array_element`, `lept_reserve_object`, `lept_shrink_object` and `lept_set_object_value` of tutorial 08: they mix sizes with capacities or leave fields unset, and no contract follows from them. The getters and setters of scalars read or write one field. Tutorials 01 to 06 are earlier states of tutorial 07.
- LeptParser.Parse: `v` is taken to be null on entry, as `lept_init` makes it; a tree it held before is not freed by the C code and is not modelled.
- LeptEqual.IsEqual: compares the values that two trees stand for, as `LeptPrinter` prints them; both only read, so the blocks behind a tree play no part.
- LeptTheorems.PrintAndParse: asks that no number of the tree is a NaN, since a NaN does not equal itself.
- TimerManager.Manager.ListExpired: one atomic step; in the C++ code the emptiness test and the rest are under two locks, so a cancellation in between can leave an empty set to the dereference of `begin()`. Deadlines are unbounded here, only the clock comparison wraps at 64 bits.
- TimerRuns.NoLostWakeup: asks for a clock that does not go back; `TimerRuns.PromiseIff` says what happens otherwise.
- `addConditionTimer`: its timers are timers whose callback checks a weak pointer, which is not modelled.
- ThreadPool: futures, the packaged task and exceptions thrown by it; a task run is one step that ends.
- Scheduler: `ucontext` switching, `use_caller`, starting and joining threads, and what `tickle` does; a fiber run is one step that ends in any state, and one fiber queued twice is not excluded. In the transition system only schedules of a task that is not empty are steps. A fiber that ended is dropped with its count at once.
- SchedulerRuns.HeldAfterItsRun: speaks of the time in which no other worker begins or ends a run of the same fiber; with one fiber queued twice the two workers overwrite each other's state.
- DataBuffer.World.WriteToBuf: lengths are unbounded, so the sum `len + length` does not wrap at 32 bits.
- DataBuffer.World.ReadFromFd: when `ioctl` announces nothing, `read` is taken to deliver nothing; the C++ code then offers it 4 KB whatever room is left. A failing `ioctl` returns before anything happens.
- DataBuffer.World.Pop: lengths are not negative.
- `print_data` and `print_list_content` (output), and failing `new`.
- MemoryPool.MemPool.AllocChunk: one atomic step under the mutex; the outcome in which the process exits is a value of the model.
- RadixSort.Sort: non-empty arrays of non-negative 32-bit numbers, as the code needs; `max = arr[0]` reads an empty vector otherwise.
- CountSort.Sort: non-empty arrays; differences and counts do not wrap at 32 bits, and the printing is left out.
- The other sorts, the STL exercises, logging, configuration, the I/O manager, sockets and the FastDFS client: the former are textbook code, the latter wrap system calls.
