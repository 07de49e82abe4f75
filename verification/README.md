# Verified model of parallax

parallax runs PHP callables on threads. Values cross from one interpreter to another as plain C trees (`value_t`), a wait
group starts and joins the threads, and inline closures travel as source text. This project models the four parts of the
extension that carry that promise, and proves what they promise for every input, every run and every reachable state.

- **The packed value codec** (`value/pack.c`, over the trees of `value/value.c` and `value/clone.c`). `Values` and
  `PackFormat` are the mathematical side: value trees, writer, reader. `PackProofs` and `Varint` prove the round trip, that
  packed values are a prefix code, that a read depends only on the bytes it takes, and that re-packing canonicalises. The
  imperative side is proved against it: `ValueHeap` puts trees on a heap whose `Memory.live` is the set of allocated blocks
  and whose `Memory.built` counts the nodes ever built, and `ValueBuild`, `ValueDestroy`, `ValueAccess`, `ValueCloning`,
  `WriteBuffer`, `PackTree`, `UnpackTree` and `TreeRoundTrip` are the C functions over it. Every method states which blocks
  are live afterwards, exactly, and every method that reads or frees a tree requires its blocks to be live: nothing leaks,
  nothing is freed twice, and no freed tree is read. `PackEmitted` says which accepted buffers the writer emits, and
  `PackWire` which byte stands where.
- **The wait group** (`core/waitgroup.c`). `WaitGroup` is a step machine with one owner, any number of workers, failing
  thread creation and spurious wakeups; `WaitGroupSteps` sorts its steps, `WaitGroupInvariant` and `WaitGroupContext` are its
  invariants, `WaitGroupSafety` and `WaitGroupProgress` the theorems over all runs, `WaitGroupWitness` a run with a failing thread
  creation, and `WaitGroupRecord` the record that is updated in place under the mutex.
- **The closure extractor** (`bridge_closure.c`). `Lexer` is the one lexer that the C file repeats in three loops,
  `Scanners` the three loops (with the heredoc handling that only the keyword search has), `Tokens` where strings, comments
  and heredocs end, said on the text alone, `Extract` the extraction, `ExtractProofs` and `Wrapper` what the slice and the
  worker's factory file promise, and exactly when they do; `Witnesses` holds PHP files that show it, and files on which they
  do not.
- **The snapshot walk** (`bridge.c`). `Zvals` is a heap of PHP values that may be cyclic; `Snapshot` and `SnapshotRefusal`
  are the capture walk as a function with its theorems, `SnapshotSlots` what it makes of an object's slots, `SnapshotWalk`
  the C functions that build the tree; `Restore` and `RestoreTable` rebuild PHP values from trees.

Bytes are integers from 0 to 255 in the codec and characters in the extractor; doubles are their 64-bit patterns; machine
integers are ranges of `int`, and casts, shifts and the wrap at 64 bits are written out.

## Where the code and its promises differ

- The walk to the left of the keyword is meant to keep a `static` (`bridge_closure.c:312-313`). It keeps the word exactly if
  it does not begin at the first byte of the line, because of the bound in line 318 (`KeepsStatic`,
  `StaticAtLineStartIsDropped`, `StaticIsLost`). For the same reason extracting again from the slice gives the slice
  exactly if it begins with `function` (`ExtractAgain`).
- The factory around an extracted closure (`bridge_closure.c:434-444`) is not always well bracketed, and `WrapperMatches` says
  exactly when it is. Without a NUL byte: exactly if the braces in the closure's header balance without closing more than
  they open. A default value that is a heredoc with a single closing brace is extracted and breaks it (`WrapperCanBreak`).
  With a NUL byte, where `strlen` in line 442 cuts the text: exactly if the NUL stands in the header and the part before it
  closes itself. So a NUL in a string of the body breaks the wrapper of a closure whose header balances (`BodyNulBreaks`,
  `NulBreaksWrapper`), and only without a NUL does the wrapper hold the whole closure (`WrapKeepsText`).
- `core/waitgroup.h:28-29` says that a task's result is set when ok, and its error when not. The slot of a task whose
  thread could not be created is not ok and has neither (`FailedSlotIsEmpty`; in any run `WaitRefinesSequential` says that
  such a slot holds nothing).
- `core/waitgroup.h:33-34` says that the runner takes ownership of the arguments and frees them. `wg_destroy` frees them
  (`core/waitgroup.c:137`); the model follows the code.
- `value/pack.h:18` speaks of values that were packed before. The reader accepts more: overlong varints, any nonzero boolean
  or key flag, error strings with NUL bytes, and integer keys in objects, which become the key "".
  `EmittedIff` says which accepted buffers the writer emits, `OverlongVarint`, `OddBoolean`, `OddKeyFlag`, `NulInErrorText`
  and `IntegerKeyInObject` are buffers that it never does, and `Canonicalise` covers all accepted buffers.
- A NULL child packs as VAL_NULL and NULL error strings as "", so the round trip is the identity up to `Normal`.
- `value_arr_get_str` finds the first of several equal keys, while the rebuilt PHP array holds the last one
  (`FirstMatchIsLastWrite` says exactly when they agree, for all keys; `FirstMatchCanDiffer` and `NumericKeyIsNotFound`
  give cases where they do not).

## Model

| member | source | states |
|---|---|---|
| `Bytes.WithHighBit` | value/pack.c:11 | the byte keeps the low seven bits and has the high bit set |
| `Bytes.OrDisjoint` | value/pack.c:23 | or-ing numbers without common bits adds them |
| `Bytes.ShrByte` | value/pack.c:100 | shifting right by eight more bits divides by 256 |
| `Bytes.CastsWrap` | value/pack.c:153 | the casts between signed and unsigned 64-bit integers keep the number modulo 2^64 |
| `Bytes.CString` | value/pack.c:171-173 | what `strlen` leaves of a buffer: a prefix, up to the first NUL or the end |
| `Varint.VarintMinimal` | value/pack.c:8-15 | no group of bytes that stands for as large a number is shorter |
| `Varint.VarintAtMostTen` | value/pack.c:83-90 | every 64-bit value takes one to ten bytes, the room that is reserved |
| `Varint.VarintWrite` | value/pack.c:8-15 | in place: exactly the minimal bytes are written, inside ten bytes, and nothing else changes |
| `Varint.ReadVarint` | value/pack.c:17-34 | a successful read ends inside the buffer and takes at most ten bytes |
| `Varint.VarintFails` | value/pack.c:17-34 | a read fails exactly if none of the next ten bytes, or of those left, ends the varint |
| `Varint.VarintDecidedByTen` | value/pack.c:17-34 | the first ten bytes decide about every read, failing ones included |
| `Varint.VarintRoundTrip` | value/pack.c:17-34 | reading what was written gives it back and stops right after it |
| `Varint.VarintRewriteShorter` | value/pack.c:17-34 | what was read, overlong or not, is rewritten in no more bytes |
| `Varint.ReadVarintLocal` | value/pack.c:17-34 | the outcome depends only on the bytes taken |
| `Varint.ReadStep` | value/pack.c:23 | one shift, cut to 64 bits and or is an addition modulo 2^64 |
| `PackFormat.Unpack` | value/pack.c:257-365 | a successful read takes at least one byte and ends inside the buffer; the recursion ends because bytes run out, whatever count is declared |
| `PackFormat.UnpackEntries` | value/pack.c:206-253 | a block that is read has exactly the declared number of entries |
| `PackProofs.LittleEndianRoundTrip` | value/pack.c:99-113 | eight bytes written lowest first read back as the same number |
| `PackProofs.DoubleRoundTrip` | value/pack.c:94-117 | every 64-bit double pattern survives |
| `PackProofs.BlobRoundTrip` | value/pack.c:158-161 | a length-prefixed string reads back, and the reader stops right after it |
| `PackProofs.KeyRoundTrip` | value/pack.c:128-134 | string and integer keys, negative ones included, read back |
| `PackProofs.ErrorRoundTrip` | value/pack.c:170-182 | the four parts of an error read back |
| `PackProofs.RoundTrip` | value/pack.c:139-184 | wherever a packed value stands in a buffer, reading there gives the normalised value and stops right after it |
| `PackProofs.RoundTripBlock` | value/pack.c:123-137 | the same for a key/value block |
| `PackProofs.RoundTripEntries` | value/pack.c:126-136 | the same for the entries of a block |
| `PackProofs.RoundTripEntry` | value/pack.c:127-135 | the same for one entry |
| `PackProofs.UnpackLocal` | value/pack.c:257-365 | a successful read depends only on the bytes it took: it repeats wherever they stand, whatever follows |
| `PackProofs.UnpackBlockLocal` | value/pack.c:200-255 | the same for a block |
| `PackProofs.UnpackEntriesLocal` | value/pack.c:206-253 | the same for entries |
| `PackProofs.ReadErrorLocal` | value/pack.c:323-362 | the same for an error |
| `PackProofs.UnpackCanonical` | value/pack.c:257-365 | what a successful read gives is normal, packs into no more bytes than it was read from, and has no more nodes than bytes and less height (refused input: `UnpackTree.UnpackOne`) |
| `PackProofs.UnpackBlockCanonical` | value/pack.c:200-255 | the same for a block that is read (refused input: `UnpackTree.UnpackKvBlock`) |
| `PackProofs.ErrorRewriteShorter` | value/pack.c:323-362 | error strings cut at a NUL pack into no more bytes |
| `PackProofs.KeyRewriteShorter` | value/pack.c:210-236 | keys under odd flags, and integer keys that an object drops, pack into no more bytes |
| `PackProofs.PackThenUnpack` | value/pack.c:186-194 | unpacking a packed value of any depth and size gives the normalised value |
| `PackProofs.AcceptedArePrefixFree` | value/pack.c:367-380 | no accepted buffer continues another accepted buffer |
| `PackProofs.PackedIsSelfDelimiting` | value/pack.c:367-380 | every strict prefix and every extension of a packed value is refused |
| `PackProofs.PackInjective` | value/pack.c:186-194 | equal packed forms mean values equal up to normalisation |
| `PackProofs.Canonicalise` | value/pack.c:367-380 | for every accepted buffer: packing the result is no longer, reads as the same value, and nodes and height are bounded by the bytes |
| `PackEmitted.EmittedIff` | value/pack.c:186-194 | an accepted buffer is the packed form of some value in memory exactly if packing what it reads as gives it back |
| `PackEmitted.PackNormal` | value/pack.c:139-184 | a value in memory and its normalised form pack alike |
| `PackEmitted.OverlongVarint` | value/pack.c:17-34 | an overlong varint is accepted and never emitted |
| `PackEmitted.OddBoolean` | value/pack.c:266-271 | so is a boolean of 7 |
| `PackEmitted.OddKeyFlag` | value/pack.c:210-211 | so is a key flag of 7 |
| `PackEmitted.IntegerKeyInObject` | value/pack.c:249-251 | so is an integer key in an object, which becomes the key "" |
| `PackEmitted.NulInErrorText` | value/pack.c:328-331 | so is an error text with a NUL, which ends it |
| `PackWire.FirstByte` | value/value.h:12-21 | the first byte of a packed value is 0 to 7 as its tag is null, boolean, integer, double, string, array, object, error; NULL packs as 0 |
| `PackWire.FirstByteDecides` | value/pack.c:257-365 | and what is read has the tag that the first byte says; other first bytes are refused |
| `PackWire.VarintByte` | value/pack.c:8-15 | byte k of a varint is the k-th digit to base 128, lowest first, with the high bit on all but the last |
| `PackWire.VarintIsRead` | value/pack.c:17-34 | the bytes up to the first below 128 are read as digits of one number, which is cut to 64 bits |
| `PackWire.LittleEndianByte` | value/pack.c:94-103 | byte k of a fixed-width number is its k-th digit to base 256, lowest first |
| `PackWire.DoubleBytes` | value/pack.c:94-103 | a packed double is its tag and its 64 bits, lowest byte first |
| `PackWire.DoubleIsRead` | value/pack.c:105-117 | nine bytes that begin with tag 3 are read as the double with these bits |
| `PackWire.LongBytes` | value/pack.c:152-154 | a packed integer is its tag and the varint of its value modulo 2^64 |
| `PackWire.BoolBytes` | value/pack.c:149-151 | a packed boolean is its tag and 1 or 0 |
| `PackWire.StrBytes` | value/pack.c:158-161 | a packed string is its tag, its length and its bytes |
| `PackWire.BlockBytes` | value/pack.c:162-169 | a packed array is its tag, the number of entries and the entries; an object has its class name before that |
| `PackWire.EntryBytes` | value/pack.c:126-136 | entry k stands between those before and those behind it: 1 and the integer key modulo 2^64, or 0, length and bytes of the string key, then the packed value |
| `PackWire.ErrorBytes` | value/pack.c:170-183 | a packed error is its tag, class, message, code modulo 2^64 and trace, in this order, with "" for a NULL text |
| `PackWire.NormalIffComplete` | value/pack.c:139-184 | a value is its own normal form exactly if nothing in it is NULL and its objects have string keys only |
| `PackWire.NormalFillsIn` | value/pack.c:170-173 | a NULL child travels as null, a NULL text of an error as "" |
| `PackWire.NormalEntryAt` | value/pack.c:242-251 | entries travel in their order, under their keys, except that the integer key of an object becomes "" |
| `ValueBuild.Malloc` | value/value.c:12 | a new live block |
| `ValueBuild.Free` | value/value.c:214-226 | the block is live no more; NULL changes nothing |
| `ValueBuild.DupBytes` | value/value.c:7-18 | a fresh copy of the bytes, NULL exactly for none |
| `ValueBuild.StrLen` | value/value.c:25 | the offset of the first NUL |
| `ValueBuild.DupCString` | value/value.c:20-32 | a fresh copy up to and with the first NUL |
| `ValueBuild.ValueStr` | value/value.c:70-76 | a fresh node for the string, and the live blocks grow by exactly its footprint |
| `ValueBuild.ValueArr` | value/value.c:78-89 | a fresh empty array, and the live blocks grow by exactly its footprint |
| `ValueBuild.ValueObj` | value/value.c:91-104 | a fresh object without properties, likewise |
| `ValueBuild.ValueErr` | value/value.c:106-114 | a fresh error with the three texts up to their first NUL, likewise |
| `ValueBuild.Grow` | value/value.c:116-126 | a larger block with the old slots in front; the old block is freed |
| `ValueBuild.AppendSlot` | value/value.c:157-166 | the block stands for the old entries and one more, reallocated where it was full |
| `ValueBuild.ValueArrSetInt` | value/value.c:155-167 | one entry more at the end, the child now owned, live blocks exact |
| `ValueBuild.ValueArrSetStr` | value/value.c:169-181 | the same under a copied string key |
| `ValueBuild.ValueObjSet` | value/value.c:183-195 | the same for an object |
| `ValueAccess.NextKey` | value/value.c:128-138 | above every integer key, and the largest plus one unless it is 0 |
| `ValueAccess.NextIntKey` | value/value.c:128-138 | the loop computes that key |
| `ValueAccess.ValueArrPush` | value/value.c:140-153 | the child becomes the last entry under that key |
| `ValueAccess.Pushed` | value/value.c:140-153 | n pushes give n entries and the next key n |
| `ValueAccess.PushedIsList` | value/value.c:140-153 | pushed values get the keys 0, 1, 2, ... in order |
| `ValueAccess.FirstWith` | value/value.c:202-211 | the first entry with the key, or the end |
| `ValueAccess.ValueArrGetStr` | value/value.c:197-212 | the child of the first match, NULL if there is none or the node is no array; only live blocks are read |
| `ValueDestroy.FreeEntry` | value/value.c:217-222 | frees exactly the key and the tree below the entry |
| `ValueDestroy.FreeKvArray` | value/value.c:214-224 | frees exactly the entries and the block |
| `ValueDestroy.ValueFree` | value/value.c:226-254 | frees exactly the blocks of the tree, each once |
| `ValueCloning.CloneEntry` | value/clone.c:15-25 | a fresh copy of one entry |
| `ValueCloning.CloneKvBlock` | value/clone.c:6-27 | a fresh block for equal entries |
| `ValueCloning.ValueClone` | value/clone.c:29-63 | an equal tree of fresh blocks; the source is untouched |
| `ValueCloning.CloneThenAppend` | value/clone.c:29-63 | a later change to the source does not reach the clone |
| `WriteBuffer.WBuf.constructor` | value/pack.c:44-49 | an empty buffer |
| `WriteBuffer.WBuf.Reserve` | value/pack.c:51-66 | room for the extra bytes, contents kept, capacity at most doubled beyond need, and bytes moved by all reallocations at most the capacity |
| `WriteBuffer.WBuf.PutByte` | value/pack.c:68-72 | the contents grow by the byte |
| `WriteBuffer.WBuf.PutBytes` | value/pack.c:74-81 | the contents grow by the bytes |
| `WriteBuffer.WBuf.PutVarint` | value/pack.c:83-90 | the contents grow by the varint; the ten reserved bytes suffice |
| `WriteBuffer.WBuf.PutDouble` | value/pack.c:94-103 | the contents grow by the pattern, lowest byte first |
| `PackTree.PutEntry` | value/pack.c:127-135 | the buffer grows by exactly the packed entry |
| `PackTree.PackKvBlock` | value/pack.c:123-137 | the buffer grows by exactly the packed block |
| `PackTree.PackObj` | value/pack.c:165-169 | the buffer grows by exactly the packed object |
| `PackTree.PackErr` | value/pack.c:170-182 | the buffer grows by exactly the packed error |
| `PackTree.PackOne` | value/pack.c:139-184 | the buffer grows by exactly the packed form of the value of the tree; only live blocks are read |
| `PackTree.ValuePack` | value/pack.c:186-194 | the returned bytes are the packed value, in a buffer of at most max(64, 2 * (len + 9)) bytes |
| `UnpackTree.VarintRead` | value/pack.c:17-34 | the shifting loop reads what the specification reads; in both outcomes it passes at most ten bytes, and a failing read stops exactly there or at the end |
| `UnpackTree.DoubleRead` | value/pack.c:105-117 | the shifting loop reads the pattern, exactly if eight bytes are left |
| `UnpackTree.KeyRead` | value/pack.c:207-236 | the key, in a temporary block if it is a string; nothing stays allocated on failure |
| `UnpackTree.EntryRead` | value/pack.c:207-252 | one entry more, or failure; live blocks change only by the parent's footprint; in both outcomes no more nodes are built than bytes read |
| `UnpackTree.EntriesRead` | value/pack.c:206-253 | all declared entries, or failure; in both outcomes no more nodes are built than bytes read, whatever count is declared |
| `UnpackTree.UnpackKvBlock` | value/pack.c:200-255 | the parent gets the entries of the block, or the read fails; live blocks exact; nodes built at most the bytes read in both outcomes |
| `UnpackTree.UnpackErr` | value/pack.c:323-362 | an error node or NULL, with the temporaries freed on all four failure exits |
| `UnpackTree.UnpackOne` | value/pack.c:257-365 | a tree for what the specification reads or NULL; live blocks grow by exactly the tree; in every outcome it builds no more nodes than it reads bytes, and no more calls are nested than bytes were read |
| `UnpackTree.ValueUnpack` | value/pack.c:367-380 | a tree for the whole buffer, or NULL and no block left behind; for every buffer, refused ones included, nodes built and nesting depth are at most its length, and the nesting exceeds the height of the tree |
| `TreeRoundTrip.RoundTripTree` | tests/c/test_pack.c:8-18 | packing and unpacking a tree never fails and gives a disjoint tree of the normalised value |
| `Lexer.RunRestarts` | bridge_closure.c:183-218 | a run that is in normal state somewhere goes on as a run started there |
| `Lexer.RunWithin` | bridge_closure.c:183-218 | inside another text the lexer does the same |
| `Lexer.BalancesUnique` | bridge_closure.c:175-220 | there is at most one matching end |
| `Lexer.BalancesEndsWithBrace` | bridge_closure.c:195-199 | the match ends in a closing brace outside strings and comments |
| `Lexer.BalancesWithin` | bridge_closure.c:175-220 | matching inside another text gives the same end |
| `Tokens.TokenIsNext` | bridge_closure.c:187-217 | from a code byte on the lexer is next in normal state exactly behind the token there: a string up to its first equal quote with an even run of backslashes before it, a line comment up to its newline, a block comment up to the first `*/` behind its two bytes, or the single byte |
| `Tokens.NormalIffBetween` | bridge_closure.c:183-218 | a byte is code exactly if a chain of such tokens leads to it |
| `Witnesses.EscapedQuoteStaysOpen` | bridge_closure.c:207-210 | a brace behind an escaped quote is still in the string and matches nothing |
| `Scanners.OffsetOfLine` | bridge_closure.c:57-72 | the offset right behind the newline before the line, and -1 exactly if there are too few lines |
| `Scanners.HeredocEnd` | bridge_closure.c:115-141 | a heredoc ends behind its three opening bytes and inside the text |
| `Scanners.SkipHeredoc` | bridge_closure.c:116-141 | the three nested loops find that end |
| `Tokens.HeredocEndIff` | bridge_closure.c:115-141 | that end, on the text: behind the label of the first line that is blanks and the opening label before a byte of no identifier; the end of the text if there is none |
| `Tokens.ScanIffBetween` | bridge_closure.c:104-169 | the keyword scanner is in normal state exactly between tokens, where a heredoc is one together with the byte behind it |
| `Scanners.IdentBytes` | bridge_closure.c:87-93 | the identifier bytes are the letters, the digits and the underscore, 63 in all |
| `Tokens.FoundOnText` | bridge_closure.c:145-151 | a keyword is found exactly where tokens lead to it, its bytes stand there, and the bytes beside it are none of the 63 |
| `Scanners.ScanIsRun` | bridge_closure.c:95-171 | on text without `<<<` the keyword scanner is the plain lexer |
| `Scanners.FindKeyword` | bridge_closure.c:95-171 | the least offset from the start on where a keyword begins in normal state with no identifier byte beside it, -1 exactly if there is none; each occurrence passed over has one of the 63 beside it |
| `Scanners.FindBody` | bridge_closure.c:258-298 | the least code brace at parenthesis depth 0, -1 exactly if there is none |
| `Scanners.BraceMatch` | bridge_closure.c:175-220 | the least end at which the code braces balance, with positive depth before it; -1 exactly if the start is no brace or the depth stays positive |
| `Extract.BackOver` | bridge_closure.c:316-317 | goes back over blanks only, and to a byte that is none or to the bound |
| `Extract.LeftWalk` | bridge_closure.c:312-324 | the loop computes the walk to the left |
| `Extract.ExtractText` | bridge_closure.c:242-338 | the slice of the one cut, or the error that names the first thing that is missing: the line (exactly then), the keyword, the body or its end |
| `Extract.LineUnique` | bridge_closure.c:57-72 | a line starts at one offset only |
| `Extract.CutUnique` | bridge_closure.c:242-338 | text and line decide what is extracted |
| `Witnesses.NameIsNoKeyword` | bridge_closure.c:145-151 | a PHP file in which the keyword also ends the name of a called function: the closure behind it is extracted |
| `ExtractProofs.WalkLeftTakes` | bridge_closure.c:312-324 | the bytes taken are `static` words and blanks, and a token begins there |
| `ExtractProofs.SliceStart` | bridge_closure.c:249-326 | the slice is `static` words and blanks and then the keyword |
| `ExtractProofs.SelfDelimiting` | bridge_closure.c:249-338 | searching the slice alone finds the keyword, the brace and the end at the same bytes, and the end is the slice's end |
| `ExtractProofs.OneRun` | bridge_closure.c:251-310 | the three scans are one run of the lexer, in normal state at the end |
| `ExtractProofs.ExtractAgain` | bridge_closure.c:312-338 | extracting from the slice is defined, and gives the whole slice exactly if no `static` was kept |
| `ExtractProofs.KeepsStatic` | bridge_closure.c:314-324 | a `static` is kept exactly if one begins after the first byte of the line, with only blanks up to the keyword |
| `ExtractProofs.KeepsEveryStatic` | bridge_closure.c:314-324 | and no other such `static` is left in front of the slice |
| `ExtractProofs.StaticAtLineStartIsDropped` | bridge_closure.c:318 | a `static` at the first byte of the line is dropped |
| `Witnesses.StaticIsLost` | bridge_closure.c:318 | a PHP file whose closure is extracted without its `static` |
| `Witnesses.StaticIsKept` | bridge_closure.c:314-324 | a PHP file whose closure is extracted with it |
| `Wrapper.WrapMatches` | bridge_closure.c:434-444 | for every text: the factory's brace matches the final brace of the wrapper exactly if the part before the first NUL closes what it opens and ends outside strings and comments |
| `Wrapper.WrapKeepsText` | bridge_closure.c:441-443 | the wrapper, spelled out, with the text before the first NUL inside; that is the whole text exactly if there is no NUL |
| `Wrapper.WrapperMatches` | bridge_closure.c:434-444 | for every extracted closure: without a NUL the wrapper is well bracketed exactly if the header's braces balance; with one, exactly if that stands in the header and the part before it closes itself |
| `Wrapper.BodyNulBreaks` | bridge_closure.c:442 | a NUL in the body always breaks the wrapper |
| `Wrapper.PlainHeaderIsBalanced` | bridge_closure.c:258-298 | a header without code braces balances |
| `Witnesses.WrapperCanBreak` | bridge_closure.c:434-444 | a PHP file whose closure is extracted in full and whose wrapper closes too early, because the header holds a heredoc with a brace |
| `Witnesses.NulBreaksWrapper` | bridge_closure.c:442 | a PHP file whose closure is extracted in full, with a balanced header, and whose wrapper is cut at a NUL in the body |
| `Wrapper.BeforeNul` | bridge_closure.c:442 | the prefix up to the first NUL, all of the text if there is none |
| `WaitGroupInvariant.StepKeepsInv` | core/waitgroup.c:12-146 | every step of every thread keeps the invariant, failed creation and spurious wakeups included |
| `WaitGroupInvariant.RunKeepsInv` | core/waitgroup.c:12-146 | every reachable state has the invariant |
| `WaitGroupInvariant.WorkerKeepsInv` | core/waitgroup.c:12-22 | so does each step of a worker |
| `WaitGroupInvariant.KeepStore` | core/waitgroup.c:55-57 | storing the task keeps slot i holding task i |
| `WaitGroupInvariant.KeepFail` | core/waitgroup.c:71-76 | so does a failing `pthread_create` |
| `WaitGroupInvariant.KeepWaitJoin` | core/waitgroup.c:103-108 | so does joining in `wg_wait` |
| `WaitGroupInvariant.KeepFreeTask` | core/waitgroup.c:129-141 | so does freeing a task |
| `WaitGroupSteps.OwnerTasks` | core/waitgroup.c:44-146 | the owner appends a task, works on its last one, or leaves thread, arguments, outcome and context of all tasks alone |
| `WaitGroupContext.RunKeepsContext` | core/waitgroup.c:60-73 | in every reachable state each task's context block is not yet there, there, or freed once, as the place of its thread and of the owner says |
| `WaitGroupContext.StepKeepsContext` | core/waitgroup.c:12-76 | every step of every thread keeps that |
| `WaitGroupContext.ContextFreedOnce` | core/waitgroup.c:14-17 | in every run each context block is freed at most once, by its thread right after reading it or by the owner where there is no thread, and none is left in the end |
| `WaitGroupSafety.WaitRefinesSequential` | core/waitgroup.c:44-109 | when `wg_wait` returns, in any interleaving, each created thread ran its task once, ended and was joined, and the slots hold what running the calls in order leaves |
| `WaitGroupSafety.WaitLoopExit` | core/waitgroup.c:97-101 | the wait loop is left only when every runner that got a thread has returned, once, with its outcome stored |
| `WaitGroupSafety.WaitStateIsSequential` | core/waitgroup.c:95-109 | the same of every state with the invariant |
| `WaitGroupSafety.StepIsStable` | core/waitgroup.c:35-57 | no step moves a slot, changes a task's arguments, or changes an outcome without running the task again (which never happens: `WaitGroupSafety.OutcomesStay`) |
| `WaitGroupSafety.RunIsStable` | core/waitgroup.c:35-57 | nor does any run |
| `WaitGroupSafety.OutcomesStay` | core/waitgroup.c:35-57 | from any reachable state on, what a task has produced, its arguments and its slot stay for good |
| `WaitGroupWitness.FailedSlotIsEmpty` | core/waitgroup.c:71-79 | a run in which the one `pthread_create` fails, `wg_wait` returns, and the slot holds neither a result nor an error |
| `WaitGroupSafety.GuardedByLock` | core/waitgroup.c:51-58 | only the holder of the mutex changes the counter or the table |
| `WaitGroupSafety.UsesLiveMemory` | core/waitgroup.c:12-146 | no step of any thread touches freed memory, the worker's context block included, with or without a wait before the destruction |
| `WaitGroupSafety.WorkerKeepsAlive` | core/waitgroup.c:12-22 | while a worker has work left, nothing of the group and nothing of its task is freed |
| `WaitGroupSafety.LockDestroyedUnheld` | core/waitgroup.c:143-144 | the mutex is destroyed unheld, with all threads gone |
| `WaitGroupSafety.JoinedOnce` | core/waitgroup.c:103-136 | no thread is joined twice, and after the destruction each was joined |
| `WaitGroupSafety.RemainingCounts` | core/waitgroup.c:57-89 | `remaining` counts the registered tasks that have neither signalled nor been rolled back, so it is never negative |
| `WaitGroupProgress.NoLostWakeup` | core/waitgroup.c:86-101 | while the owner is blocked a countdown or a broadcast is still to come |
| `WaitGroupProgress.NoDeadlock` | core/waitgroup.c:44-146 | some thread can go on, without a spurious wakeup, until the program is over |
| `WaitGroupProgress.StepMeasure` | core/waitgroup.c:12-146 | every step but a spurious wakeup makes the measure smaller; a wakeup adds two |
| `WaitGroupProgress.RunIsBounded` | core/waitgroup.c:12-146 | n commands and w spurious wakeups take at most n * (2n + 40) + 3w steps |
| `WaitGroupProgress.EveryProgramFinishes` | core/waitgroup.c:12-146 | runs are finite but for spurious wakeups, and a run that cannot go on has finished its program |
| `WaitGroupRecord.GroupRecord.Grow` | core/waitgroup.c:35-42 | the capacity becomes 8 or doubles, the old slots stay, and the record changes as in the machine's step |
| `WaitGroupRecord.GroupRecord.Register` | core/waitgroup.c:51-58 | the same for storing and counting; the task learns its slot |
| `WaitGroupRecord.GroupRecord.RollBack` | core/waitgroup.c:74-76 | the same for the failed creation |
| `WaitGroupRecord.GroupRecord.SignalDone` | core/waitgroup.c:86-93 | the same for the countdown, and it broadcasts exactly at zero |
| `WaitGroupRecord.GroupRecord.JoinAll` | core/waitgroup.c:103-108 | each joinable task is joined once and is not joinable afterwards; nothing else changes |
| `WaitGroupRecord.JoinedEffect` | core/waitgroup.c:103-108 | the machine's join loop joins and unmarks each joinable task, and only those |
| `WaitGroupRecord.JoinedIsRun` | core/waitgroup.c:103-108 | it is a run of the machine in which the owner alone moves |
| `WaitGroupRecord.GroupRecord.WaitJoins` | core/waitgroup.c:103-108 | joining over a record that shows a state of the machine leaves it showing the state at the end of that run |
| `WaitGroupRecord.GroupRecord.Get` | core/waitgroup.c:111-117 | the task in the slot, NULL behind the last one |
| `Zvals.PropsAreFirstWins` | bridge.c:186-243 | over the slots as they are: an object's visited properties have distinct names; a name has the value of its declared property that is not static and has one, or else of its first dynamic one, references followed once; other names do not occur |
| `Zvals.FirstDynamicWins` | bridge.c:208-243 | a dynamic property is left out exactly where its name came before |
| `Zvals.Place` | bridge.c:225-231 | the first element under a key, or the end |
| `SnapshotSlots.DeclaredStep` | bridge.c:188-206 | one declared property more changes a capture by exactly the value of its slot, or of the cell its slot refers to; static ones and those without a value change nothing |
| `SnapshotSlots.DynamicStep` | bridge.c:208-243 | the same for a dynamic property; one without a name, or whose name is captured already, changes nothing |
| `SnapshotSlots.NoProperties` | bridge.c:186-245 | an object without properties is captured as one |
| `SnapshotSlots.ByReferenceAt` | bridge.c:198-200 | a property is refused as a reference exactly if its slot refers to a cell that holds a reference |
| `SnapshotSlots.ReferencesAreFollowed` | bridge.c:195-199 | putting in place of any references in slots what their cells hold changes no capture |
| `SnapshotSlots.DepthLimit` | bridge.c:250-253 | n arrays inside one another are captured exactly if there are at most 256 levels |
| `SnapshotSlots.KeysIn` | bridge.c:158-162 | an element is captured under its name, or under its index modulo 2^64 |
| `Snapshot.CaptureIsUnfolding` | bridge.c:248-278 | capture returns a tree exactly if it is the unfolding of the graph and its height fits the depth bound |
| `Snapshot.CaptureListIff` | bridge.c:138-166 | a list is captured exactly if each element is, with its key, in order |
| `Snapshot.UnfoldingIsUnique` | bridge.c:248-278 | a graph has at most one unfolding |
| `Snapshot.CaptureSucceedsIff` | bridge.c:248-278 | capture succeeds exactly if every path has at most 256 edges and ends at a node that can travel |
| `Snapshot.CyclesAreRefused` | bridge.c:248-253 | a value from which any cycle can be reached is refused |
| `SnapshotRefusal.RefusalIsFirstFault` | bridge.c:138-278 | capture fails with a refusal exactly if that is what is wrong with the first offending node in walk order |
| `SnapshotRefusal.ErrHasFirstFault` | bridge.c:138-278 | a failed walk has such a first node |
| `SnapshotRefusal.OkHasNoFault` | bridge.c:138-278 | a successful walk has passed none |
| `SnapshotWalk.ArrayToValue` | bridge.c:138-166 | the array node of the captured entries, or NULL with everything freed |
| `SnapshotWalk.AlreadyCaptured` | bridge.c:225-231 | whether a property with the name was captured before |
| `SnapshotWalk.CaptureDeclared` | bridge.c:188-206 | the object holds the captured declared properties, or the walk stopped at the first refusal |
| `SnapshotWalk.CaptureDynamic` | bridge.c:208-243 | the same with the dynamic properties whose names have not come before |
| `SnapshotWalk.ObjectToValue` | bridge.c:168-246 | the object node that the specification gives, or NULL, its refusal, and everything freed |
| `SnapshotWalk.ZvalToValue` | bridge.c:248-278 | the captured tree or NULL and the refusal; live blocks grow by exactly the tree |
| `Restore.LastWriteWins` | bridge.c:284-297 | the table holds under each key what the last entry stored there holds |
| `Restore.FilledExact` | bridge.c:284-297 | each entry has its own element, in order, exactly if no two entries share a stored key |
| `Restore.FilledInOrder` | bridge.c:284-297 | the elements are in the order in which their keys first occur: a key that is written again keeps its place |
| `Restore.KeysSurvive` | bridge.c:291-295 | keys survive the casts exactly if the engine stores them apart and as they are |
| `Restore.KeysOut` | bridge.c:291-295 | an integer key is stored modulo 2^64, a string key as the engine makes it |
| `Restore.RebuiltMirrors` | bridge.c:312-353 | rebuilding the capture of a graph gives a copy of it exactly if all array keys are stored as they are and are distinct |
| `Restore.PlainRoundTrip` | bridge.c:138-353 | a value of arrays and scalars comes back as itself exactly if its arrays are tidy |
| `Restore.LastPlace` | bridge.c:284-297 | the last entry that the engine stores under a key, or none |
| `Restore.FirstMatchIsLastWrite` | value/value.c:197-212 | for every key: what the lookup in the tree finds the rebuilt table has, and they find the same entry exactly if the first entry with the string is the last that is stored under its key, or there are none |
| `Restore.StringKeysAgree` | value/value.c:197-212 | for a string that the engine keeps: they agree on whether the key is there, and find the same entry exactly if it occurs at most once |
| `Restore.NumericKeyIsNotFound` | value/value.c:204-208 | the tree does not find a numeric string that the table finds as an integer |
| `Restore.FirstMatchCanDiffer` | value/value.c:197-212 | with a key twice they differ |
| `Restore.CapturedSurvivesPacking` | value/pack.c:186-194 | a captured value is not changed at all by packing and unpacking, and a tidy one still comes back as itself |
| `Restore.RebuiltError` | bridge.c:338-349 | a rebuilt error has exactly the properties `class`, `message`, `code` and `trace`, with its own texts ("" for NULL) and code |
| `RestoreTable.ZTable.constructor` | bridge.c:286 | an empty table |
| `RestoreTable.ZTable.Add` | bridge.c:291-295 | the write replaces in place where the key is present and appends where it is not |
| `RestoreTable.KvBlockToArray` | bridge.c:284-297 | a fresh table with the entries written one after the other |
| `RestoreTable.KvBlockToObject` | bridge.c:299-310 | the property writes in order |
| `RestoreTable.ValueToZval` | bridge.c:312-353 | the rebuilt value of the tree; NULL and VAL_NULL give null; an error node gives the four properties with its texts and code; only live blocks are read |

## Left out

- The Zend and TSRM part of the worker in `bridge_worker.c` (request startup, compilation, calls, bailouts): the runner is an arbitrary function of the task's arguments that writes only its own task and returns.
- PHP class registration, argument parsing, INI settings and module entry in `php_binding.c`.
- Reading the source file and the filename filters (`bridge_closure.c:23-54`, `229-240`): the extraction starts from the text. Running out of memory there is not modelled.
- Agreement of the lexer with PHP's tokeniser, and the choice among several closures on one line: the code does not decide these.
- Capture rules for closures' bound variables and the callable kinds of `bridge.c:60-132`: engine lookups without algorithms.
- Class lookup and property writes of the engine on restore: a rebuilt object is recorded as its class and the writes it receives in order. Mangled names of private and protected properties and INDIRECT slots are not modelled; an object's properties are lists of plain names.
- How the engine turns numeric string keys into integers: a parameter (`Engine.normalise`) of all theorems about rebuilding.
- Failing `malloc` and `calloc` (the code aborts) and `size_t` overflow: lengths fit 64 bits (`Sized`), and `remaining` is unbounded.
- The overlay of the C union: a node has the payload of its tag.
- ValueBuild.StrLen: takes any C string, also one that is no block of the tree's heap, and does not ask whether it is live; the callers that pass blocks of a tree show that.
- Growing a table leaves the new slots unset in C; here they are zeroed entries or empty slots. No proof reads them.
- The slot that `wg_go` returns is the `slot` field of the task in the machine; `wg_size` and the `user_data` pointer are not modelled.
- Runners that do not return, and the inner steps of a runner: a run of the machine performs a runner as one step.
- ValueBuild.ValueErr: the pointers of the source strings are modelled as arrays that contain a NUL, because `strlen` needs one.
- ValueAccess.ValueArrPush: needs the next key below 2^63, because the C code adds 1 to the largest key in 64 bits.
- WaitGroupSafety.WaitRefinesSequential: a program destroys the group at most once and last, as the binding does.
- ExtractProofs.OneRun: for texts without `<<<`, because only one of the three scanners handles heredocs.
- Restore.StringKeysAgree: for keys that the engine keeps as strings; `FirstMatchIsLastWrite` covers the others.
- Zvals.PropsAreFirstWins: for distinct declared names, as a class declares each property once.
